/**
 * Reading a `<span style="font-size: …">` into the model's `fontSize`
 * attribute: the size is converted to pixels and snapped to the closest of
 * the configured sizes. Numbers are exact decimals and the converted size a
 * `real`; floating-point rounding is not modelled.
 */
module FontSize {
  import opened Wrappers
  import opened Js
  import opened Numbers

  /** `WoltlabFontSize.defaultFontSize`. */
  const DefaultFontSize: Decimal := Decimal(15, 0)

  /** An entry of the `fontSize.options` configuration. */
  datatype SizeOption = Default | Size(value: Decimal)

  /** The configured sizes, with `"default"` read as the default size. */
  function FontSizes(options: seq<SizeOption>): (r: seq<Decimal>)
    ensures |r| == |options|
    ensures forall i :: 0 <= i < |options| ==> r[i] == (if options[i].Default? then DefaultFontSize else options[i].value)
  {
    seq(|options|, i requires 0 <= i < |options| => if options[i].Default? then DefaultFontSize else options[i].value)
  }

  predicate AllDigits(s: string) {
    forall i :: 0 <= i < |s| ==> IsDecimalDigit(s[i])
  }

  /** The value of a run of decimal digits (`0` for none). */
  function DigitsValue(s: string): (n: nat)
    requires AllDigits(s)
  {
    if |s| == 0 then 0 else 10 * DigitsValue(s[..|s| - 1]) + (s[|s| - 1] - '0') as nat
  }

  /** The index of the first `.` in `s`, if there is one. */
  function DotIndex(s: string): (r: Option<nat>)
    ensures r.Some? ==> r.value < |s| && s[r.value] == '.' && forall i :: 0 <= i < r.value ==> s[i] != '.'
    ensures r.None? ==> forall i :: 0 <= i < |s| ==> s[i] != '.'
  {
    if |s| == 0 then None
    else if s[0] == '.' then Some(0)
    else
      var rest := DotIndex(s[1..]);
      if rest.Some? then Some(rest.value + 1) else None
  }

  /**
   * The text `\d*\.?\d+` matches: digits and at most one point, ending in a
   * digit.
   */
  predicate IsNumberText(s: string) {
    && |s| > 0 && IsDecimalDigit(s[|s| - 1])
    && (forall i :: 0 <= i < |s| ==> IsDecimalDigit(s[i]) || s[i] == '.')
    && (forall i, j :: 0 <= i < j < |s| && s[i] == '.' ==> s[j] != '.')
  }

  /**
   * `parseFloat` of the text `\d*\.?\d+` matched: the digits before the
   * point and the digits after it, as an exact decimal; `None` for a text
   * that is not matched.
   */
  function MatchNumber(s: string): (r: Option<Decimal>)
  {
    var dot := DotIndex(s);
    if dot.None? then
      if |s| > 0 && AllDigits(s) then Some(Decimal(DigitsValue(s), 0)) else None
    else
      var whole, fraction := s[..dot.value], s[dot.value + 1..];
      if AllDigits(whole) && |fraction| > 0 && AllDigits(fraction) then
        Some(Decimal(DigitsValue(whole + fraction), -|fraction|))
      else None
  }

  /** The parse succeeds exactly on the texts the pattern matches. */
  lemma MatchNumberIff(s: string)
    ensures MatchNumber(s).Some? <==> IsNumberText(s)
  {
    if IsNumberText(s) {
      NumberTextParses(s);
    }
    if MatchNumber(s).Some? {
      ParsedIsNumberText(s);
    }
  }

  lemma {:induction false} NumberTextParses(s: string)
    requires IsNumberText(s)
    ensures MatchNumber(s).Some?
  {
    var dot := DotIndex(s);
    if dot.Some? {
      var d := dot.value;
      var whole, fraction := s[..d], s[d + 1..];
      forall i | 0 <= i < |whole| ensures IsDecimalDigit(whole[i]) {
        assert whole[i] == s[i];
      }
      forall i | 0 <= i < |fraction| ensures IsDecimalDigit(fraction[i]) {
        assert fraction[i] == s[d + 1 + i];
        assert s[d] == '.';
      }
      assert d != |s| - 1;
    }
  }

  lemma {:induction false} ParsedIsNumberText(s: string)
    requires MatchNumber(s).Some?
    ensures IsNumberText(s)
  {
    var dot := DotIndex(s);
    if dot.Some? {
      var d := dot.value;
      var whole, fraction := s[..d], s[d + 1..];
      forall i | 0 <= i < d ensures IsDecimalDigit(s[i]) {
        assert s[i] == whole[i];
      }
      forall i | d < i < |s| ensures IsDecimalDigit(s[i]) {
        assert s[i] == fraction[i - d - 1];
      }
      assert s[|s| - 1] == fraction[|fraction| - 1];
    }
  }

  /** The digits of every integer read back as that integer. */
  lemma IntegerTextParses(n: nat)
    ensures AllDigits(NatToString(n)) && DigitsValue(NatToString(n)) == n
    ensures MatchNumber(NatToString(n)) == Some(Decimal(n, 0))
  {
    IntegerTextValue(n);
    assert DotIndex(NatToString(n)).None?;
  }

  lemma {:induction false} IntegerTextValue(n: nat)
    ensures AllDigits(NatToString(n)) && DigitsValue(NatToString(n)) == n
  {
    var s := NatToString(n);
    if n >= 10 {
      IntegerTextValue(n / 10);
      assert s[..|s| - 1] == NatToString(n / 10);
    }
  }

  /**
   * `convertFontSizeToPx`: a size matching `^(\d*\.?\d+)(px|pt|em|%)$` in
   * pixels (px as is, pt times 1.33, em times 16, % of the default size);
   * `None` for a missing or unmatched size.
   */
  function ConvertFontSizeToPx(fontSize: Option<string>): (r: Option<real>)
  {
    if fontSize.None? then None
    else
      var s := fontSize.value;
      var n := |s|;
      if n >= 1 && s[n - 1] == '%' then
        var v := MatchNumber(s[..n - 1]);
        if v.None? then None else Some(ToReal(v.value) / 100.0 * ToReal(DefaultFontSize))
      else if n >= 2 && s[n - 2..] in ["px", "pt", "em"] then
        var v := MatchNumber(s[..n - 2]);
        if v.None? then None
        else if s[n - 2..] == "px" then Some(ToReal(v.value))
        else if s[n - 2..] == "pt" then Some(ToReal(v.value) * 1.33)
        else Some(ToReal(v.value) * 16.0)
      else None
  }

  /** The factor each unit of the pattern converts by. */
  function UnitFactor(u: string): real
    requires u in ["px", "pt", "em", "%"]
  {
    if u == "px" then 1.0 else if u == "pt" then 1.33 else if u == "em" then 16.0 else 15.0 / 100.0
  }

  /** A number text followed by a unit converts to the number's value times the unit's factor. */
  lemma ConvertNumberWithUnit(number: string, u: string)
    requires IsNumberText(number) && u in ["px", "pt", "em", "%"]
    ensures MatchNumber(number).Some?
    ensures ConvertFontSizeToPx(Some(number + u)) == Some(ToReal(MatchNumber(number).value) * UnitFactor(u))
  {
    MatchNumberIff(number);
    var s := number + u;
    var n := |s|;
    if u == "%" {
      assert s[..n - 1] == number;
    } else {
      assert s[n - 1] != '%';
      assert s[n - 2..] == u && s[..n - 2] == number;
    }
  }

  /** Without a unit of the pattern at its end, or with a text before it the pattern refuses, there is no size. */
  lemma ConvertRefuses(s: string)
    requires !(|s| >= 1 && s[|s| - 1] == '%' && IsNumberText(s[..|s| - 1]))
    requires !(|s| >= 2 && s[|s| - 2..] in ["px", "pt", "em"] && IsNumberText(s[..|s| - 2]))
    ensures ConvertFontSizeToPx(Some(s)) == None
  {
    var n := |s|;
    if n >= 1 && s[n - 1] == '%' {
      MatchNumberIff(s[..n - 1]);
    } else if n >= 2 && s[n - 2..] in ["px", "pt", "em"] {
      MatchNumberIff(s[..n - 2]);
    }
  }

  function Distance(a: real, b: real): real {
    if a >= b then a - b else b - a
  }

  /** One step of the `reduce`: the current size replaces the best so far only when strictly closer. */
  function Closer(prev: Decimal, curr: Decimal, v: real): Decimal {
    if Distance(ToReal(curr), v) < Distance(ToReal(prev), v) then curr else prev
  }

  /** `fontSizes.reduce(...)` over the sizes, left to right. */
  function Closest(sizes: seq<Decimal>, v: real): Decimal
    requires |sizes| > 0
  {
    if |sizes| == 1 then sizes[0] else Closer(Closest(sizes[..|sizes| - 1], v), sizes[|sizes| - 1], v)
  }

  /**
   * The chosen size is one of the sizes, at a minimal distance from `v`,
   * and every earlier size is strictly farther: ties keep the earliest.
   */
  lemma {:induction false} ClosestIndex(sizes: seq<Decimal>, v: real) returns (k: nat)
    requires |sizes| > 0
    ensures k < |sizes| && sizes[k] == Closest(sizes, v)
    ensures forall i :: 0 <= i < |sizes| ==> Distance(ToReal(sizes[k]), v) <= Distance(ToReal(sizes[i]), v)
    ensures forall i :: 0 <= i < k ==> Distance(ToReal(sizes[k]), v) < Distance(ToReal(sizes[i]), v)
  {
    if |sizes| == 1 {
      k := 0;
    } else {
      var init := sizes[..|sizes| - 1];
      var last := |sizes| - 1;
      var j := ClosestIndex(init, v);
      assert forall i :: 0 <= i < last ==> sizes[i] == init[i];
      if Distance(ToReal(sizes[last]), v) < Distance(ToReal(init[j]), v) {
        k := last;
      } else {
        k := j;
      }
    }
  }

  /**
   * The upcast `fontSize` value: `None` (no attribute) when the style gives
   * no size, else the closest configured size followed by `px`; the
   * `reduce` without initial value fails when no size is configured.
   */
  function UpcastFontSize(options: seq<SizeOption>, style: Option<string>): (r: Result<Option<string>, Exception>)
    ensures ConvertFontSizeToPx(style).None? ==> r == Ok(None)
    ensures ConvertFontSizeToPx(style).Some? && |options| == 0 ==> r == Err(TypeError)
    ensures ConvertFontSizeToPx(style).Some? && |options| > 0 ==>
      r == Ok(Some(NumberToString(Closest(FontSizes(options), ConvertFontSizeToPx(style).value)) + "px"))
  {
    var px := ConvertFontSizeToPx(style);
    if px.None? then Ok(None)
    else
      var sizes := FontSizes(options);
      if |sizes| == 0 then Err(TypeError)
      else Ok(Some(NumberToString(Closest(sizes, px.value)) + "px"))
  }

  /** An upcast size is always one of the configured ones, with `"default"` standing for 15. */
  lemma UpcastPicksOption(options: seq<SizeOption>, style: Option<string>)
    requires ConvertFontSizeToPx(style).Some? && |options| > 0
    ensures exists i :: 0 <= i < |options| && UpcastFontSize(options, style) == Ok(Some(NumberToString(FontSizes(options)[i]) + "px"))
  {
    var k := ClosestIndex(FontSizes(options), ConvertFontSizeToPx(style).value);
    assert UpcastFontSize(options, style) == Ok(Some(NumberToString(FontSizes(options)[k]) + "px"));
  }
}
