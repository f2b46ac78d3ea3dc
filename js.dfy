/**
 * The small part of JavaScript's runtime the plugins lean on: attribute values,
 * String(), thrown errors, and the string built-ins used by the source
 * (trim, lastIndexOf, substring, split, join, the NaN test of parseInt).
 */
module Js {
  import opened Numbers

  /** What a JavaScript call can throw: `TypeError`, the DOM `InvalidCharacterError`, or an `Error` with a message. */
  datatype Exception = TypeError | InvalidCharacterError | Error(message: string)

  /** An attribute value as the editor stores it: `string | number | boolean | undefined`. */
  datatype Value = Undefined | Bool(b: bool) | Num(n: Decimal) | Str(s: string)

  /** `String(v)`, which is also `v.toString()` for every defined value. */
  function ToString(v: Value): string {
    match v
    case Undefined => "undefined"
    case Bool(b) => if b then "true" else "false"
    case Num(n) => NumberToString(n)
    case Str(s) => s
  }

  /** `attributeValueToString`: "" for undefined, `value.toString()` otherwise. */
  function AttributeValueToString(v: Value): (r: string)
    ensures v.Undefined? ==> r == ""
    ensures v.Str? ==> r == v.s
    ensures !v.Undefined? ==> r == ToString(v)
  {
    if v.Undefined? then "" else ToString(v)
  }

  /** JavaScript truthiness (NaN is not representable here). */
  predicate Truthy(v: Value) {
    match v
    case Undefined => false
    case Bool(b) => b
    case Num(n) => n.mantissa != 0
    case Str(s) => s != ""
  }

  /** WhiteSpace and LineTerminator of ECMA-262, as stripped by `trim` and skipped by `parseInt`. */
  predicate IsWhiteSpace(c: char) {
    ('\U{0009}' <= c <= '\U{000D}') || c == ' ' || c == '\U{00A0}' || c == '\U{1680}'
    || ('\U{2000}' <= c <= '\U{200A}') || c == '\U{2028}' || c == '\U{2029}'
    || c == '\U{202F}' || c == '\U{205F}' || c == '\U{3000}' || c == '\U{FEFF}'
  }

  function TrimStart(s: string): (r: string)
    ensures |r| <= |s| && r == s[|s| - |r|..]
    ensures forall i | 0 <= i < |s| - |r| :: IsWhiteSpace(s[i])
    ensures |r| > 0 ==> !IsWhiteSpace(r[0])
  {
    if |s| > 0 && IsWhiteSpace(s[0]) then TrimStart(s[1..]) else s
  }

  /** The first position from `i` on that does not hold white space. */
  function SkipSpaceFrom(s: string, i: nat): (r: nat)
    requires i <= |s|
    ensures i <= r <= |s|
    ensures forall k | i <= k < r :: IsWhiteSpace(s[k])
    ensures r < |s| ==> !IsWhiteSpace(s[r])
    decreases |s| - i
  {
    if i < |s| && IsWhiteSpace(s[i]) then SkipSpaceFrom(s, i + 1) else i
  }

  /** The end of `s[lo..j]` once the white space at its end is dropped. */
  function SkipSpaceBack(s: string, lo: nat, j: nat): (r: nat)
    requires lo <= j <= |s|
    ensures lo <= r <= j
    ensures forall k | r <= k < j :: IsWhiteSpace(s[k])
    ensures r > lo ==> !IsWhiteSpace(s[r - 1])
    decreases j
  {
    if j > lo && IsWhiteSpace(s[j - 1]) then SkipSpaceBack(s, lo, j - 1) else j
  }

  /** The bounds of `s.trim()`: white space lies before the first and from the second on, and the slice between starts and ends with a non-space. */
  function TrimBounds(s: string): (b: (nat, nat))
    ensures b.0 <= b.1 <= |s|
    ensures forall i | 0 <= i < b.0 :: IsWhiteSpace(s[i])
    ensures forall i | b.1 <= i < |s| :: IsWhiteSpace(s[i])
    ensures b.0 < b.1 ==> !IsWhiteSpace(s[b.0]) && !IsWhiteSpace(s[b.1 - 1])
  {
    var a := SkipSpaceFrom(s, 0);
    (a, SkipSpaceBack(s, a, |s|))
  }

  /** `s.trim()`. */
  function Trim(s: string): string {
    s[TrimBounds(s).0..TrimBounds(s).1]
  }

  lemma TrimEmpty()
    ensures Trim("") == ""
  {
    var b := TrimBounds("");
    assert b.0 == b.1 == 0;
  }

  /** A string that neither starts nor ends with white space is its own `trim()`. */
  lemma TrimTrimmed(s: string)
    requires |s| > 0 ==> !IsWhiteSpace(s[0]) && !IsWhiteSpace(s[|s| - 1])
    ensures Trim(s) == s
  {
    var b := TrimBounds(s);
    if |s| > 0 {
      assert b.0 == 0;
      assert b.1 == |s|;
    }
  }

  /** `trim()` is idempotent. */
  lemma TrimIdempotent(s: string)
    ensures Trim(Trim(s)) == Trim(s)
  {
    var b := TrimBounds(s);
    var t := Trim(s);
    if |t| > 0 {
      assert t[0] == s[b.0] && t[|t| - 1] == s[b.1 - 1];
    }
    TrimTrimmed(t);
  }

  /** `s.lastIndexOf(c)` for a one-character needle. */
  function LastIndexOf(s: string, c: char): (r: int)
    ensures -1 <= r < |s|
    ensures r == -1 <==> c !in s
    ensures r >= 0 ==> s[r] == c && forall i | r < i < |s| :: s[i] != c
  {
    if |s| == 0 then -1
    else if s[|s| - 1] == c then |s| - 1
    else LastIndexOf(s[..|s| - 1], c)
  }

  /** `s.substring(start)`: a start below zero counts as zero, one beyond the end as the end. */
  function Substring(s: string, start: int): (r: string)
    ensures 0 <= start <= |s| ==> r == s[start..]
    ensures start < 0 ==> r == s
    ensures start > |s| ==> r == ""
  {
    if start < 0 then s else if start > |s| then "" else s[start..]
  }

  /** `parts.join(sep)`. */
  function Join(parts: seq<string>, sep: string): string {
    if |parts| == 0 then ""
    else if |parts| == 1 then parts[0]
    else parts[0] + sep + Join(parts[1..], sep)
  }

  /** `s.split(sep)` for a one-character separator: the pieces between the occurrences of `sep`. */
  function SplitAll(s: string, sep: char): (r: seq<string>)
    ensures |r| >= 1
    ensures forall i | 0 <= i < |r| :: sep !in r[i]
    ensures Join(r, [sep]) == s
  {
    if |s| == 0 then [""]
    else
      var rest := SplitAll(s[1..], sep);
      if s[0] == sep then
        [""] + rest
      else
        var r := [[s[0]] + rest[0]] + rest[1..];
        assert r[1..] == rest[1..];
        r
  }

  /** `s.split(sep, limit)`: the first `limit` pieces of the full split. */
  function Split(s: string, sep: char, limit: nat): (r: seq<string>)
    ensures |r| == if limit < |SplitAll(s, sep)| then limit else |SplitAll(s, sep)|
    ensures forall i | 0 <= i < |r| :: r[i] == SplitAll(s, sep)[i]
  {
    var all := SplitAll(s, sep);
    if limit < |all| then all[..limit] else all
  }

  predicate IsDecimalDigit(c: char) {
    '0' <= c <= '9'
  }

  predicate IsHexDigit(c: char) {
    IsDecimalDigit(c) || 'a' <= c <= 'f' || 'A' <= c <= 'F'
  }

  /**
   * `!isNaN(parseInt(s))`: after leading white space and an optional sign, a
   * "0x"/"0X" prefix switches to radix 16, and at least one digit of the radix
   * must follow.
   */
  predicate ParseIntIsNumber(s: string) {
    var t := TrimStart(s);
    var u := if |t| > 0 && (t[0] == '+' || t[0] == '-') then t[1..] else t;
    if |u| >= 2 && u[0] == '0' && (u[1] == 'x' || u[1] == 'X') then
      |u| >= 3 && IsHexDigit(u[2])
    else
      |u| >= 1 && IsDecimalDigit(u[0])
  }

  lemma {:induction false} PositiveTextStartsWithDigit(m: nat, e: int)
    requires m > 0
    ensures |PositiveToString(m, e)| >= 1 && IsDecimalDigit(PositiveToString(m, e)[0])
    ensures |PositiveToString(m, e)| >= 2 ==> IsDecimalDigit(PositiveToString(m, e)[1]) || PositiveToString(m, e)[1] == '.' || PositiveToString(m, e)[1] == 'e'
  {
    var s := NatToString(m);
    var k := |s|;
    var n := k + e;
    var p := PositiveToString(m, e);
    if k <= n <= 21 {
      assert p == s + Zeros(n - k);
      assert |p| >= 2 ==> p[1] == (s + Zeros(n - k))[1];
    } else if 0 < n <= 21 {
      assert p == s[..n] + "." + s[n..];
      assert p[0] == s[0];
      assert |p| >= 2 ==> p[1] == s[1] || p[1] == '.';
    } else if -6 < n <= 0 {
    } else {
      assert p[0] == s[0];
    }
  }

  /** The text of every number starts with a digit, possibly after a minus sign, so parseInt never yields NaN on it. */
  lemma {:induction false} NumberParsesAsInt(d: Decimal)
    ensures ParseIntIsNumber(NumberToString(d))
  {
    var c := Normalize(d);
    if c.mantissa == 0 {
      assert NumberToString(d) == "0";
      DigitTextParses("0");
    } else if c.mantissa < 0 {
      var p := PositiveToString(-c.mantissa, c.exponent);
      assert NumberToString(d) == "-" + p;
      PositiveTextStartsWithDigit(-c.mantissa, c.exponent);
      SignedTextParses(p);
    } else {
      var p := PositiveToString(c.mantissa, c.exponent);
      assert NumberToString(d) == p;
      PositiveTextStartsWithDigit(c.mantissa, c.exponent);
      DigitTextParses(p);
    }
  }

  lemma SignedTextParses(p: string)
    requires |p| >= 1 && IsDecimalDigit(p[0])
    requires |p| >= 2 ==> p[1] != 'x' && p[1] != 'X'
    ensures ParseIntIsNumber("-" + p)
  {
    var s := "-" + p;
    assert TrimStart(s) == s;
    assert s[1..] == p;
  }

  lemma DigitTextParses(p: string)
    requires |p| >= 1 && IsDecimalDigit(p[0])
    requires |p| >= 2 ==> p[1] != 'x' && p[1] != 'X'
    ensures TrimStart(p) == p && ParseIntIsNumber(p)
  {
    WhiteSpaceNotDigit(p[0]);
  }

  lemma WhiteSpaceNotDigit(c: char)
    requires IsDecimalDigit(c)
    ensures !IsWhiteSpace(c)
  {
  }
}
