/** What `JSON.parse` makes of the text `JSON.stringify` writes. */
module JsonFacts {
  import opened Wrappers
  import opened Numbers
  import opened Json

  /** A number the model reads back exactly: an integer below 10^21 in magnitude, in canonical form. */
  predicate IsIntegral(d: Decimal) {
    d.exponent >= 0
    && -(Pow10(21) as int) < d.mantissa * Pow10(d.exponent) < Pow10(21)
    && FromInt(d.mantissa * Pow10(d.exponent)) == d
  }

  /** A character that may follow a value inside an array or object. */
  predicate IsDelimiter(c: char) {
    c == ',' || c == ']' || c == '}' || IsJsonWhiteSpace(c)
  }

  /** Values whose text `JSON.parse` gives back unchanged: null, booleans, strings, integral numbers. */
  predicate IsScalar(v: Json) {
    v.Null? || v.Boolean? || v.String? || (v.Number? && IsIntegral(v.n))
  }

  lemma FromIntIsIntegral(n: int)
    requires -(Pow10(21) as int) < n < Pow10(21)
    ensures IsIntegral(FromInt(n))
  {
    FromIntValue(n);
  }

  /** `FromInt(n)` has a non-negative exponent and the value `n`. */
  lemma FromIntValue(n: int)
    ensures FromInt(n).exponent >= 0
    ensures FromInt(n).mantissa * Pow10(FromInt(n).exponent) == n
  {
    var d := FromInt(n);
    if n != 0 {
      assert n == d.mantissa * Pow10(d.exponent - 0);
    }
  }

  lemma {:induction false} FirstDigitNotZero(m: nat)
    requires m > 0
    ensures NatToString(m)[0] != '0'
  {
    if m >= 10 {
      FirstDigitNotZero(m / 10);
    }
  }

  lemma DigitOfDigitChar(d: nat)
    requires d < 10
    ensures IsDigit(DigitChar(d)) && DigitValue(DigitChar(d)) == d
  {
  }

  /** The digits of `m`, read back at position `a`, have the value `m`. */
  lemma {:induction false} DigitsValueOfText(s: string, a: nat, m: nat)
    requires TextAt(s, a, NatToString(m))
    ensures forall k | a <= k < a + |NatToString(m)| :: IsDigit(s[k])
    ensures DigitsValue(s, a, a + |NatToString(m)|) == m
  {
    var t := NatToString(m);
    forall k | a <= k < a + |t| ensures IsDigit(s[k]) {
      assert s[a + (k - a)] == t[k - a];
    }
    if m < 10 {
      DigitOfDigitChar(m);
      assert s[a + 0] == t[0];
    } else {
      var p := NatToString(m / 10);
      var d := [DigitChar(m % 10)];
      assert t == p + d;
      TextAtConcat(s, a, p, d);
      DigitsValueOfText(s, a, m / 10);
      DigitOfDigitChar(m % 10);
      assert s[a + |p| + 0] == d[0];
    }
  }

  /** A run of digits at `a` after an optional minus sign, ended by a character that cannot continue a number. */
  lemma ParseDigitRun(s: string, i: nat, a: nat, b: nat, n: int)
    requires i <= a < b <= |s|
    requires a == i || (a == i + 1 && s[i] == '-')
    requires forall k | a <= k < b :: IsDigit(s[k])
    requires s[a] == '0' ==> b == a + 1
    requires b < |s| ==> !IsDigit(s[b]) && s[b] != '.' && s[b] != 'e' && s[b] != 'E'
    requires a == i ==> s[i] != '-'
    requires n == if a == i + 1 then -(DigitsValue(s, a, b) as int) else DigitsValue(s, a, b)
    ensures ParseNumber(s, i) == Some((Number(FromInt(n)), b))
  {
    if s[a] != '0' {
      DigitsEndAt(s, a, b);
    }
  }

  /** The text of an integer, followed by the end or a delimiter, parses to that integer. */
  lemma {:induction false} ParseIntegerText(s: string, i: nat, n: int, stop: nat)
    requires TextAt(s, i, IntToString(n))
    requires stop == i + |IntToString(n)|
    requires stop < |s| ==> IsDelimiter(s[stop])
    ensures ParseNumber(s, i) == Some((Number(FromInt(n)), stop))
  {
    var a, m := IntegerTextLayout(s, i, n, stop);
    var digits := NatToString(m);
    DigitsValueOfText(s, a, m);
    assert s[a + 0] == digits[0];
    if m > 0 {
      FirstDigitNotZero(m);
    } else {
      assert digits == "0";
    }
    ParseDigitRun(s, i, a, stop, n);
  }

  /** The text of an integer: an optional minus sign, then the digits of its magnitude `m` from `a`. */
  lemma {:induction false} IntegerTextLayout(s: string, i: nat, n: int, stop: nat) returns (a: nat, m: nat)
    requires TextAt(s, i, IntToString(n))
    requires stop == i + |IntToString(n)|
    ensures m == (if n < 0 then -n else n)
    ensures a == (if n < 0 then i + 1 else i)
    ensures TextAt(s, a, NatToString(m)) && stop == a + |NatToString(m)|
    ensures n < 0 ==> s[i] == '-'
  {
    m := if n < 0 then -n else n;
    var digits := NatToString(m);
    var sign := if n < 0 then "-" else "";
    assert IntToString(n) == sign + digits;
    TextAtConcat(s, i, sign, digits);
    a := i + |sign|;
    if n < 0 {
      assert s[i + 0] == sign[0];
    }
  }

  lemma {:induction false} DigitsEndAt(s: string, a: nat, b: nat)
    requires a <= b <= |s|
    requires forall k | a <= k < b :: IsDigit(s[k])
    requires b < |s| ==> !IsDigit(s[b])
    ensures DigitsEnd(s, a) == b
    decreases b - a
  {
    if a < b {
      DigitsEndAt(s, a + 1, b);
    }
  }

  lemma HexOfHexDigit(n: nat)
    requires n < 16
    ensures HexValue(HexDigit(n)) == Some(n)
  {
  }

  /** One escaped character at `i` is read back as that character. */
  lemma {:induction false} ParseEscapedChar(s: string, i: nat, c: char, j: nat)
    requires TextAt(s, i, EscapeChar(c))
    requires j == i + |EscapeChar(c)|
    requires EscapeChar(c) != [c]
    ensures s[i] == '\\' && ParseEscape(s, i) == Some((c, j))
  {
    var e := EscapeChar(c);
    assert s[i + 0] == e[0] && s[i + 1] == e[1];
    if c < ' ' && c != '\U{0008}' && c != '\U{000C}' && c != '\n' && c != '\r' && c != '\t' {
      var h, l := c as int / 16, c as int % 16;
      assert s[i + 2] == e[2] && s[i + 3] == e[3] && s[i + 4] == e[4] && s[i + 5] == e[5];
      HexOfHexDigit(0);
      HexOfHexDigit(h);
      HexOfHexDigit(l);
      assert Hex4(s, i + 2) == Some(c as int);
      assert (c as int) as char == c;
      assert j == i + 6;
    } else {
      assert j == i + 2;
    }
  }

  /** The characters `JSON.stringify` writes unescaped. */
  lemma PlainChar(c: char)
    ensures EscapeChar(c) == [c] <==> c >= ' ' && c != '"' && c != '\\'
  {
  }

  /** Reading one written character moves the string parser over its escaped form. */
  lemma StepOverChar(s: string, i: nat, c: char, j: nat, t: string, k: nat)
    requires TextAt(s, i, EscapeChar(c))
    requires j == i + |EscapeChar(c)|
    requires ParseStringBody(s, j) == Some((t, k))
    ensures ParseStringBody(s, i) == Some(([c] + t, k))
  {
    PlainChar(c);
    if EscapeChar(c) == [c] {
      assert s[i + 0] == EscapeChar(c)[0];
      assert j == i + 1;
    } else {
      ParseEscapedChar(s, i, c, j);
    }
  }

  /** `s` holds the text `t` at position `i`. */
  predicate TextAt(s: string, i: nat, t: string) {
    i + |t| <= |s| && forall k {:trigger t[k]} | 0 <= k < |t| :: s[i + k] == t[k]
  }

  lemma TextAtConcat(s: string, i: nat, a: string, b: string)
    requires TextAt(s, i, a + b)
    ensures TextAt(s, i, a) && TextAt(s, i + |a|, b)
  {
    forall k | 0 <= k < |a| ensures s[i + k] == a[k] {
      assert (a + b)[k] == a[k];
    }
    forall k | 0 <= k < |b| ensures s[i + |a| + k] == b[k] {
      assert (a + b)[|a| + k] == b[k];
    }
  }

  lemma TextAtSlice(s: string, i: nat, t: string)
    requires TextAt(s, i, t)
    ensures s[i..i + |t|] == t
  {
  }

  /** The escaped text of `x` followed by a closing quote is read back as `x`. */
  lemma {:induction false} ParseStringText(s: string, i: nat, x: string, stop: nat)
    requires TextAt(s, i, EscapeString(x))
    requires stop == i + |EscapeString(x)| + 1
    requires stop <= |s| && s[stop - 1] == '"'
    ensures ParseStringBody(s, i) == Some((x, stop))
    decreases |x|
  {
    if |x| == 0 {
      assert stop - 1 == i;
      assert x == "";
    } else {
      var j := StringTextLayout(s, i, x, stop);
      ParseStringText(s, j, x[1..], stop);
      StepOverChar(s, i, x[0], j, x[1..], stop);
      assert [x[0]] + x[1..] == x;
    }
  }

  /** The escaped first character of `x` is followed by the escaped rest. */
  lemma StringTextLayout(s: string, i: nat, x: string, stop: nat) returns (j: nat)
    requires |x| > 0
    requires TextAt(s, i, EscapeString(x))
    requires stop == i + |EscapeString(x)| + 1
    ensures TextAt(s, i, EscapeChar(x[0])) && j == i + |EscapeChar(x[0])|
    ensures TextAt(s, j, EscapeString(x[1..])) && stop == j + |EscapeString(x[1..])| + 1
  {
    var e := EscapeChar(x[0]);
    var rest := EscapeString(x[1..]);
    assert EscapeString(x) == e + rest;
    TextAtConcat(s, i, e, rest);
    j := i + |e|;
  }

  // One step of the parser each: these keep the unfolding of the parser out of the larger proofs.

  lemma ValueKeyword(s: string, i: nat, v: Json, stop: nat)
    requires v.Null? || v.Boolean?
    requires TextAt(s, i, Stringify(v))
    requires stop == i + |Stringify(v)|
    ensures ParseValue(s, i) == Some((v, stop))
  {
    assert s[i + 0] == Stringify(v)[0];
    TextAtSlice(s, i, Stringify(v));
  }

  lemma ValueString(s: string, i: nat, x: string, k: nat)
    requires i < |s| && s[i] == '"'
    requires ParseStringBody(s, i + 1) == Some((x, k))
    ensures ParseValue(s, i) == Some((String(x), k))
  {
  }

  lemma ValueNumber(s: string, i: nat)
    requires i < |s| && (s[i] == '-' || IsDigit(s[i]))
    ensures ParseValue(s, i) == ParseNumber(s, i)
  {
  }

  lemma {:induction false} ElementsNext(s: string, i: nat, done: seq<Json>, v: Json, end: nat, j: nat)
    requires i <= |s|
    requires ParseValue(s, i) == Some((v, end))
    requires end < |s| && !IsJsonWhiteSpace(s[end]) && s[end] == ','
    requires SkipWhiteSpace(s, end + 1) == j
    ensures ParseElements(s, i, done) == ParseElements(s, j, done + [v])
  {
    ElementsUnfold(s, i, done);
    TailComma(s, i, v, end, done, j);
  }

  lemma TailComma(s: string, i: nat, v: Json, end: nat, done: seq<Json>, j: nat)
    requires i < end < |s| && !IsJsonWhiteSpace(s[end]) && s[end] == ','
    requires SkipWhiteSpace(s, end + 1) == j
    ensures ElementsTail(s, i, Some((v, end)), done) == ParseElements(s, j, done + [v])
  {
    assert SkipWhiteSpace(s, end) == end;
  }

  /** What follows an element of an array, given how that element was read. */
  function ElementsTail(s: string, i: nat, pv: Option<(Json, nat)>, done: seq<Json>): Option<(Json, nat)>
    requires i <= |s|
    requires pv.Some? ==> i < pv.value.1 <= |s|
  {
    match pv
    case None => None
    case Some((v, k)) =>
      var j := SkipWhiteSpace(s, k);
      if j < |s| && s[j] == ',' then ParseElements(s, SkipWhiteSpace(s, j + 1), done + [v])
      else if j < |s| && s[j] == ']' then Some((Array(done + [v]), j + 1))
      else None
  }

  lemma ElementsUnfold(s: string, i: nat, done: seq<Json>)
    requires i <= |s|
    ensures ParseElements(s, i, done) == ElementsTail(s, i, ParseValue(s, i), done)
  {
  }

  lemma SkipAt(s: string, k: nat)
    requires k < |s| && !IsJsonWhiteSpace(s[k])
    ensures SkipWhiteSpace(s, k) == k
  {
  }

  lemma {:induction false} ElementsLast(s: string, i: nat, done: seq<Json>, v: Json, end: nat, stop: nat)
    requires i <= |s|
    requires ParseValue(s, i) == Some((v, end))
    requires end < |s| && s[end] == ']'
    requires stop == end + 1
    ensures ParseElements(s, i, done) == Some((Array(done + [v]), stop))
  {
    SkipAt(s, end);
  }

  lemma ValueArray(s: string, i: nat, j: nat)
    requires i < |s| && s[i] == '['
    requires SkipWhiteSpace(s, i + 1) == j
    requires j < |s| && s[j] != ']'
    ensures ParseValue(s, i) == ParseElements(s, j, [])
  {
  }

  lemma ValueEmptyArray(s: string, i: nat)
    requires i + 1 < |s| && s[i] == '[' && s[i + 1] == ']'
    ensures ParseValue(s, i) == Some((Array([]), i + 2))
  {
    assert SkipWhiteSpace(s, i + 1) == i + 1;
  }

  /** `JSON.stringify` of a scalar, followed by the end or a delimiter, is read back as that scalar. */
  lemma {:induction false} ParseScalarText(s: string, i: nat, v: Json, stop: nat)
    requires IsScalar(v)
    requires TextAt(s, i, Stringify(v))
    requires stop == i + |Stringify(v)|
    requires stop < |s| ==> IsDelimiter(s[stop])
    ensures ParseValue(s, i) == Some((v, stop))
  {
    var t := Stringify(v);
    ScalarTextStart(v);
    assert s[i + 0] == t[0];
    if v.Null? || v.Boolean? {
      ValueKeyword(s, i, v, stop);
    } else if v.String? {
      var x := v.s;
      var e := EscapeString(x);
      assert t == "\"" + e + "\"";
      TextAtConcat(s, i, "\"" + e, "\"");
      TextAtConcat(s, i, "\"", e);
      var q := i + |"\"" + e|;
      assert s[q + 0] == "\""[0];
      assert stop - 1 == q;
      ParseStringText(s, i + 1, x, stop);
      ValueString(s, i, x, stop);
      assert String(x) == v;
    } else {
      var n := v.n.mantissa * Pow10(v.n.exponent);
      IntegerToString(n);
      assert t == IntToString(n);
      ParseIntegerText(s, i, n, stop);
      ValueNumber(s, i);
      assert Number(FromInt(n)) == v;
    }
  }

  /** The text of a scalar starts with neither white space nor a closing bracket, and with `-` or a digit when it is a number. */
  lemma ScalarTextStart(v: Json)
    requires IsScalar(v)
    ensures |Stringify(v)| > 0 && !IsJsonWhiteSpace(Stringify(v)[0]) && Stringify(v)[0] != ']'
    ensures v.Number? ==> Stringify(v)[0] == '-' || IsDigit(Stringify(v)[0])
    ensures v.String? ==> Stringify(v)[0] == '"'
  {
    if v.Number? {
      NumberTextStart(v.n);
    }
  }

  lemma NumberTextStart(d: Decimal)
    requires IsIntegral(d)
    ensures |NumberToString(d)| > 0
    ensures NumberToString(d)[0] == '-' || IsDigit(NumberToString(d)[0])
  {
    var n := d.mantissa * Pow10(d.exponent);
    IntegerToString(n);
    if n >= 0 {
      NatDigitStart(n);
    }
  }

  lemma NatDigitStart(n: nat)
    ensures |NatToString(n)| > 0 && IsDigit(NatToString(n)[0])
  {
  }

  lemma ItemsTextStart(parent: Json, items: seq<Json>)
    requires |items| > 0
    requires forall k | 0 <= k < |items| :: items[k] < parent && IsScalar(items[k])
    ensures |StringifyItems(parent, items)| > 0
    ensures !IsJsonWhiteSpace(StringifyItems(parent, items)[0]) && StringifyItems(parent, items)[0] != ']'
  {
    ScalarTextStart(items[0]);
    ItemsTextPrefix(parent, items);
  }

  lemma {:induction false} ItemsTextPrefix(parent: Json, items: seq<Json>)
    requires |items| > 0
    requires forall k | 0 <= k < |items| :: items[k] < parent
    ensures |Stringify(items[0])| <= |StringifyItems(parent, items)|
    ensures forall k | 0 <= k < |Stringify(items[0])| :: StringifyItems(parent, items)[k] == Stringify(items[0])[k]
  {
    if |items| > 1 {
      var a := Stringify(items[0]);
      var b := "," + StringifyItems(parent, items[1..]);
      assert StringifyItems(parent, items) == a + b;
      forall k | 0 <= k < |a| ensures (a + b)[k] == a[k] {
      }
    }
  }

  lemma CloseLayout(s: string, i: nat, t: string)
    requires TextAt(s, i, t + "]")
    ensures TextAt(s, i, t) && i + |t| < |s| && s[i + |t|] == ']'
  {
    TextAtConcat(s, i, t, "]");
    assert s[i + |t| + 0] == "]"[0];
  }

  lemma CommaLayout(s: string, i: nat, t: string, rest: string)
    requires TextAt(s, i, t + ("," + (rest + "]")))
    ensures TextAt(s, i, t) && i + |t| < |s| && s[i + |t|] == ','
    ensures TextAt(s, i + |t| + 1, rest + "]")
  {
    TextAtConcat(s, i, t, "," + (rest + "]"));
    TextAtConcat(s, i + |t|, ",", rest + "]");
    assert s[i + |t| + 0] == ","[0];
  }

  lemma FirstCharAt(s: string, i: nat, t: string)
    requires TextAt(s, i, t) && |t| > 0
    ensures s[i] == t[0]
  {
    assert s[i + 0] == t[0];
  }

  /** The element list of a stringified array of scalars, with its closing bracket, is read back. */
  lemma {:induction false} ParseItemsText(s: string, i: nat, parent: Json, items: seq<Json>, done: seq<Json>, stop: nat)
    requires |items| > 0
    requires forall k | 0 <= k < |items| :: items[k] < parent && IsScalar(items[k])
    requires TextAt(s, i, StringifyItems(parent, items) + "]")
    requires stop == i + |StringifyItems(parent, items)| + 1
    ensures ParseElements(s, i, done) == Some((Array(done + items), stop))
    decreases |items|
  {
    if |items| == 1 {
      ParseLastItem(s, i, parent, items, done, stop);
    } else {
      var j := ItemsLayout(s, i, parent, items, stop);
      ParseItemsText(s, j, parent, items[1..], done + [items[0]], stop);
      ParseItemsJoin(s, i, parent, items, done, j, stop);
    }
  }

  /** The first element, its comma and the already parsed rest make up the whole element list. */
  lemma {:induction false} ParseItemsJoin(s: string, i: nat, parent: Json, items: seq<Json>, done: seq<Json>, j: nat, stop: nat)
    requires |items| > 1
    requires items[0] < parent && IsScalar(items[0])
    requires j == i + |Stringify(items[0])| + 1
    requires TextAt(s, i, Stringify(items[0]))
    requires j - 1 < |s| && s[j - 1] == ','
    requires j < |s| && !IsJsonWhiteSpace(s[j])
    requires ParseElements(s, j, done + [items[0]]) == Some((Array(done + [items[0]] + items[1..]), stop))
    ensures ParseElements(s, i, done) == Some((Array(done + items), stop))
  {
    ParseScalarText(s, i, items[0], j - 1);
    SkipAt(s, j);
    ParseItemsStep(s, i, items, done, j, stop);
  }

  /** The text of several elements: the first, a comma, then the text of the rest, which starts at `j`. */
  lemma ItemsLayout(s: string, i: nat, parent: Json, items: seq<Json>, stop: nat) returns (j: nat)
    requires |items| > 1
    requires forall k | 0 <= k < |items| :: items[k] < parent && IsScalar(items[k])
    requires TextAt(s, i, StringifyItems(parent, items) + "]")
    requires stop == i + |StringifyItems(parent, items)| + 1
    ensures j == i + |Stringify(items[0])| + 1
    ensures TextAt(s, i, Stringify(items[0]))
    ensures j - 1 < |s| && s[j - 1] == ','
    ensures TextAt(s, j, StringifyItems(parent, items[1..]) + "]")
    ensures j < |s| && !IsJsonWhiteSpace(s[j])
    ensures stop == j + |StringifyItems(parent, items[1..])| + 1
  {
    var t := Stringify(items[0]);
    var rest := StringifyItems(parent, items[1..]);
    assert StringifyItems(parent, items) == t + ("," + rest);
    assert StringifyItems(parent, items) + "]" == t + ("," + (rest + "]"));
    CommaLayout(s, i, t, rest);
    j := i + |t| + 1;
    ItemsTextStart(parent, items[1..]);
    FirstCharAt(s, j, rest + "]");
    assert (rest + "]")[0] == rest[0];
  }

  lemma ParseLastItem(s: string, i: nat, parent: Json, items: seq<Json>, done: seq<Json>, stop: nat)
    requires |items| == 1
    requires items[0] < parent && IsScalar(items[0])
    requires TextAt(s, i, StringifyItems(parent, items) + "]")
    requires stop == i + |StringifyItems(parent, items)| + 1
    ensures ParseElements(s, i, done) == Some((Array(done + items), stop))
  {
    var t := Stringify(items[0]);
    var end := i + |t|;
    assert StringifyItems(parent, items) == t;
    CloseLayout(s, i, t);
    ParseScalarText(s, i, items[0], end);
    ElementsLast(s, i, done, items[0], end, stop);
    assert done + [items[0]] == done + items;
  }

  lemma {:induction false} ParseItemsStep(s: string, i: nat, items: seq<Json>, done: seq<Json>, j: nat, stop: nat)
    requires |items| > 1 && i <= |s|
    requires ParseValue(s, i) == Some((items[0], j - 1))
    requires 0 < j <= |s| && s[j - 1] == ','
    requires SkipWhiteSpace(s, j) == j
    requires ParseElements(s, j, done + [items[0]]) == Some((Array(done + [items[0]] + items[1..]), stop))
    ensures ParseElements(s, i, done) == Some((Array(done + items), stop))
  {
    ElementsNext(s, i, done, items[0], j - 1, j);
    ConsFirst(done, items);
  }

  lemma ConsFirst(done: seq<Json>, items: seq<Json>)
    requires |items| > 0
    ensures done + [items[0]] + items[1..] == done + items
  {
  }

  /** The text of an array: its brackets around the text of its elements. */
  lemma ArrayLayout(items: seq<Json>)
    requires forall k | 0 <= k < |items| :: IsScalar(items[k])
    ensures forall k | 0 <= k < |items| :: items[k] < Array(items)
    ensures Stringify(Array(items)) == "[" + (StringifyItems(Array(items), items) + "]")
    ensures TextAt(Stringify(Array(items)), 1, StringifyItems(Array(items), items) + "]")
    ensures |items| > 0 ==> !IsJsonWhiteSpace(Stringify(Array(items))[1]) && Stringify(Array(items))[1] != ']'
  {
    var s := Stringify(Array(items));
    var body := StringifyItems(Array(items), items);
    assert s == "[" + (body + "]");
    forall k | 0 <= k < |body + "]"| ensures s[1 + k] == (body + "]")[k] {
    }
    if |items| > 0 {
      ItemsTextStart(Array(items), items);
      assert s[1] == body[0];
    }
  }

  /** A value that fills the whole text, which starts with no white space, is what `JSON.parse` returns. */
  lemma ParseOfValue(s: string, v: Json)
    requires 0 < |s| && !IsJsonWhiteSpace(s[0])
    requires ParseValue(s, 0) == Some((v, |s|))
    ensures Parse(s) == Some(v)
  {
    SkipAt(s, 0);
  }

  lemma ParseNonEmptyArray(items: seq<Json>)
    requires |items| > 0
    requires forall k | 0 <= k < |items| :: IsScalar(items[k])
    ensures ParseValue(Stringify(Array(items)), 0) == Some((Array(items), |Stringify(Array(items))|))
  {
    var s := Stringify(Array(items));
    ArrayLayout(items);
    SkipAt(s, 1);
    ValueArray(s, 0, 1);
    ParseItemsText(s, 1, Array(items), items, [], |s|);
    assert [] + items == items;
  }

  /** `JSON.parse(JSON.stringify(a))` is `a` for every array of scalars. */
  lemma {:induction false} ParseStringifyArray(items: seq<Json>)
    requires forall k | 0 <= k < |items| :: IsScalar(items[k])
    ensures Parse(Stringify(Array(items))) == Some(Array(items))
  {
    var s := Stringify(Array(items));
    if |items| == 0 {
      assert s == "[]";
      ValueEmptyArray(s, 0);
    } else {
      ParseNonEmptyArray(items);
      ArrayLayout(items);
    }
    ParseOfValue(s, Array(items));
  }
}
