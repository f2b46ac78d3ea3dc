/**
 * `JSON.parse` and `JSON.stringify` (ECMA-404 grammar, section 25.5 of
 * ECMA-262) over an exact-decimal number model. Parsing is a recursive
 * descent over absolute positions of the input text.
 */
module Json {
  import opened Wrappers
  import opened Numbers

  datatype Json =
    | Null
    | Boolean(b: bool)
    | Number(n: Decimal)
    | String(s: string)
    | Array(items: seq<Json>)
    | Object(members: seq<(string, Json)>)

  predicate IsJsonWhiteSpace(c: char) {
    c == ' ' || c == '\t' || c == '\n' || c == '\r'
  }

  predicate IsDigit(c: char) {
    '0' <= c <= '9'
  }

  function SkipWhiteSpace(s: string, i: nat): (j: nat)
    requires i <= |s|
    ensures i <= j <= |s|
    ensures forall k | i <= k < j :: IsJsonWhiteSpace(s[k])
    ensures j < |s| ==> !IsJsonWhiteSpace(s[j])
    decreases |s| - i
  {
    if i < |s| && IsJsonWhiteSpace(s[i]) then SkipWhiteSpace(s, i + 1) else i
  }

  function DigitsEnd(s: string, i: nat): (j: nat)
    requires i <= |s|
    ensures i <= j <= |s|
    ensures forall k | i <= k < j :: IsDigit(s[k])
    ensures j < |s| ==> !IsDigit(s[j])
    decreases |s| - i
  {
    if i < |s| && IsDigit(s[i]) then DigitsEnd(s, i + 1) else i
  }

  function DigitValue(c: char): nat
    requires IsDigit(c)
  {
    c as int - '0' as int
  }

  /** The value of the decimal digits `s[i..j]`. */
  function DigitsValue(s: string, i: nat, j: nat): nat
    requires i <= j <= |s|
    requires forall k | i <= k < j :: IsDigit(s[k])
    decreases j
  {
    if j == i then 0 else 10 * DigitsValue(s, i, j - 1) + DigitValue(s[j - 1])
  }

  /** A number: `-`? (`0` | [1-9][0-9]*) (`.` [0-9]+)? ([eE] [+-]? [0-9]+)?; a leading `0` ends the integer part. */
  function ParseNumber(s: string, i: nat): (r: Option<(Json, nat)>)
    requires i <= |s|
    ensures r.Some? ==> i < r.value.1 <= |s|
  {
    var neg := i < |s| && s[i] == '-';
    var a := if neg then i + 1 else i;
    if a >= |s| || !IsDigit(s[a]) then None
    else
      var b := if s[a] == '0' then a + 1 else DigitsEnd(s, a);
      var dot := b < |s| && s[b] == '.';
      var c := if dot then DigitsEnd(s, b + 1) else b;
      if dot && c == b + 1 then None
      else
        var hasExp := c < |s| && (s[c] == 'e' || s[c] == 'E');
        var signed := hasExp && c + 1 < |s| && (s[c + 1] == '+' || s[c + 1] == '-');
        var d0 := if signed then c + 2 else if hasExp then c + 1 else c;
        var d := if hasExp then DigitsEnd(s, d0) else c;
        if hasExp && d == d0 then None
        else
          var fracDigits := if dot then c - (b + 1) else 0;
          var e: int := DigitsValue(s, d0, d);
          var exponent: int := if signed && s[c + 1] == '-' then -e else e;
          var m: int := DigitsValue(s, a, b) * Pow10(fracDigits) + (if dot then DigitsValue(s, b + 1, c) else 0);
          Some((Number(Normalize(Decimal(if neg then -m else m, exponent - fracDigits))), d))
  }

  function HexValue(c: char): Option<nat> {
    if '0' <= c <= '9' then Some(c as int - '0' as int)
    else if 'a' <= c <= 'f' then Some(c as int - 'a' as int + 10)
    else if 'A' <= c <= 'F' then Some(c as int - 'A' as int + 10)
    else None
  }

  /** Four hexadecimal digits at `i`. */
  function Hex4(s: string, i: nat): (r: Option<nat>)
    requires i + 4 <= |s|
    ensures r.Some? ==> r.value < 0x10000
  {
    match (HexValue(s[i]), HexValue(s[i + 1]), HexValue(s[i + 2]), HexValue(s[i + 3]))
    case (Some(h0), Some(h1), Some(h2), Some(h3)) =>
      if h0 < 16 && h1 < 16 && h2 < 16 && h3 < 16 then Some(((h0 * 16 + h1) * 16 + h2) * 16 + h3) else None
    case _ => None
  }

  /**
   * The escape sequence at `i` (where `s[i]` is a backslash) and the position after it.
   */
  function ParseEscape(s: string, i: nat): (r: Option<(char, nat)>)
    requires i < |s|
    ensures r.Some? ==> i < r.value.1 <= |s|
  {
    if i + 1 >= |s| then None
    else
      var e := s[i + 1];
      if e == '"' || e == '\\' || e == '/' then Some((e, i + 2))
      else if e == 'b' then Some(('\U{0008}', i + 2))
      else if e == 'f' then Some(('\U{000C}', i + 2))
      else if e == 'n' then Some(('\n', i + 2))
      else if e == 'r' then Some(('\r', i + 2))
      else if e == 't' then Some(('\t', i + 2))
      else if e == 'u' then ParseUnicodeEscape(s, i)
      else None
  }

  /**
   * A `\uXXXX` escape at `i`. A high surrogate must be followed by a `\u` low
   * surrogate, and the pair stands for one character; lone surrogates are not
   * representable as characters here and are refused.
   */
  function ParseUnicodeEscape(s: string, i: nat): (r: Option<(char, nat)>)
    requires i < |s|
    ensures r.Some? ==> i < r.value.1 <= |s|
  {
    if i + 6 > |s| then None
    else match Hex4(s, i + 2)
      case None => None
      case Some(u) =>
        if 0xD800 <= u < 0xDC00 then
          if i + 12 <= |s| && s[i + 6] == '\\' && s[i + 7] == 'u' then
            match Hex4(s, i + 8)
            case Some(l) =>
              if 0xDC00 <= l < 0xE000 then Some(((0x10000 + (u - 0xD800) * 0x400 + (l - 0xDC00)) as char, i + 12))
              else None
            case None => None
          else None
        else if 0xDC00 <= u < 0xE000 then None
        else Some((u as char, i + 6))
  }

  /** The characters of a string literal from `i` (after the opening quote) and the position after its closing quote. */
  function ParseStringBody(s: string, i: nat): (r: Option<(string, nat)>)
    requires i <= |s|
    ensures r.Some? ==> i < r.value.1 <= |s|
    decreases |s| - i
  {
    if i == |s| then None
    else if s[i] == '"' then Some(("", i + 1))
    else if s[i] == '\\' then
      match ParseEscape(s, i)
      case None => None
      case Some((c, j)) =>
        match ParseStringBody(s, j)
        case None => None
        case Some((t, k)) => Some(([c] + t, k))
    else if s[i] < ' ' then None
    else
      match ParseStringBody(s, i + 1)
      case None => None
      case Some((t, k)) => Some(([s[i]] + t, k))
  }

  predicate Keyword(s: string, i: nat, w: string) {
    i + |w| <= |s| && s[i..i + |w|] == w
  }

  /** One JSON value starting exactly at `i`, and the position after it. */
  function ParseValue(s: string, i: nat): (r: Option<(Json, nat)>)
    requires i <= |s|
    ensures r.Some? ==> i < r.value.1 <= |s|
    decreases |s| - i, 0
  {
    if i == |s| then None
    else if s[i] == 'n' then (if Keyword(s, i, "null") then Some((Null, i + 4)) else None)
    else if s[i] == 't' then (if Keyword(s, i, "true") then Some((Boolean(true), i + 4)) else None)
    else if s[i] == 'f' then (if Keyword(s, i, "false") then Some((Boolean(false), i + 5)) else None)
    else if s[i] == '"' then
      match ParseStringBody(s, i + 1)
      case None => None
      case Some((t, k)) => Some((String(t), k))
    else if s[i] == '[' then
      var j := SkipWhiteSpace(s, i + 1);
      if j < |s| && s[j] == ']' then Some((Array([]), j + 1)) else ParseElements(s, j, [])
    else if s[i] == '{' then
      var j := SkipWhiteSpace(s, i + 1);
      if j < |s| && s[j] == '}' then Some((Object([]), j + 1)) else ParseMembers(s, j, [])
    else if s[i] == '-' || IsDigit(s[i]) then ParseNumber(s, i)
    else None
  }

  /** The elements of an array from `i` (just after `[` or `,` and white space), with `done` already parsed. */
  function ParseElements(s: string, i: nat, done: seq<Json>): (r: Option<(Json, nat)>)
    requires i <= |s|
    ensures r.Some? ==> i < r.value.1 <= |s|
    decreases |s| - i, 1
  {
    match ParseValue(s, i)
    case None => None
    case Some((v, k)) =>
      var j := SkipWhiteSpace(s, k);
      if j < |s| && s[j] == ',' then ParseElements(s, SkipWhiteSpace(s, j + 1), done + [v])
      else if j < |s| && s[j] == ']' then Some((Array(done + [v]), j + 1))
      else None
  }

  /** The members of an object from `i` (just after `{` or `,` and white space), with `done` already parsed. */
  function ParseMembers(s: string, i: nat, done: seq<(string, Json)>): (r: Option<(Json, nat)>)
    requires i <= |s|
    ensures r.Some? ==> i < r.value.1 <= |s|
    decreases |s| - i, 1
  {
    if i == |s| || s[i] != '"' then None
    else match ParseStringBody(s, i + 1)
      case None => None
      case Some((key, k)) =>
        var c := SkipWhiteSpace(s, k);
        if c == |s| || s[c] != ':' then None
        else match ParseValue(s, SkipWhiteSpace(s, c + 1))
          case None => None
          case Some((v, m)) =>
            var j := SkipWhiteSpace(s, m);
            if j < |s| && s[j] == ',' then ParseMembers(s, SkipWhiteSpace(s, j + 1), done + [(key, v)])
            else if j < |s| && s[j] == '}' then Some((Object(done + [(key, v)]), j + 1))
            else None
  }

  /** `JSON.parse(text)`: one value surrounded by white space, or a SyntaxError (None). */
  function Parse(text: string): Option<Json> {
    match ParseValue(text, SkipWhiteSpace(text, 0))
    case None => None
    case Some((v, k)) => if SkipWhiteSpace(text, k) == |text| then Some(v) else None
  }

  function HexDigit(n: nat): (c: char)
    requires n < 16
  {
    "0123456789abcdef"[n]
  }

  /** How `JSON.stringify` writes one character inside a string literal. */
  function EscapeChar(c: char): string {
    if c == '"' then "\\\""
    else if c == '\\' then "\\\\"
    else if c == '\U{0008}' then "\\b"
    else if c == '\U{000C}' then "\\f"
    else if c == '\n' then "\\n"
    else if c == '\r' then "\\r"
    else if c == '\t' then "\\t"
    else if c < ' ' then "\\u00" + [HexDigit(c as int / 16), HexDigit(c as int % 16)]
    else [c]
  }

  function EscapeString(s: string): string {
    if |s| == 0 then "" else EscapeChar(s[0]) + EscapeString(s[1..])
  }

  function Quote(s: string): string {
    "\"" + EscapeString(s) + "\""
  }

  /** `JSON.stringify(v)`. */
  function Stringify(v: Json): string
    decreases v, 1
  {
    match v
    case Null => "null"
    case Boolean(b) => if b then "true" else "false"
    case Number(n) => NumberToString(n)
    case String(s) => Quote(s)
    case Array(items) => "[" + StringifyItems(v, items) + "]"
    case Object(members) => "{" + StringifyMembers(v, members) + "}"
  }

  function StringifyItems(parent: Json, items: seq<Json>): string
    requires forall k | 0 <= k < |items| :: items[k] < parent
    decreases parent, 0, |items|
  {
    if |items| == 0 then ""
    else if |items| == 1 then Stringify(items[0])
    else Stringify(items[0]) + "," + StringifyItems(parent, items[1..])
  }

  function StringifyMembers(parent: Json, members: seq<(string, Json)>): string
    requires forall k | 0 <= k < |members| :: members[k].1 < parent
    decreases parent, 0, |members|
  {
    if |members| == 0 then ""
    else
      var m := Quote(members[0].0) + ":" + Stringify(members[0].1);
      if |members| == 1 then m else m + "," + StringifyMembers(parent, members[1..])
  }
}
