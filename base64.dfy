/**
 * The browser's `btoa` and `atob` (the HTML standard's "forgiving-base64"
 * encode and decode). Strings passed to and returned by them are binary
 * strings: every character is below U+0100 and stands for one byte.
 */
module Base64 {
  import opened Wrappers
  import opened Js

  predicate IsByte(n: int) {
    0 <= n < 256
  }

  predicate IsSextet(n: int) {
    0 <= n < 64
  }

  predicate IsBinaryString(s: string) {
    forall i | 0 <= i < |s| :: (s[i] as int) < 256
  }

  function Symbol(v: nat): (c: char)
    requires v < 64
    ensures IsAlphabet(c) && SymbolValue(c) == v
  {
    if v < 26 then ('A' as int + v) as char
    else if v < 52 then ('a' as int + v - 26) as char
    else if v < 62 then ('0' as int + v - 52) as char
    else if v == 62 then '+'
    else '/'
  }

  predicate IsAlphabet(c: char) {
    'A' <= c <= 'Z' || 'a' <= c <= 'z' || '0' <= c <= '9' || c == '+' || c == '/'
  }

  function SymbolValue(c: char): (v: nat)
    requires IsAlphabet(c)
    ensures v < 64
  {
    if 'A' <= c <= 'Z' then c as int - 'A' as int
    else if 'a' <= c <= 'z' then c as int - 'a' as int + 26
    else if '0' <= c <= '9' then c as int - '0' as int + 52
    else if c == '+' then 62
    else 63
  }

  /** ASCII white space as the forgiving-base64 decoder strips it. */
  predicate IsAsciiWhiteSpace(c: char) {
    c == '\t' || c == '\n' || c == '\U{000C}' || c == '\r' || c == ' '
  }

  lemma SextetBounds(b0: nat, b1: nat, b2: nat)
    requires IsByte(b0) && IsByte(b1) && IsByte(b2)
    ensures IsSextet(b0 / 4) && IsSextet((b0 % 4) * 16 + b1 / 16) && IsSextet((b1 % 16) * 4 + b2 / 64) && IsSextet(b2 % 64)
  {
    assert b0 % 4 <= 3 && b1 / 16 <= 15 && b1 % 16 <= 15 && b2 / 64 <= 3;
  }

  lemma ByteBounds(v0: nat, v1: nat, v2: nat, v3: nat)
    requires IsSextet(v0) && IsSextet(v1) && IsSextet(v2) && IsSextet(v3)
    ensures IsByte(v0 * 4 + v1 / 16) && IsByte((v1 % 16) * 16 + v2 / 4) && IsByte((v2 % 4) * 64 + v3)
  {
    assert v1 / 16 <= 3 && v1 % 16 <= 15 && v2 / 4 <= 15 && v2 % 4 <= 3;
  }

  /** Six-bit groups of a byte sequence, three bytes to four groups, short tails to two or three groups. */
  function EncodeSextets(b: seq<nat>): (r: seq<nat>)
    requires forall i | 0 <= i < |b| :: IsByte(b[i])
    ensures forall i | 0 <= i < |r| :: IsSextet(r[i])
    ensures |r| == 4 * (|b| / 3) + (if |b| % 3 == 0 then 0 else |b| % 3 + 1)
    ensures |r| % 4 != 1
  {
    if |b| == 0 then []
    else if |b| == 1 then SextetBounds(b[0], 0, 0); [b[0] / 4, (b[0] % 4) * 16]
    else if |b| == 2 then SextetBounds(b[0], b[1], 0); [b[0] / 4, (b[0] % 4) * 16 + b[1] / 16, (b[1] % 16) * 4]
    else SextetBounds(b[0], b[1], b[2]); [b[0] / 4, (b[0] % 4) * 16 + b[1] / 16, (b[1] % 16) * 4 + b[2] / 64, b[2] % 64] + EncodeSextets(b[3..])
  }

  /** Bytes of six-bit groups, four groups to three bytes; the low bits of a short tail are dropped. */
  function DecodeSextets(v: seq<nat>): (r: seq<nat>)
    requires forall i | 0 <= i < |v| :: IsSextet(v[i])
    requires |v| % 4 != 1
    ensures forall i | 0 <= i < |r| :: IsByte(r[i])
    ensures |r| == 3 * (|v| / 4) + (if |v| % 4 == 0 then 0 else |v| % 4 - 1)
  {
    if |v| == 0 then []
    else if |v| == 2 then ByteBounds(v[0], v[1], 0, 0); [v[0] * 4 + v[1] / 16]
    else if |v| == 3 then ByteBounds(v[0], v[1], v[2], 0); [v[0] * 4 + v[1] / 16, (v[1] % 16) * 16 + v[2] / 4]
    else ByteBounds(v[0], v[1], v[2], v[3]); [v[0] * 4 + v[1] / 16, (v[1] % 16) * 16 + v[2] / 4, (v[2] % 4) * 64 + v[3]] + DecodeSextets(v[4..])
  }

  function Symbols(v: seq<nat>): (s: string)
    requires forall i | 0 <= i < |v| :: IsSextet(v[i])
    ensures |s| == |v|
    ensures forall i | 0 <= i < |s| :: IsAlphabet(s[i]) && SymbolValue(s[i]) == v[i]
  {
    if |v| == 0 then "" else assert IsSextet(v[0]); [Symbol(v[0])] + Symbols(v[1..])
  }

  function Values(s: string): (v: seq<nat>)
    requires forall i | 0 <= i < |s| :: IsAlphabet(s[i])
    ensures |v| == |s|
    ensures forall i | 0 <= i < |v| :: IsSextet(v[i]) && v[i] == SymbolValue(s[i])
  {
    if |s| == 0 then [] else [SymbolValue(s[0])] + Values(s[1..])
  }

  function Codes(s: string): (b: seq<nat>)
    requires IsBinaryString(s)
    ensures |b| == |s|
    ensures forall i | 0 <= i < |b| :: IsByte(b[i]) && b[i] == s[i] as int
  {
    if |s| == 0 then [] else [s[0] as int] + Codes(s[1..])
  }

  function FromCodes(b: seq<nat>): (s: string)
    requires forall i | 0 <= i < |b| :: IsByte(b[i])
    ensures IsBinaryString(s)
    ensures |s| == |b|
    ensures forall i | 0 <= i < |s| :: s[i] as int == b[i]
  {
    if |b| == 0 then "" else assert IsByte(b[0]); [b[0] as char] + FromCodes(b[1..])
  }

  function Padding(n: nat): string {
    if n % 3 == 1 then "==" else if n % 3 == 2 then "=" else ""
  }

  /** `btoa(s)`: throws InvalidCharacterError for a character above U+00FF; otherwise padded base64. */
  function Btoa(s: string): (r: Result<string, Exception>)
    ensures r.Err? <==> !IsBinaryString(s)
    ensures r.Err? ==> r.error == InvalidCharacterError
  {
    if !IsBinaryString(s) then Err(InvalidCharacterError)
    else Ok(Symbols(EncodeSextets(Codes(s))) + Padding(|s|))
  }

  function RemoveAsciiWhiteSpace(s: string): (r: string)
    ensures forall i | 0 <= i < |r| :: !IsAsciiWhiteSpace(r[i])
    ensures (forall i | 0 <= i < |s| :: !IsAsciiWhiteSpace(s[i])) ==> r == s
  {
    if |s| == 0 then ""
    else if IsAsciiWhiteSpace(s[0]) then RemoveAsciiWhiteSpace(s[1..])
    else [s[0]] + RemoveAsciiWhiteSpace(s[1..])
  }

  /** When the length is a multiple of four, one or two trailing "=" are dropped. */
  function StripPadding(d: string): string {
    if |d| % 4 == 0 && |d| >= 2 && d[|d| - 1] == '=' && d[|d| - 2] == '=' then d[..|d| - 2]
    else if |d| % 4 == 0 && |d| >= 1 && d[|d| - 1] == '=' then d[..|d| - 1]
    else d
  }

  /** `atob(s)`: the forgiving-base64 decode; any failure throws InvalidCharacterError. */
  function Atob(s: string): (r: Result<string, Exception>)
    ensures r.Err? ==> r.error == InvalidCharacterError
    ensures r.Ok? ==> IsBinaryString(r.value)
  {
    var d := StripPadding(RemoveAsciiWhiteSpace(s));
    if |d| % 4 == 1 then Err(InvalidCharacterError)
    else if exists i | 0 <= i < |d| :: !IsAlphabet(d[i]) then Err(InvalidCharacterError)
    else Ok(FromCodes(DecodeSextets(Values(d))))
  }

  lemma DecodeThree(b0: nat, b1: nat, b2: nat)
    requires IsByte(b0) && IsByte(b1) && IsByte(b2)
    ensures var s0, s1, s2, s3 := b0 / 4, (b0 % 4) * 16 + b1 / 16, (b1 % 16) * 4 + b2 / 64, b2 % 64;
      s0 * 4 + s1 / 16 == b0 && (s1 % 16) * 16 + s2 / 4 == b1 && (s2 % 4) * 64 + s3 == b2
  {
    var s1, s2 := (b0 % 4) * 16 + b1 / 16, (b1 % 16) * 4 + b2 / 64;
    assert s1 / 16 == b0 % 4 && s1 % 16 == b1 / 16;
    assert s2 / 4 == b1 % 16 && s2 % 4 == b2 / 64;
  }

  lemma DecodeTwo(b0: nat, b1: nat)
    requires IsByte(b0) && IsByte(b1)
    ensures var s0, s1, s2 := b0 / 4, (b0 % 4) * 16 + b1 / 16, (b1 % 16) * 4;
      s0 * 4 + s1 / 16 == b0 && (s1 % 16) * 16 + s2 / 4 == b1
  {
    var s1, s2 := (b0 % 4) * 16 + b1 / 16, (b1 % 16) * 4;
    assert s1 / 16 == b0 % 4 && s1 % 16 == b1 / 16;
    assert s2 / 4 == b1 % 16;
  }

  /** Decoding the six-bit groups of a byte sequence gives the bytes back. */
  lemma {:induction false} DecodeEncodeSextets(b: seq<nat>)
    requires forall i | 0 <= i < |b| :: IsByte(b[i])
    ensures DecodeSextets(EncodeSextets(b)) == b
  {
    if |b| == 1 {
      DecodeEncodeOne(b);
    } else if |b| == 2 {
      DecodeEncodeTwo(b);
    } else if |b| >= 3 {
      DecodeEncodeSextets(b[3..]);
      DecodeEncodeStep(b);
    }
  }

  lemma {:induction false} DecodeEncodeOne(b: seq<nat>)
    requires |b| == 1 && IsByte(b[0])
    ensures DecodeSextets(EncodeSextets(b)) == b
  {
    var v := EncodeSextets(b);
    var r := b[0] % 4;
    assert v == [b[0] / 4, r * 16];
    assert r * 16 / 16 == r;
    assert DecodeSextets(v) == [v[0] * 4 + v[1] / 16];
    assert v[0] * 4 + v[1] / 16 == b[0];
  }

  lemma {:induction false} DecodeEncodeTwo(b: seq<nat>)
    requires |b| == 2 && IsByte(b[0]) && IsByte(b[1])
    ensures DecodeSextets(EncodeSextets(b)) == b
  {
    var v := EncodeSextets(b);
    var s0, s1, s2 := b[0] / 4, (b[0] % 4) * 16 + b[1] / 16, (b[1] % 16) * 4;
    assert v == [s0, s1, s2];
    DecodeTwo(b[0], b[1]);
    assert DecodeSextets(v) == [v[0] * 4 + v[1] / 16, (v[1] % 16) * 16 + v[2] / 4];
    assert v[0] == s0 && v[1] == s1 && v[2] == s2;
    assert b == [b[0], b[1]];
  }

  lemma {:induction false} DecodeEncodeStep(b: seq<nat>)
    requires |b| >= 3
    requires forall i | 0 <= i < |b| :: IsByte(b[i])
    requires DecodeSextets(EncodeSextets(b[3..])) == b[3..]
    ensures DecodeSextets(EncodeSextets(b)) == b
  {
    var v := EncodeSextets(b);
    var w := EncodeSextets(b[3..]);
    var s0, s1, s2, s3 := b[0] / 4, (b[0] % 4) * 16 + b[1] / 16, (b[1] % 16) * 4 + b[2] / 64, b[2] % 64;
    assert v == [s0, s1, s2, s3] + w;
    DecodeThree(b[0], b[1], b[2]);
    assert v[4..] == w;
    assert v[0] == s0 && v[1] == s1 && v[2] == s2 && v[3] == s3;
    DecodeStep(v);
    assert b == [b[0], b[1], b[2]] + b[3..];
  }

  lemma DecodeStep(v: seq<nat>)
    requires |v| >= 4 && |v| % 4 != 1
    requires forall i | 0 <= i < |v| :: IsSextet(v[i])
    ensures DecodeSextets(v) == [v[0] * 4 + v[1] / 16, (v[1] % 16) * 16 + v[2] / 4, (v[2] % 4) * 64 + v[3]] + DecodeSextets(v[4..])
  {
  }

  lemma {:induction false} ValuesOfSymbols(v: seq<nat>)
    requires forall i | 0 <= i < |v| :: IsSextet(v[i])
    ensures Values(Symbols(v)) == v
  {
  }

  lemma {:induction false} FromCodesOfCodes(s: string)
    requires IsBinaryString(s)
    ensures FromCodes(Codes(s)) == s
  {
    var t := FromCodes(Codes(s));
    assert |t| == |s|;
    forall i | 0 <= i < |s| ensures t[i] == s[i] {
      assert t[i] as int == s[i] as int;
    }
  }

  lemma PaddedLength(n: nat)
    ensures (4 * (n / 3) + (if n % 3 == 0 then 0 else n % 3 + 1) + |Padding(n)|) % 4 == 0
  {
  }

  lemma {:induction false} EncodedLength(s: string)
    requires IsBinaryString(s)
    ensures (|Symbols(EncodeSextets(Codes(s)))| + |Padding(|s|)|) % 4 == 0
  {
    var n := |s|;
    assert |Codes(s)| == n;
    assert |EncodeSextets(Codes(s))| == 4 * (n / 3) + (if n % 3 == 0 then 0 else n % 3 + 1);
    PaddedLength(n);
  }

  lemma {:induction false} NoWhiteSpace(body: string, pad: string)
    requires forall i | 0 <= i < |body| :: IsAlphabet(body[i])
    requires forall i | 0 <= i < |pad| :: pad[i] == '='
    ensures RemoveAsciiWhiteSpace(body + pad) == body + pad
  {
    var e := body + pad;
    forall i | 0 <= i < |e| ensures !IsAsciiWhiteSpace(e[i]) {
      if i < |body| {
        assert IsAlphabet(body[i]);
      } else {
        assert e[i] == pad[i - |body|];
      }
    }
  }

  lemma {:induction false} PaddingStripped(body: string, n: nat)
    requires forall i | 0 <= i < |body| :: IsAlphabet(body[i])
    requires (|body| + |Padding(n)|) % 4 == 0
    requires |body| == 0 ==> n % 3 == 0
    ensures StripPadding(body + Padding(n)) == body
  {
    var e := body + Padding(n);
    if n % 3 == 0 {
      assert e == body;
      if |body| > 0 {
        assert IsAlphabet(body[|body| - 1]);
      }
    } else if n % 3 == 1 {
      assert e[..|e| - 2] == body;
    } else {
      assert IsAlphabet(body[|body| - 1]);
      assert e[..|e| - 1] == body;
    }
  }

  lemma AtobOfSymbols(x: string, d: string)
    requires StripPadding(RemoveAsciiWhiteSpace(x)) == d
    requires |d| % 4 != 1
    requires forall i | 0 <= i < |d| :: IsAlphabet(d[i])
    ensures Atob(x) == Ok(FromCodes(DecodeSextets(Values(d))))
  {
  }

  lemma {:induction false} DecodeOfEncode(s: string)
    requires IsBinaryString(s)
    ensures FromCodes(DecodeSextets(Values(Symbols(EncodeSextets(Codes(s)))))) == s
  {
    ValuesOfSymbols(EncodeSextets(Codes(s)));
    DecodeEncodeSextets(Codes(s));
    FromCodesOfCodes(s);
  }

  lemma {:induction false} AtobOfPadded(body: string, n: nat)
    requires forall i | 0 <= i < |body| :: IsAlphabet(body[i])
    requires (|body| + |Padding(n)|) % 4 == 0
    requires |body| == 0 ==> n % 3 == 0
    ensures |body| % 4 != 1
    ensures Atob(body + Padding(n)) == Ok(FromCodes(DecodeSextets(Values(body))))
  {
    var pad := Padding(n);
    NoWhiteSpace(body, pad);
    PaddingStripped(body, n);
    assert |pad| <= 2;
    AtobOfSymbols(body + pad, body);
  }

  lemma {:induction false} AtobOfEncoded(s: string)
    requires IsBinaryString(s)
    ensures Btoa(s).Ok?
    ensures Atob(Btoa(s).value) == Ok(FromCodes(DecodeSextets(Values(Symbols(EncodeSextets(Codes(s)))))))
  {
    var body := Symbols(EncodeSextets(Codes(s)));
    assert Btoa(s) == Ok(body + Padding(|s|));
    EncodedLength(s);
    AtobOfPadded(body, |s|);
  }

  /** `atob(btoa(s)) == s` for every binary string. */
  lemma {:induction false} AtobBtoa(s: string)
    requires IsBinaryString(s)
    ensures Btoa(s).Ok? && Atob(Btoa(s).value) == Ok(s)
  {
    AtobOfEncoded(s);
    DecodeOfEncode(s);
  }
}
