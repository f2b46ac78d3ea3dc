/**
 * Exact decimal numbers and the JavaScript rule that turns a number into its
 * shortest decimal text (Number::toString, section 6.1.6.1.20 of ECMA-262).
 * A value is `mantissa * 10^exponent`; IEEE-754 rounding is not modelled.
 */
module Numbers {

  datatype Decimal = Decimal(mantissa: int, exponent: int)

  function Pow10(k: nat): (r: nat)
    ensures r >= 1
  {
    if k == 0 then 1 else 10 * Pow10(k - 1)
  }

  /** The canonical form: no trailing zero digit in the mantissa, and zero is (0, 0). */
  predicate IsCanonical(d: Decimal) {
    if d.mantissa == 0 then d.exponent == 0 else d.mantissa % 10 != 0
  }

  /** Strips trailing zeros of the mantissa into the exponent; the value is kept. */
  function Normalize(d: Decimal): (r: Decimal)
    ensures IsCanonical(r)
    ensures d.mantissa == 0 <==> r.mantissa == 0
    ensures d.mantissa > 0 <==> r.mantissa > 0
    ensures d.mantissa != 0 ==> r.exponent >= d.exponent
    ensures d.mantissa != 0 ==> d.mantissa == r.mantissa * Pow10(r.exponent - d.exponent)
    decreases if d.mantissa < 0 then -d.mantissa else d.mantissa
  {
    if d.mantissa == 0 then Decimal(0, 0)
    else if d.mantissa % 10 == 0 then
      var r := Normalize(Decimal(d.mantissa / 10, d.exponent + 1));
      ShiftTen(d.mantissa, r.mantissa, r.exponent - d.exponent - 1);
      r
    else d
  }

  lemma Pow10Succ(k: nat)
    ensures Pow10(k + 1) == 10 * Pow10(k)
  {
  }

  lemma ShiftTen(m: int, a: int, k: nat)
    requires m % 10 == 0 && m / 10 == a * Pow10(k)
    ensures m == a * Pow10(k + 1)
  {
    Pow10Succ(k);
    assert m == 10 * (m / 10);
    assert 10 * (a * Pow10(k)) == a * (10 * Pow10(k));
  }

  /** The integer `n` as a number value. */
  function FromInt(n: int): Decimal {
    Normalize(Decimal(n, 0))
  }

  function DigitChar(d: nat): (c: char)
    requires d < 10
    ensures '0' <= c <= '9'
  {
    "0123456789"[d]
  }

  /** Decimal digits of `n` without leading zeros. */
  function NatToString(n: nat): (s: string)
    ensures |s| >= 1
    ensures forall i | 0 <= i < |s| :: '0' <= s[i] <= '9'
  {
    if n < 10 then [DigitChar(n)] else NatToString(n / 10) + [DigitChar(n % 10)]
  }

  function IntToString(n: int): string {
    if n < 0 then "-" + NatToString(-n) else NatToString(n)
  }

  function Zeros(k: nat): (s: string)
    ensures |s| == k
    ensures forall i | 0 <= i < k :: s[i] == '0'
  {
    if k == 0 then "" else Zeros(k - 1) + "0"
  }

  /** JavaScript's String(x) for a number: the digits of a canonical mantissa placed by the decimal exponent. */
  function NumberToString(d: Decimal): string {
    var c := Normalize(d);
    if c.mantissa == 0 then "0"
    else if c.mantissa < 0 then "-" + PositiveToString(-c.mantissa, c.exponent)
    else PositiveToString(c.mantissa, c.exponent)
  }

  /**
   * The digits s of k characters with decimal point position n = k + e:
   * integers up to 21 digits are written out, small fractions get "0.000…",
   * everything else uses exponent notation.
   */
  function PositiveToString(m: nat, e: int): string
    requires m > 0
  {
    var s := NatToString(m);
    var k := |s|;
    var n := k + e;
    if k <= n <= 21 then s + Zeros(n - k)
    else if 0 < n <= 21 then s[..n] + "." + s[n..]
    else if -6 < n <= 0 then "0." + Zeros(-n) + s
    else
      var sign := if n - 1 < 0 then "-" else "+";
      var x := if n - 1 < 0 then 1 - n else n - 1;
      var mant := if k == 1 then s else s[..1] + "." + s[1..];
      mant + "e" + sign + NatToString(x)
  }

  function ToReal(d: Decimal): real {
    if d.exponent >= 0 then (d.mantissa * Pow10(d.exponent)) as real
    else d.mantissa as real / Pow10(-d.exponent) as real
  }

  /** Appending a zero digit multiplies by ten. */
  lemma NatToStringTimesTen(x: nat)
    requires x > 0
    ensures NatToString(x * 10) == NatToString(x) + "0"
  {
    assert (x * 10) / 10 == x && (x * 10) % 10 == 0;
  }

  lemma {:induction false} NatToStringShift(m: nat, z: nat)
    requires m > 0
    ensures NatToString(m * Pow10(z)) == NatToString(m) + Zeros(z)
  {
    if z > 0 {
      var p := Pow10(z - 1);
      var x := m * p;
      MulPositive(m, p);
      TimesTenAssoc(m, p);
      NatToStringShift(m, z - 1);
      NatToStringTimesTen(x);
    }
  }

  lemma TimesTenAssoc(m: nat, p: nat)
    ensures m * (10 * p) == (m * p) * 10
  {
  }

  lemma MulPositive(a: nat, b: nat)
    requires a > 0 && b > 0
    ensures a * b > 0
  {
  }

  /** `n` has exactly as many digits as its text says: 10^(len-1) <= n < 10^len. */
  lemma {:induction false} NatToStringLength(n: nat)
    ensures n < Pow10(|NatToString(n)|)
    ensures n >= 10 ==> n >= Pow10(|NatToString(n)| - 1)
  {
    if n >= 10 {
      NatToStringLength(n / 10);
      var k := |NatToString(n / 10)|;
      assert |NatToString(n)| == k + 1;
      if n / 10 >= 10 {
        assert n / 10 >= Pow10(k - 1);
      } else {
        assert k == 1;
      }
    }
  }

  lemma Pow10Monotone(a: nat, b: nat)
    requires a <= b
    ensures Pow10(a) <= Pow10(b)
    decreases b - a
  {
    if a < b {
      Pow10Monotone(a + 1, b);
    }
  }

  lemma {:induction false} PositiveIntegerToString(n: nat)
    requires 0 < n < Pow10(21)
    ensures PositiveToString(Normalize(Decimal(n, 0)).mantissa, Normalize(Decimal(n, 0)).exponent) == NatToString(n)
  {
    var c := Normalize(Decimal(n, 0));
    var m: nat, z: nat := c.mantissa, c.exponent;
    assert n == m * Pow10(z);
    NatToStringShift(m, z);
    var s := NatToString(m);
    assert NatToString(n) == s + Zeros(z);
    NatToStringLength(n);
    if |NatToString(n)| > 21 {
      Pow10Monotone(21, |NatToString(n)| - 1);
      assert false;
    }
  }

  /** For every integer below 10^21 in magnitude, JavaScript prints exactly its decimal digits. */
  lemma {:induction false} IntegerToString(n: int)
    requires -(Pow10(21) as int) < n < Pow10(21)
    ensures NumberToString(FromInt(n)) == IntToString(n)
  {
    if n > 0 {
      PositiveIntegerToString(n);
    } else if n < 0 {
      NegativeIntegerToString(n);
    }
  }

  lemma NegativeIntegerToString(n: int)
    requires -(Pow10(21) as int) < n < 0
    ensures NumberToString(FromInt(n)) == "-" + NatToString(-n)
  {
    var m: nat := -n;
    PositiveIntegerToString(m);
    var p := Normalize(Decimal(m, 0));
    NormalizeNegate(m);
    var q := Decimal(-(p.mantissa as int), p.exponent);
    assert FromInt(n) == q;
    NegateTenths(p.mantissa);
    NormalizeCanonical(q);
    assert NumberToString(q) == "-" + PositiveToString(p.mantissa, p.exponent);
  }

  lemma NormalizeCanonical(d: Decimal)
    requires IsCanonical(d)
    ensures Normalize(d) == d
  {
  }

  lemma {:induction false} NormalizeNegate(n: int)
    ensures Normalize(Decimal(-n, 0)) == Decimal(-Normalize(Decimal(n, 0)).mantissa, Normalize(Decimal(n, 0)).exponent)
  {
    NormalizeNegateAt(n, 0);
  }

  lemma {:induction false} NormalizeNegateAt(n: int, e: int)
    ensures Normalize(Decimal(-n, e)) == Decimal(-Normalize(Decimal(n, e)).mantissa, Normalize(Decimal(n, e)).exponent)
    decreases if n < 0 then -n else n
  {
    NegateTenths(n);
    if n != 0 && n % 10 == 0 {
      NormalizeNegateAt(n / 10, e + 1);
    }
  }

  /** Negation commutes with dropping a zero last digit, and keeps a nonzero last digit nonzero. */
  lemma NegateTenths(n: int)
    ensures n % 10 == 0 ==> (-n) % 10 == 0 && (-n) / 10 == -(n / 10)
    ensures n % 10 != 0 ==> (-n) % 10 != 0
  {
    var q, r := n / 10, n % 10;
    assert n == 10 * q + r;
    if r == 0 {
      assert -n == 10 * (-q);
    } else {
      assert -n == 10 * (-q - 1) + (10 - r);
    }
  }
}
