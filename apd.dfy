/**
 * The part of the arbitrary-precision decimal engine (cockroachdb/apd) that
 * decimal.go relies on, specified abstractly: the big integer used as a
 * coefficient, the decimal record, its real value, `Modf`, `IsZero` and `Cmp`.
 */
module Apd {
  import opened GoInt

  /** apd's Form: a finite number, an infinity or not-a-number. */
  datatype Form = Finite | Infinite | NaN

  /**
   * The value held by an apd.Decimal: the number it denotes is
   * (-1 if negative) * coeff * 10^exponent when form is Finite.
   */
  datatype DecimalValue = DecimalValue(negative: bool, coeff: nat, exponent: int32, form: Form)

  function Pow2(n: nat): (p: nat)
    ensures p >= 1
  {
    if n == 0 then 1 else 2 * Pow2(n - 1)
  }

  function Pow10(n: nat): (p: nat)
    ensures p >= 1
  {
    if n == 0 then 1 else 10 * Pow10(n - 1)
  }

  lemma {:induction false} Pow10Add(a: nat, b: nat)
    ensures Pow10(a + b) == Pow10(a) * Pow10(b)
  {
    if a > 0 {
      Pow10Add(a - 1, b);
      assert Pow10(a + b) == 10 * (Pow10(a - 1) * Pow10(b));
    }
  }

  /**
   * The integer d * 10^-e, for an e at most d's exponent: every finite
   * decimal names the number Scaled(d, e) / 10^-e, whichever such e is used.
   */
  function Scaled(d: DecimalValue, e: int): int
    requires e <= d.exponent
  {
    var m := d.coeff * Pow10(d.exponent - e);
    if d.negative then -m else m
  }

  /** Scaling to a smaller exponent multiplies by the corresponding power of ten. */
  lemma {:induction false} ScaledShift(d: DecimalValue, e: int, k: nat)
    requires e <= d.exponent
    ensures Scaled(d, e - k) == Scaled(d, e) * Pow10(k)
  {
    var n := d.exponent - e;
    Pow10Add(n, k);
    assert d.exponent - (e - k) == n + k;
    MulAssoc(d.coeff, Pow10(n), Pow10(k));
  }

  lemma {:induction false} MulAssoc(x: int, y: int, z: int)
    ensures x * (y * z) == (x * y) * z
  {
  }

  /** Multiplying two integers by the same positive factor keeps their order. */
  lemma {:induction false} MulOrder(x: int, y: int, p: int)
    requires p > 0
    ensures x < y <==> x * p < y * p
    ensures x == y <==> x * p == y * p
  {
    if x < y {
      assert y * p - x * p == (y - x) * p;
    } else if y < x {
      assert x * p - y * p == (x - y) * p;
    }
  }

  /** The smaller of two exponents, at which both decimals scale to integers. */
  function CommonExponent(a: DecimalValue, b: DecimalValue): (e: int)
    ensures e <= a.exponent && e <= b.exponent
    ensures e == a.exponent || e == b.exponent
  {
    if a.exponent <= b.exponent then a.exponent else b.exponent
  }

  /**
   * Comparing two decimals scaled to one exponent gives the same answer at
   * every smaller exponent.
   */
  lemma {:induction false} ScaledOrderStable(a: DecimalValue, b: DecimalValue, m: int, e: int)
    requires e <= m <= a.exponent && m <= b.exponent
    ensures Scaled(a, e) < Scaled(b, e) <==> Scaled(a, m) < Scaled(b, m)
    ensures Scaled(a, e) == Scaled(b, e) <==> Scaled(a, m) == Scaled(b, m)
  {
    var k := m - e;
    ScaledShift(a, m, k);
    ScaledShift(b, m, k);
    MulOrder(Scaled(a, m), Scaled(b, m), Pow10(k));
  }

  /** A finite decimal whose value is an integer: d * 10^0 is a whole number. */
  predicate IsIntegral(d: DecimalValue)
  {
    var m := if d.exponent <= 0 then d.exponent else 0;
    Scaled(d, m) % Pow10(-m) == 0
  }

  /** The integer an integral decimal denotes. */
  function IntegerValue(d: DecimalValue): int
    requires IsIntegral(d)
  {
    var m := if d.exponent <= 0 then d.exponent else 0;
    Scaled(d, m) / Pow10(-m)
  }

  /**
   * An integral decimal scaled to any exponent at most 0 (and at most its
   * own) is the integer it denotes times the matching power of ten.
   */
  lemma {:induction false} IntegralScaled(d: DecimalValue, e: int)
    requires IsIntegral(d) && e <= d.exponent && e <= 0
    ensures Scaled(d, e) == IntegerValue(d) * Pow10(-e)
  {
    var m := if d.exponent <= 0 then d.exponent else 0;
    var p := Pow10(-m);
    var n := IntegerValue(d);
    assert Scaled(d, m) == n * p;
    ScaledShift(d, m, m - e);
    Pow10Add(-m, m - e);
    MulAssoc(n, p, Pow10(m - e));
  }

  /** For integral decimals, Cmp agrees with the order of the integers they denote. */
  lemma {:induction false} CmpIntegral(a: DecimalValue, b: DecimalValue)
    requires a.form == Finite && b.form == Finite && IsIntegral(a) && IsIntegral(b)
    ensures Cmp(a, b) < 0 <==> IntegerValue(a) < IntegerValue(b)
    ensures Cmp(a, b) == 0 <==> IntegerValue(a) == IntegerValue(b)
  {
    var e := CommonExponent(a, b);
    var e' := if e <= 0 then e else 0;
    IntegralScaled(a, e');
    IntegralScaled(b, e');
    MulOrder(IntegerValue(a), IntegerValue(b), Pow10(-e'));
  }

  /** apd's IsZero: a finite decimal whose value is zero (either sign). */
  function IsZero(d: DecimalValue): (z: bool)
    ensures z <==> d.form == Finite && Scaled(d, d.exponent) == 0
  {
    d.form == Finite && d.coeff == 0
  }

  /**
   * apd's Modf: splits a finite decimal into an integer part (exponent at
   * least 0) and a fractional part of magnitude below one; both carry its
   * sign and, scaled to a common exponent, they sum to it.
   */
  function Modf(d: DecimalValue): (parts: (DecimalValue, DecimalValue))
    requires d.form == Finite
    ensures parts.0.form == Finite && parts.1.form == Finite
    ensures parts.0.negative == d.negative && parts.1.negative == d.negative
    ensures parts.0.exponent == if d.exponent >= 0 then d.exponent else 0
    ensures var m := if d.exponent <= 0 then d.exponent else 0;
      m <= parts.1.exponent &&
      Scaled(parts.0, m) + Scaled(parts.1, m) == Scaled(d, m) &&
      -(Pow10(-m) as int) < Scaled(parts.1, m) < Pow10(-m)
  {
    if d.exponent >= 0 then
      (d, DecimalValue(d.negative, 0, 0, Finite))
    else
      var p := Pow10(-(d.exponent as int));
      var (q, r) := DivMod(d.coeff, p);
      var integ := DecimalValue(d.negative, q, 0, Finite);
      var frac := DecimalValue(d.negative, r, d.exponent, Finite);
      assert Scaled(integ, d.exponent) == (if d.negative then -(q * p) else q * p);
      assert Scaled(frac, d.exponent) == (if d.negative then -(r as int) else r);
      (integ, frac)
  }

  /** Euclidean division of a coefficient by a positive power of ten. */
  function DivMod(c: nat, p: nat): (qr: (nat, nat))
    requires p >= 1
    ensures c == qr.0 * p + qr.1 && qr.1 < p
  {
    (c / p, c % p)
  }

  /**
   * The fractional part that Modf returns is zero exactly when the decimal
   * denotes an integer, and then the integer part denotes the same integer.
   */
  lemma {:induction false} FractionZeroIffIntegral(d: DecimalValue)
    requires d.form == Finite
    ensures IsZero(Modf(d).1) <==> IsIntegral(d)
    ensures IsIntegral(d) ==> IntegerValue(d) == Scaled(Modf(d).0, 0)
  {
    var (integ, frac) := Modf(d);
    var m := if d.exponent <= 0 then d.exponent else 0;
    var p := Pow10(-m);
    var si, sf := Scaled(integ, m), Scaled(frac, m);
    ScaledShift(integ, 0, -m);
    assert si == Scaled(integ, 0) * p;
    assert Scaled(d, m) == Scaled(integ, 0) * p + sf;
    MultipleMod(Scaled(integ, 0), p, sf);
    assert IsZero(frac) <==> sf == 0;
  }

  /** n * p + f is a multiple of p exactly when f is zero, for |f| < p. */
  lemma {:induction false} MultipleMod(n: int, p: int, f: int)
    requires -p < f < p
    ensures (n * p + f) % p == 0 <==> f == 0
    ensures f == 0 ==> (n * p + f) / p == n
  {
    var x := n * p + f;
    if f > 0 {
      DivModUnique(x, p, n, f);
    } else if f < 0 {
      assert x == (n - 1) * p + (p + f);
      DivModUnique(x, p, n - 1, p + f);
    } else {
      DivModUnique(x, p, n, 0);
    }
  }

  /** Quotient and remainder are the only pair that rebuilds x with 0 <= r < p. */
  lemma {:induction false} DivModUnique(x: int, p: int, q: int, r: int)
    requires p > 0 && x == q * p + r && 0 <= r < p
    ensures x / p == q && x % p == r
  {
    var q', r' := x / p, x % p;
    assert x == q' * p + r' && 0 <= r' < p;
    assert (q - q') * p == r' - r;
    ZeroMultiple(q - q', p);
  }

  lemma {:induction false} ZeroMultiple(k: int, p: int)
    requires p > 0 && -p < k * p < p
    ensures k == 0
  {
  }

  function CompareInt(x: int, y: int): (c: int)
    ensures c < 0 <==> x < y
    ensures c == 0 <==> x == y
    ensures -1 <= c <= 1
  {
    if x < y then -1 else if x > y then 1 else 0
  }

  /** Where an infinity sits relative to every other decimal: -1, 0 or 1. */
  function InfinityRank(d: DecimalValue): int
  {
    if d.form != Infinite then 0 else if d.negative then -1 else 1
  }

  /**
   * apd's Cmp: -1, 0 or 1 as a is less than, equal to or greater than b.
   * Finite values compare by the numbers they denote, whatever their
   * exponents: scaled to any exponent at most both of theirs. An infinity
   * lies beyond every other value of its sign. apd leaves the result
   * undefined for NaN; here a NaN compares as the finite value of its sign,
   * coefficient and exponent.
   */
  function Cmp(a: DecimalValue, b: DecimalValue): (c: int)
    ensures -1 <= c <= 1
    ensures a.form == Finite && b.form == Finite ==>
      forall e :: e <= a.exponent && e <= b.exponent ==>
        (c < 0 <==> Scaled(a, e) < Scaled(b, e)) &&
        (c == 0 <==> Scaled(a, e) == Scaled(b, e))
    ensures a.form == Infinite && b.form != Infinite ==> c == (if a.negative then -1 else 1)
    ensures a.form != Infinite && b.form == Infinite ==> c == (if b.negative then 1 else -1)
    ensures a.form == Infinite && b.form == Infinite ==>
      c == (if a.negative == b.negative then 0 else if a.negative then -1 else 1)
  {
    if a.form == Infinite || b.form == Infinite then
      CompareInt(InfinityRank(a), InfinityRank(b))
    else
      var m := CommonExponent(a, b);
      CmpAtEveryExponent(a, b, m);
      CompareInt(Scaled(a, m), Scaled(b, m))
  }

  lemma {:induction false} CmpAtEveryExponent(a: DecimalValue, b: DecimalValue, m: int)
    requires m <= a.exponent && m <= b.exponent
    ensures forall e :: e <= m ==>
      (Scaled(a, e) < Scaled(b, e) <==> Scaled(a, m) < Scaled(b, m)) &&
      (Scaled(a, e) == Scaled(b, e) <==> Scaled(a, m) == Scaled(b, m))
  {
    forall e | e <= m
      ensures (Scaled(a, e) < Scaled(b, e) <==> Scaled(a, m) < Scaled(b, m)) &&
              (Scaled(a, e) == Scaled(b, e) <==> Scaled(a, m) == Scaled(b, m))
    {
      ScaledOrderStable(a, b, m, e);
    }
  }

  /** Swapping the operands of Cmp negates its result, for operands that are not NaN. */
  lemma {:induction false} CmpAntisymmetric(a: DecimalValue, b: DecimalValue)
    requires a.form != NaN && b.form != NaN
    ensures Cmp(a, b) == -Cmp(b, a)
  {
  }

  /** Every decimal that is not NaN compares equal to itself. */
  lemma {:induction false} CmpReflexive(a: DecimalValue)
    requires a.form != NaN
    ensures Cmp(a, a) == 0
  {
  }

  /**
   * Rewriting a finite decimal with k more trailing zeros in its coefficient
   * and an exponent k smaller leaves its value unchanged, so Cmp finds the
   * two equal (1250E-1 compares equal to 125E0).
   */
  lemma {:induction false} CmpIgnoresRepresentation(a: DecimalValue, k: nat)
    requires a.form == Finite
    requires a.exponent - k >= -0x8000_0000
    ensures Cmp(a, a.(coeff := a.coeff * Pow10(k), exponent := a.exponent - k)) == 0
  {
    var b := a.(coeff := a.coeff * Pow10(k), exponent := a.exponent - k);
    var m := a.exponent - k;
    ScaledShift(a, a.exponent, k);
    assert Scaled(a, a.exponent) == (if a.negative then -(a.coeff as int) else a.coeff);
    assert Scaled(b, m) == (if a.negative then -(a.coeff * Pow10(k)) else a.coeff * Pow10(k));
    assert Scaled(a, m) == Scaled(b, m);
  }

  /**
   * apd.BigInt, the arbitrary-precision integer that holds a coefficient.
   * Only the operations decimal.go performs on it are modelled.
   */
  class BigInt {
    var value: int

    /** apd.NewBigInt(x) */
    constructor (x: int64)
      ensures value == x
    {
      value := x;
    }

    method SetInt64(x: int64)
      modifies this
      ensures value == x
    {
      value := x;
    }

    /** z.Set(x): z takes x's value. */
    method Set(x: BigInt)
      modifies this
      ensures value == old(x.value)
    {
      value := x.value;
    }

    /** z.Add(x, y): z becomes x + y; x or y may be z itself. */
    method Add(x: BigInt, y: BigInt)
      modifies this
      ensures value == old(x.value) + old(y.value)
    {
      value := x.value + y.value;
    }

    /** z.Lsh(x, n): z becomes x shifted left by n bits. */
    method Lsh(x: BigInt, n: nat)
      modifies this
      ensures value == old(x.value) * Pow2(n)
    {
      value := x.value * Pow2(n);
    }

    /** z.Abs(x): z becomes |x|. */
    method Abs(x: BigInt)
      modifies this
      ensures value >= 0 && (value == old(x.value) || value == -old(x.value))
    {
      value := if x.value < 0 then -x.value else x.value;
    }
  }
}
