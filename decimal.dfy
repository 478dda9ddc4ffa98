/**
 * decimal.go: a Decimal wrapping an apd decimal, its construction from and
 * conversion to unsigned 64-bit integers (with the 2^64 bias for values that
 * do not fit an int64), conversion to a big integer, and in-place and fresh
 * copies.
 */
module Decimals {
  import opened GoInt
  import opened Apd

  /** Why an integer conversion refused a decimal. */
  datatype ConvError = LessThanZero | NotFinite | FractionalPart | OutOfRange

  datatype Result<T> = Ok(value: T) | Err(error: ConvError)

  /** The Decimal{} zero value: +0 with exponent 0. */
  const ZeroValue: DecimalValue := DecimalValue(false, 0, 0, Finite)

  /** twoTo64Decimal: 2^64 with exponent 0. */
  const TwoTo64Decimal: DecimalValue := DecimalValue(false, TwoTo64, 0, Finite)

  /** What apd.NewWithBigInt(coeff, exponent) holds for a coefficient of value c. */
  function WithBigIntValue(c: int, exponent: int32): (d: DecimalValue)
    ensures d.form == Finite && d.exponent == exponent
    ensures Scaled(d, exponent) == c
  {
    if c < 0 then DecimalValue(true, -c, exponent, Finite) else DecimalValue(false, c, exponent, Finite)
  }

  /**
   * What TryUint64 promises: an error for a negative sign (checked first,
   * so -0 and -Inf are "less than zero"), then for a non-finite form, then
   * for a value with a fractional part, then for a value of at least 2^64;
   * otherwise the integer the decimal denotes.
   */
  function TryUint64Spec(d: DecimalValue): (r: Result<uint64>)
  {
    if d.negative then Err(LessThanZero)
    else if d.form != Finite then Err(NotFinite)
    else if !IsIntegral(d) then Err(FractionalPart)
    else if IntegerValue(d) >= TwoTo64 then Err(OutOfRange)
    else
      NonNegativeValue(d);
      Ok(IntegerValue(d))
  }

  lemma {:induction false} NonNegativeValue(d: DecimalValue)
    requires !d.negative && IsIntegral(d)
    ensures IntegerValue(d) >= 0
  {
    var m := if d.exponent <= 0 then d.exponent else 0;
    var p := Pow10(d.exponent - m);
    assert Scaled(d, m) == d.coeff * p;
    assert d.coeff * p >= 0;
  }

  /** The package variable twoTo64, 1 << 64, built as decimal.go builds it. */
  method NewTwoTo64() returns (t: BigInt)
    ensures fresh(t) && t.value == TwoTo64
  {
    t := new BigInt(0);
    var one := new BigInt(1);
    t.Lsh(one, 64);
    Pow2Is2To64();
  }

  lemma {:induction false} Pow2Is2To64()
    ensures Pow2(64) == TwoTo64
  {
    Pow2Is2To16();
    assert Pow2(32) == 0x1_0000_0000 by { Pow2Add(16, 16); }
    assert Pow2(64) == 0x1_0000_0000_0000_0000 by { Pow2Add(32, 32); }
  }

  lemma {:induction false} Pow2Is2To16()
    ensures Pow2(16) == 0x1_0000
  {
    assert Pow2(2) == 4;
    assert Pow2(4) == 16 by { Pow2Add(2, 2); }
    assert Pow2(8) == 0x100 by { Pow2Add(4, 4); }
    assert Pow2(16) == 0x1_0000 by { Pow2Add(8, 8); }
  }

  lemma {:induction false} Pow2Add(a: nat, b: nat)
    ensures Pow2(a + b) == Pow2(a) * Pow2(b)
  {
    if a > 0 {
      Pow2Add(a - 1, b);
      assert Pow2(a + b) == 2 * (Pow2(a - 1) * Pow2(b));
    }
  }

  /** The package variable twoTo64Decimal, apd.NewWithBigInt(twoTo64, 0): the decimal 2^64. */
  method NewTwoTo64Decimal() returns (d: Decimal)
    ensures fresh(d) && d.Valid()
    ensures d.Value() == TwoTo64Decimal
  {
    var t := NewTwoTo64();
    d := new Decimal.WithBigInt(t, 0);
  }

  /**
   * SetUint64ToBigInt: stores the uint64 i in d. int64(i) is negative
   * exactly when i >= 2^63; then 2^64 is added back to it.
   */
  method SetUint64ToBigInt(i: uint64, d: BigInt) returns (r: BigInt)
    modifies d
    ensures r == d && d.value == i
  {
    var signed := Int64FromUint64(i);
    if signed < 0 {
      d.SetInt64(signed);
      var twoTo64 := NewTwoTo64();
      d.Add(d, twoTo64);
    } else {
      d.SetInt64(signed);
    }
    r := d;
  }

  /** NewBigIntFromUint64: a fresh big integer holding i. */
  method NewBigIntFromUint64(i: uint64) returns (b: BigInt)
    ensures fresh(b) && b.value == i
  {
    var z := new BigInt(0);
    b := SetUint64ToBigInt(i, z);
  }

  /** NewFromUint64: a fresh, finite, non-negative Decimal i * 10^0. */
  method NewFromUint64(i: uint64) returns (r: Decimal)
    ensures fresh(r) && fresh(r.Coeff) && r.Valid()
    ensures r.Value() == DecimalValue(false, i, 0, Finite)
    ensures TryUint64Spec(r.Value()) == Ok(i)
  {
    r := new Decimal();
    var b := NewBigIntFromUint64(i);
    var t := new Decimal.WithBigInt(b, 0);
    r.Set(t);
    Uint64RoundTrip(i);
  }

  /** Converting back the decimal NewFromUint64 builds gives i again. */
  lemma {:induction false} Uint64RoundTrip(i: uint64)
    ensures TryUint64Spec(DecimalValue(false, i, 0, Finite)) == Ok(i)
  {
    var d := DecimalValue(false, i, 0, Finite);
    assert Scaled(d, 0) == i * Pow10(0);
    assert Pow10(0) == 1;
  }

  class Decimal {
    var Negative: bool
    /** The coefficient, a big integer owned by this Decimal (apd embeds it by value). */
    const Coeff: BigInt
    var Exponent: int32
    var Form: Form

    ghost predicate Valid()
      reads this, Coeff
    {
      Coeff.value >= 0
    }

    /** The apd decimal this object holds. */
    function Value(): DecimalValue
      reads this, Coeff
      requires Valid()
    {
      DecimalValue(Negative, Coeff.value, Exponent, Form)
    }

    /** Decimal{}: the zero value, which is also the package's Zero. */
    constructor ()
      ensures Valid() && fresh(Coeff)
      ensures Value() == ZeroValue && IsZero(Value())
    {
      Negative := false;
      Coeff := new BigInt(0);
      Exponent := 0;
      Form := Finite;
    }

    /** apd.NewWithBigInt(coeff, exponent): the finite decimal coeff * 10^exponent. */
    constructor WithBigInt(coeff: BigInt, exponent: int32)
      ensures Valid() && fresh(Coeff)
      ensures Value() == WithBigIntValue(old(coeff.value), exponent)
    {
      var c := new BigInt(0);
      c.Set(coeff);
      var negative := c.value < 0;
      if negative {
        c.Abs(c);
      }
      Negative := negative;
      Coeff := c;
      Exponent := exponent;
      Form := Finite;
    }

    /** apd's Decimal.Set: this takes x's value; x is left as it was. */
    method Set(x: Decimal)
      requires Valid() && x.Valid()
      modifies this, Coeff
      ensures Valid() && x.Valid()
      ensures Value() == old(x.Value()) && x.Value() == old(x.Value())
    {
      if x != this {
        Negative := x.Negative;
        Coeff.Set(x.Coeff);
        Exponent := x.Exponent;
        Form := x.Form;
      }
    }

    /** Clone: a fresh Decimal, sharing nothing with this one, of equal value. */
    method Clone() returns (r: Decimal)
      requires Valid()
      ensures fresh(r) && fresh(r.Coeff) && r.Valid()
      ensures r.Value() == Value()
    {
      r := new Decimal();
      r.Set(this);
    }

    /** Copy: overwrites this Decimal with d's value, leaves d as it was, and returns this. */
    method Copy(d: Decimal) returns (r: Decimal)
      requires Valid() && d.Valid()
      modifies this, Coeff
      ensures r == this && Valid() && d.Valid()
      ensures Value() == old(d.Value()) && d.Value() == old(d.Value())
    {
      Set(d);
      r := this;
    }

    /**
     * SetUint64: stores i as the coefficient and 0 as the exponent, and
     * returns this. The sign and the form are left as they were.
     */
    method SetUint64(i: uint64) returns (r: Decimal)
      requires Valid()
      modifies this, Coeff
      ensures r == this && Valid()
      ensures Value() == old(Value()).(coeff := i, exponent := 0)
    {
      var c := SetUint64ToBigInt(i, Coeff);
      Exponent := 0;
      r := this;
    }

    /**
     * SetUint64 with the sign and form reset as well, so that the
     * receiver denotes i whatever it held before.
     */
    method SetUint64Corrected(i: uint64) returns (r: Decimal)
      requires Valid()
      modifies this, Coeff
      ensures r == this && Valid()
      ensures Value() == DecimalValue(false, i, 0, Finite)
      ensures TryUint64Spec(Value()) == Ok(i)
    {
      var c := SetUint64ToBigInt(i, Coeff);
      Exponent := 0;
      Negative := false;
      Form := Finite;
      r := this;
      Uint64RoundTrip(i);
    }

    /**
     * TryUint64: the chain of rejections, then the integer part's
     * coefficient read into an int64 and multiplied by ten once per unit of
     * its exponent, all modulo 2^64; the final uint64 cast recovers the
     * value, which is below 2^64. The loop runs `iterations` times.
     */
    method TryUint64() returns (r: Result<uint64>, ghost iterations: nat)
      requires Valid()
      ensures r == TryUint64Spec(Value())
      ensures r.Ok? ==> iterations == if Exponent >= 0 then Exponent as int else 0
    {
      if Negative {
        return Err(LessThanZero), 0;
      }
      var d := Value();
      if Form != Finite {
        return Err(NotFinite), 0;
      }
      var (integ, frac) := Modf(d);
      RejectionsOfTryUint64(d);
      if !IsZero(frac) {
        return Err(FractionalPart), 0;
      }
      // The apd.ErrDecimal accumulator of the source is never written, so
      // its error check that follows the range test never fires.
      if Cmp(integ, TwoTo64Decimal) >= 0 {
        return Err(OutOfRange), 0;
      }
      var v, steps := TimesPow10(WrapInt64(integ.coeff), integ.coeff, integ.exponent);
      AcceptanceOfTryUint64(d, v);
      r, iterations := Ok(Uint64FromInt64(v)), steps;
    }

    /** Uint64: TryUint64 for a decimal it accepts; the source panics on the others. */
    method Uint64() returns (v: uint64)
      requires Valid() && TryUint64Spec(Value()).Ok?
      ensures v == IntegerValue(Value())
    {
      var r, _ := TryUint64();
      v := r.value;
    }

    /**
     * TryBigInt as written: refuses a value with a fractional part, and
     * otherwise returns the coefficient itself, without the sign and
     * without scaling by the exponent.
     */
    function TryBigInt(): (r: Result<int>)
      reads this, Coeff
      requires Valid() && Form == Finite
      ensures r.Err? <==> !IsIntegral(Value())
      ensures r.Err? ==> r.error == FractionalPart
      ensures r.Ok? ==> r.value == Coeff.value
    {
      var (integ, frac) := Modf(Value());
      FractionZeroIffIntegral(Value());
      if !IsZero(frac) then Err(FractionalPart) else Ok(Coeff.value)
    }

    /** BigInt: TryBigInt for a decimal it accepts; the source panics on the others. */
    function BigInt(): (n: int)
      reads this, Coeff
      requires Valid() && Form == Finite && TryBigInt().Ok?
      ensures IsIntegral(Value()) && n == Coeff.value
    {
      TryBigInt().value
    }

    /** TryBigInt returning the signed integer the decimal denotes. */
    function TryBigIntCorrected(): (r: Result<int>)
      reads this, Coeff
      requires Valid() && Form == Finite
      ensures r.Err? <==> !IsIntegral(Value())
      ensures r.Err? ==> r.error == FractionalPart
      ensures r.Ok? ==> IsIntegral(Value()) && r.value == IntegerValue(Value())
    {
      var (integ, frac) := Modf(Value());
      FractionZeroIffIntegral(Value());
      if !IsZero(frac) then Err(FractionalPart) else Ok(Scaled(integ, 0))
    }
  }

  /** The two late rejections of TryUint64, stated on Modf's parts. */
  lemma {:induction false} RejectionsOfTryUint64(d: DecimalValue)
    requires d.form == Finite && !d.negative
    ensures var (integ, frac) := Modf(d);
      (!IsZero(frac) ==> TryUint64Spec(d) == Err(FractionalPart)) &&
      (IsZero(frac) && Cmp(integ, TwoTo64Decimal) >= 0 ==> TryUint64Spec(d) == Err(OutOfRange)) &&
      (IsZero(frac) && Cmp(integ, TwoTo64Decimal) < 0 ==> TryUint64Spec(d).Ok?)
  {
    FractionZeroIffIntegral(d);
    if IsIntegral(d) {
      IntegerPartRange(d);
    }
  }

  /**
   * When TryUint64 accepts, an int64 congruent to the integer part's
   * coeff * 10^exponent modulo 2^64 casts back to the integer denoted.
   */
  lemma {:induction false} AcceptanceOfTryUint64(d: DecimalValue, v: int64)
    requires d.form == Finite && !d.negative && TryUint64Spec(d).Ok?
    requires var integ := Modf(d).0;
      v % TwoTo64 == (integ.coeff * Pow10(integ.exponent as int)) % TwoTo64
    ensures TryUint64Spec(d) == Ok(Uint64FromInt64(v))
  {
    IntegerPartRange(d);
    ModOfSmall(IntegerValue(d));
  }

  /**
   * For a non-negative integral decimal, the integer part from Modf is
   * coeff * 10^exponent, the integer denoted, and Cmp against 2^64 tests
   * that integer against 2^64.
   */
  lemma {:induction false} IntegerPartRange(d: DecimalValue)
    requires d.form == Finite && !d.negative && IsIntegral(d)
    ensures var integ := Modf(d).0;
      integ.coeff * Pow10(integ.exponent as int) == IntegerValue(d) &&
      (Cmp(integ, TwoTo64Decimal) >= 0 <==> IntegerValue(d) >= TwoTo64)
  {
    FractionZeroIffIntegral(d);
    var integ := Modf(d).0;
    assert Scaled(integ, 0) == integ.coeff * Pow10(integ.exponent as int);
    assert Scaled(TwoTo64Decimal, 0) == TwoTo64 by { assert Pow10(0) == 1; }
    var c := Cmp(integ, TwoTo64Decimal);
    assert c < 0 <==> Scaled(integ, 0) < Scaled(TwoTo64Decimal, 0);
  }

  /**
   * The loop of TryUint64: v, congruent to c modulo 2^64, multiplied by ten
   * `exponent` times with int64 wrap-around, so that it ends congruent to
   * c * 10^exponent. It runs max(exponent, 0) times.
   */
  method TimesPow10(v0: int64, ghost c: nat, exponent: int32) returns (v: int64, ghost steps: nat)
    requires v0 % TwoTo64 == c % TwoTo64
    ensures steps == if exponent >= 0 then exponent as int else 0
    ensures exponent >= 0 ==> v % TwoTo64 == (c * Pow10(exponent as int)) % TwoTo64
  {
    v := v0;
    var i: int32 := 0;
    assert c * Pow10(0) == c;
    while i < exponent
      invariant 0 <= i <= (if exponent >= 0 then exponent else 0)
      invariant v % TwoTo64 == (c * Pow10(i as int)) % TwoTo64
    {
      TimesTenStep(v, c, i as int);
      v := MulInt64(v, 10);
      i := i + 1;
    }
    steps := i as nat;
  }

  /** One `v *= 10` step keeps v congruent to c * 10^i, now with i + 1. */
  lemma {:induction false} TimesTenStep(v: int64, c: nat, i: nat)
    requires v % TwoTo64 == (c * Pow10(i)) % TwoTo64
    ensures MulInt64(v, 10) % TwoTo64 == (c * Pow10(i + 1)) % TwoTo64
  {
    var before := c * Pow10(i);
    MulAssoc(c, Pow10(i), 10);
    assert c * Pow10(i + 1) == before * 10;
    CongruentTimesTen(v, before);
  }

  lemma ModOfSmall(n: int)
    requires 0 <= n < TwoTo64
    ensures n % TwoTo64 == n
  {
  }

  /**
   * TryBigInt on -1.0 (coefficient 10, exponent -1) returns 10 rather than
   * -1; the corrected version returns -1.
   */
  lemma TryBigIntCounterexample(x: Decimal)
    requires x.Valid() && x.Value() == DecimalValue(true, 10, -1, Finite)
    ensures IsIntegral(x.Value()) && IntegerValue(x.Value()) == -1
    ensures x.TryBigInt() == Ok(10)
    ensures x.TryBigIntCorrected() == Ok(-1)
  {
    var d := x.Value();
    assert Pow10(1) == 10;
    assert Scaled(d, -1) == -10;
  }

  /**
   * SetUint64(3) on the decimal -5 leaves it negative: the result denotes
   * -3, not 3.
   */
  method SetUint64KeepsSign() returns (n: int)
    ensures n == -3
  {
    var five := new BigInt(-5);
    var d := new Decimal.WithBigInt(five, 0);
    var r := d.SetUint64(3);
    assert d.Value() == DecimalValue(true, 3, 0, Finite);
    assert Pow10(0) == 1;
    n := IntegerValue(d.Value());
  }

  /** TryUint64(NewFromUint64(i)) returns i with no error, for every uint64 i. */
  method Uint64RoundTripScenario(i: uint64) returns (r: Result<uint64>)
    ensures r == Ok(i)
  {
    var d := NewFromUint64(i);
    ghost var steps;
    r, steps := d.TryUint64();
  }
}
