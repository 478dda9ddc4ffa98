/**
 * cmp.go: Equal, GreaterThan and LessThan, each a test of the one result of
 * apd's Cmp against zero. Being functions, none of them can modify either
 * operand.
 */
module Comparison {
  import opened GoInt
  import opened Apd
  import opened Decimals

  /** d.Equal(d1): the two denote the same number; two infinities are equal when their signs are. */
  function Equal(d: Decimal, d1: Decimal): (b: bool)
    reads d, d.Coeff, d1, d1.Coeff
    requires d.Valid() && d1.Valid()
    ensures d.Form == Finite && d1.Form == Finite ==>
      var e := CommonExponent(d.Value(), d1.Value());
      (b <==> Scaled(d.Value(), e) == Scaled(d1.Value(), e))
    ensures d.Form == Infinite && d1.Form == Infinite ==> (b <==> d.Negative == d1.Negative)
    ensures (d.Form == Infinite) != (d1.Form == Infinite) ==> !b
  {
    Cmp(d.Value(), d1.Value()) == 0
  }

  /** d.GreaterThan(d1): d denotes the larger number; +Inf exceeds and -Inf trails every other value. */
  function GreaterThan(d: Decimal, d1: Decimal): (b: bool)
    reads d, d.Coeff, d1, d1.Coeff
    requires d.Valid() && d1.Valid()
    ensures d.Form == Finite && d1.Form == Finite ==>
      var e := CommonExponent(d.Value(), d1.Value());
      (b <==> Scaled(d1.Value(), e) < Scaled(d.Value(), e))
    ensures d.Form == Infinite && d1.Form != Infinite ==> (b <==> !d.Negative)
    ensures d.Form != Infinite && d1.Form == Infinite ==> (b <==> d1.Negative)
    ensures d.Form == Infinite && d1.Form == Infinite ==> (b <==> !d.Negative && d1.Negative)
  {
    Cmp(d.Value(), d1.Value()) > 0
  }

  /** d.LessThan(d1): d denotes the smaller number; -Inf trails and +Inf exceeds every other value. */
  function LessThan(d: Decimal, d1: Decimal): (b: bool)
    reads d, d.Coeff, d1, d1.Coeff
    requires d.Valid() && d1.Valid()
    ensures d.Form == Finite && d1.Form == Finite ==>
      var e := CommonExponent(d.Value(), d1.Value());
      (b <==> Scaled(d.Value(), e) < Scaled(d1.Value(), e))
    ensures d.Form == Infinite && d1.Form != Infinite ==> (b <==> d.Negative)
    ensures d.Form != Infinite && d1.Form == Infinite ==> (b <==> !d1.Negative)
    ensures d.Form == Infinite && d1.Form == Infinite ==> (b <==> d.Negative && !d1.Negative)
  {
    Cmp(d.Value(), d1.Value()) < 0
  }

  /** Exactly one of the three predicates holds for any pair. */
  lemma {:induction false} ExactlyOne(d: Decimal, d1: Decimal)
    requires d.Valid() && d1.Valid()
    ensures Equal(d, d1) || GreaterThan(d, d1) || LessThan(d, d1)
    ensures !(Equal(d, d1) && GreaterThan(d, d1))
    ensures !(Equal(d, d1) && LessThan(d, d1))
    ensures !(GreaterThan(d, d1) && LessThan(d, d1))
  {
  }

  /** d is greater than d1 exactly when d1 is less than d (neither being NaN). */
  lemma {:induction false} GreaterThanIsConverse(d: Decimal, d1: Decimal)
    requires d.Valid() && d1.Valid() && d.Form != NaN && d1.Form != NaN
    ensures GreaterThan(d, d1) <==> LessThan(d1, d)
  {
    CmpAntisymmetric(d.Value(), d1.Value());
  }

  /** Equal is reflexive on every decimal that is not NaN. */
  lemma {:induction false} EqualReflexive(d: Decimal)
    requires d.Valid() && d.Form != NaN
    ensures Equal(d, d)
  {
    CmpReflexive(d.Value());
  }

  /** Equal is symmetric on decimals that are not NaN. */
  lemma {:induction false} EqualSymmetric(d: Decimal, d1: Decimal)
    requires d.Valid() && d1.Valid() && d.Form != NaN && d1.Form != NaN
    ensures Equal(d, d1) <==> Equal(d1, d)
  {
    CmpAntisymmetric(d.Value(), d1.Value());
  }

  /**
   * Equal compares values, not representations: a decimal equals any
   * decimal with k more trailing zeros and an exponent k smaller.
   */
  lemma {:induction false} EqualIgnoresRepresentation(d: Decimal, d1: Decimal, k: nat)
    requires d.Valid() && d1.Valid() && d.Form == Finite
    requires d.Exponent - k >= -0x8000_0000
    requires d1.Value() == d.Value().(coeff := d.Coeff.value * Pow10(k), exponent := d.Exponent - k)
    ensures Equal(d, d1) && Equal(d1, d)
  {
    CmpIgnoresRepresentation(d.Value(), k);
    CmpAntisymmetric(d.Value(), d1.Value());
  }

  /** On integral finite decimals the predicates follow the integers they denote. */
  lemma {:induction false} IntegralOrder(d: Decimal, d1: Decimal)
    requires d.Valid() && d1.Valid() && d.Form == Finite && d1.Form == Finite
    requires IsIntegral(d.Value()) && IsIntegral(d1.Value())
    ensures Equal(d, d1) <==> IntegerValue(d.Value()) == IntegerValue(d1.Value())
    ensures LessThan(d, d1) <==> IntegerValue(d.Value()) < IntegerValue(d1.Value())
    ensures GreaterThan(d, d1) <==> IntegerValue(d.Value()) > IntegerValue(d1.Value())
  {
    CmpIntegral(d.Value(), d1.Value());
  }

  const Smaller: uint64 := 0x4000_0000_0000_0000 + 50
  const Bigger: uint64 := 0x8000_0000_0000_0000 + 50

  /**
   * The unsigned round trip of decimal_test.go: NewFromUint64 of 2^62 + 50
   * and of 2^63 + 50 equal the decimals 4611686018427387954 and
   * 9223372036854775858 (given as inputs: parsing is apd's), and TryUint64
   * returns each number with no error.
   */
  method SetUint64Scenario(d1str: Decimal, d2str: Decimal)
    returns (equal1: bool, equal2: bool, u1: Result<uint64>, u2: Result<uint64>)
    requires d1str.Valid() && d1str.Value() == DecimalValue(false, 4611686018427387954, 0, Finite)
    requires d2str.Valid() && d2str.Value() == DecimalValue(false, 9223372036854775858, 0, Finite)
    ensures equal1 && equal2
    ensures u1 == Ok(4611686018427387954) && u2 == Ok(9223372036854775858)
  {
    var d1 := NewFromUint64(Smaller);
    var d2 := NewFromUint64(Bigger);
    EqualReflexive(d1);
    EqualReflexive(d2);
    equal1 := Equal(d1, d1str);
    equal2 := Equal(d2, d2str);
    ghost var steps;
    u1, steps := d1.TryUint64();
    u2, steps := d2.TryUint64();
  }
}
