/**
 * Go's fixed-width integers, as the conversion code in decimal.go uses them:
 * `uint64`, `int64` and `int32`, the reinterpretation casts between `uint64`
 * and `int64`, and the wrap-around of `int64` arithmetic.
 */
module GoInt {

  const TwoTo63: int := 0x8000_0000_0000_0000
  const TwoTo64: int := 0x1_0000_0000_0000_0000

  type uint64 = x: int | 0 <= x < 0x1_0000_0000_0000_0000
  type int64 = x: int | -0x8000_0000_0000_0000 <= x < 0x8000_0000_0000_0000
  type int32 = x: int | -0x8000_0000 <= x < 0x8000_0000

  /** The two's-complement int64 whose 64 bits are the low 64 bits of x. */
  function WrapInt64(x: int): (v: int64)
    ensures v % TwoTo64 == x % TwoTo64
    ensures -TwoTo63 <= x < TwoTo63 ==> v == x
  {
    var m := x % TwoTo64;
    if m < TwoTo63 then m else m - TwoTo64
  }

  /** Go's `int64(u)` on a uint64: the same 64 bits read as two's complement. */
  function Int64FromUint64(u: uint64): (v: int64)
    ensures v % TwoTo64 == u
    ensures v < 0 <==> u >= TwoTo63
  {
    if u < TwoTo63 then u else u - TwoTo64
  }

  /** Go's `uint64(v)` on an int64: the same 64 bits read as unsigned. */
  function Uint64FromInt64(v: int64): (u: uint64)
    ensures u == v % TwoTo64
    ensures v >= 0 ==> u == v
  {
    if v < 0 then v + TwoTo64 else v
  }

  /** Go's `v *= k` on int64: the product, wrapped to 64 bits. */
  function MulInt64(v: int64, k: int64): (w: int64)
    ensures w % TwoTo64 == (v * k) % TwoTo64
  {
    WrapInt64(v * k)
  }

  /** The two casts between uint64 and int64 undo each other. */
  lemma CastsAreInverse(u: uint64, v: int64)
    ensures Uint64FromInt64(Int64FromUint64(u)) == u
    ensures Int64FromUint64(Uint64FromInt64(v)) == v
  {
  }

  /** Multiplying by ten keeps two integers congruent modulo 2^64. */
  lemma CongruentTimesTen(a: int, b: int)
    requires a % TwoTo64 == b % TwoTo64
    ensures (a * 10) % TwoTo64 == (b * 10) % TwoTo64
  {
    var m := 0x1_0000_0000_0000_0000;
    assert a % m == b % m;
    var t := a / m - b / m;
    assert a - b == m * t;
    assert a * 10 == b * 10 + m * (10 * t);
    ModShift(b * 10, 10 * t);
  }

  /** Adding a multiple of 2^64 does not change the residue. */
  lemma ModShift(x: int, t: int)
    ensures (x + 0x1_0000_0000_0000_0000 * t) % 0x1_0000_0000_0000_0000 == x % 0x1_0000_0000_0000_0000
  {
    var m := 0x1_0000_0000_0000_0000;
    var q, r := x / m, x % m;
    assert x + m * t == m * (q + t) + r;
    assert 0 <= r < m;
  }
}
