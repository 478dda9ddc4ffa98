# fardream/decimal: integer conversions and comparisons

The Go package `decimal` wraps the arbitrary-precision decimal of
cockroachdb/apd. Arithmetic, rounding, parsing and formatting are apd's. The
package itself adds conversions between a decimal and integers, copying, and
three comparison predicates. This project models that code and proves what
it does.

- `goint.dfy` (module `GoInt`) holds the Go integer types `uint64`, `int64`
  and `int32`. It also holds the casts between `uint64` and `int64`, and the
  64-bit wrap-around of `int64` multiplication.
- `apd.dfy` (module `Apd`) is the part of apd that the package uses, stated
  abstractly. A decimal is `DecimalValue(negative, coeff, exponent, form)`.
  The number it denotes is fixed through `Scaled(d, e)`, the exact integer
  d × 10^-e, for any e at most d's exponent. `IsIntegral` and `IntegerValue`
  say when that number is whole and which integer it is. On top of these the
  module specifies apd's `Modf`, its `IsZero` and its `Cmp`, and models a
  `BigInt` class for the coefficient.
- `decimal.dfy` (module `Decimals`) models decimal.go. The class `Decimal` has
  apd's fields `Negative`, `Coeff`, `Exponent` and `Form`; its methods update
  them in place. The module also holds the package functions
  `SetUint64ToBigInt`, `NewBigIntFromUint64`, `NewFromUint64` and the
  `twoTo64` constants.
- `cmp.dfy` (module `Comparison`) models cmp.go: `Equal`, `GreaterThan` and
  `LessThan` test one `Cmp` result against zero.

`TryUint64` is proved against `TryUint64Spec`, a specification stated in
terms of the number the decimal denotes. It rejects in this order: a
negative sign, then a non-finite form, then a fractional part, then a value
of at least 2^64. Otherwise it returns the integer. The sign is tested
first, so -0 and -Inf are reported as "less than zero".

The method follows the source step by step. It reads the integer part's
coefficient into an `int64`, which keeps only the low 64 bits. It then runs
`v *= 10` once for each unit of the exponent, and each step wraps modulo
2^64. The loop invariant is v ≡ coeff·10^i (mod 2^64). The value is below
2^64, so the final `uint64(v)` cast gives exactly that value.

## Model

| member | source | states |
|---|---|---|
| `GoInt.Int64FromUint64` | decimal.go:88 | `int64(i)` keeps the 64 bits of `i`; the result is negative exactly when i ≥ 2^63 |
| `GoInt.Uint64FromInt64` | decimal.go:135 | `uint64(v)` is v modulo 2^64, and is v itself when v ≥ 0 |
| `GoInt.MulInt64` | decimal.go:132 | `v *= 10` on an int64 is congruent to the true product modulo 2^64 |
| `GoInt.CastsAreInverse` | decimal.go:88 | the two casts between uint64 and int64 undo each other |
| `GoInt.WrapInt64` | decimal.go:130 | `integ.Coeff.Int64()`: the int64 congruent to the coefficient modulo 2^64 (its low 64 bits, as two's complement), the coefficient itself when it fits |
| `Apd.IsZero` | decimal.go:119 | a decimal is zero exactly when it is finite and denotes 0, whatever its sign |
| `Apd.Modf` | decimal.go:117-118 | the integer part has exponent ≥ 0 and the exponent of d when that is ≥ 0; both parts are finite and carry d's sign; scaled to a common exponent they sum to d; the fractional part's magnitude is below one |
| `Apd.FractionZeroIffIntegral` | decimal.go:117-121 | the fractional part from `Modf` is zero exactly when d denotes an integer, and then the integer part denotes the same integer |
| `Apd.Cmp` | decimal.go:123 | finite decimals compare by the numbers they denote, scaled to any exponent at most both of theirs; an infinity lies beyond every other value of its sign, and -Inf < +Inf while two infinities of one sign are equal; the result is -1, 0 or 1 |
| `Apd.CmpIntegral` | decimal.go:123-125 | on integral decimals, `Cmp` follows the order of the integers they denote (so `integ.Cmp(twoTo64Decimal) >= 0` means integ ≥ 2^64) |
| `Apd.ScaledOrderStable` | cmp.go:3-13 | comparing two decimals scaled to one exponent gives the same answer at every smaller exponent |
| `Apd.CmpIgnoresRepresentation` | cmp.go:3-5 | a decimal compares equal to itself rewritten with k more trailing zeros and an exponent k smaller (1250E-1 equals 125E0) |
| `Apd.CmpAntisymmetric` | cmp.go:7-13 | swapping the operands of `Cmp` negates its result, when neither is NaN |
| `Apd.CmpReflexive` | cmp.go:3-5 | every decimal that is not NaN compares equal to itself |
| `Apd.BigInt.constructor` | decimal.go:76 | `apd.NewBigInt(x)` holds x |
| `Apd.BigInt.SetInt64` | decimal.go:90-93 | `d.SetInt64(signed)` makes d hold `signed` |
| `Apd.BigInt.Add` | decimal.go:91 | `d.Add(d, twoTo64)` makes d hold the sum of the old values, also when an operand is d itself |
| `Apd.BigInt.Lsh` | decimal.go:71 | `z.Lsh(x, n)` makes z hold x·2^n |
| `Apd.BigInt.Set` | decimal.go:82 | inside `apd.NewWithBigInt`, the new coefficient takes the given big integer's value |
| `Apd.BigInt.Abs` | decimal.go:82 | inside `apd.NewWithBigInt`, the coefficient becomes the magnitude of its old value |
| `Decimals.NewTwoTo64` | decimal.go:70-71 | `twoTo64`, built as `NewBigInt(0).Lsh(NewBigInt(1), 64)`, holds 2^64 |
| `Decimals.NewTwoTo64Decimal` | decimal.go:72 | `twoTo64Decimal`, built as `apd.NewWithBigInt(twoTo64, 0)`, is the finite non-negative decimal 2^64 with exponent 0, the constant `TwoTo64Decimal` that `TryUint64` compares against |
| `Decimals.SetUint64ToBigInt` | decimal.go:86-97 | for every uint64 i, the big integer ends up holding i, also when `int64(i)` is negative and 2^64 is added back; the same object is returned |
| `Decimals.NewBigIntFromUint64` | decimal.go:74-77 | a fresh big integer holding i |
| `Decimals.NewFromUint64` | decimal.go:79-84 | a fresh decimal, finite and non-negative, with coefficient i and exponent 0; `TryUint64Spec` returns i for it |
| `Decimals.Uint64RoundTrip` | decimal.go:106-136 | for every uint64 i, converting the decimal i·10^0 back to a uint64 gives i with no error |
| `Decimals.Uint64RoundTripScenario` | decimal_test.go:57-63 | `TryUint64(NewFromUint64(i))` returns i with no error, for every uint64 i |
| `Decimals.Decimal.constructor` | decimal.go:177-178 | `Decimal{}` (and the package's `Zero`) is +0 with exponent 0, finite, with a fresh coefficient |
| `Decimals.Decimal.WithBigInt` | decimal.go:82 | `apd.NewWithBigInt(coeff, 0)` is the finite decimal whose scaled value is coeff and whose sign is coeff's |
| `Decimals.Decimal.Set` | decimal.go:173 | the receiver takes the source's sign, coefficient, exponent and form; the source keeps its own |
| `Decimals.Decimal.Clone` | decimal.go:63-68 | a fresh decimal with a fresh coefficient, so nothing is shared, holding the same value |
| `Decimals.Decimal.Copy` | decimal.go:171-175 | the receiver takes the value of `d`, `d` keeps its value, and the receiver is returned |
| `Decimals.Decimal.SetUint64` | decimal.go:99-104 | coefficient becomes i and exponent 0; sign and form stay as they were; the receiver is returned |
| `Decimals.Decimal.SetUint64Corrected` | decimal.go:99-104 | the receiver becomes the non-negative finite decimal i·10^0, from which `TryUint64Spec` recovers i |
| `Decimals.SetUint64KeepsSign` | decimal.go:100-104 | `SetUint64(3)` on the decimal -5 gives a decimal that denotes -3 |
| `Decimals.Decimal.TryUint64` | decimal.go:106-136 | the result is `TryUint64Spec` of the receiver: rejections in the order sign, form, fractional part, ≥ 2^64, otherwise the integer denoted; on success the loop ran as many times as the integer part's exponent |
| `Decimals.TimesPow10` | decimal.go:130-133 | the loop `v *= 10`, run max(exponent, 0) times from a v congruent to c, ends congruent to c·10^exponent modulo 2^64 |
| `Decimals.Decimal.Uint64` | decimal.go:138-146 | on a decimal `TryUint64` accepts, the integer it denotes |
| `Decimals.Decimal.TryBigInt` | decimal.go:148-157 | an error exactly when the decimal has a fractional part; otherwise the raw coefficient, with neither sign nor exponent applied |
| `Decimals.Decimal.BigInt` | decimal.go:159-169 | defined exactly where `TryBigInt` succeeds, and then equal to the coefficient |
| `Decimals.Decimal.TryBigIntCorrected` | decimal.go:148-157 | an error exactly when the decimal has a fractional part; otherwise the signed integer it denotes |
| `Decimals.TryBigIntCounterexample` | decimal.go:156 | on -1.0 (coefficient 10, exponent -1), `TryBigInt` returns 10, while the decimal denotes -1 and the corrected version returns -1 |
| `Comparison.Equal` | cmp.go:3-5 | `Cmp(d, d1) == 0`: for finite decimals, the two denote the same number; two infinities are equal exactly when their signs agree; an infinity never equals a value that is not one |
| `Comparison.GreaterThan` | cmp.go:7-9 | `Cmp(d, d1) > 0`: for finite decimals, d denotes the larger number; an infinity against a non-infinity is greater exactly when it is +Inf, and a non-infinity is greater than an infinity exactly when that is -Inf; of two infinities, d is greater exactly when d is +Inf and d1 is -Inf |
| `Comparison.LessThan` | cmp.go:11-13 | `Cmp(d, d1) < 0`: for finite decimals, d denotes the smaller number; an infinity against a non-infinity is less exactly when it is -Inf, and a non-infinity is less than an infinity exactly when that is +Inf; of two infinities, d is less exactly when d is -Inf and d1 is +Inf |
| `Comparison.ExactlyOne` | cmp.go:3-13 | for any pair, exactly one of `Equal`, `GreaterThan` and `LessThan` holds |
| `Comparison.GreaterThanIsConverse` | cmp.go:7-13 | `d.GreaterThan(d1)` holds exactly when `d1.LessThan(d)` does, when neither is NaN |
| `Comparison.EqualReflexive` | cmp.go:3-5 | every decimal that is not NaN equals itself |
| `Comparison.EqualSymmetric` | cmp.go:3-5 | `Equal` is symmetric on decimals that are not NaN |
| `Comparison.EqualIgnoresRepresentation` | cmp.go:3-5 | equality is by value: a decimal equals itself rewritten with k more trailing zeros and an exponent k smaller |
| `Comparison.IntegralOrder` | cmp.go:3-13 | on integral finite decimals, the three predicates follow the order of the integers denoted |
| `Comparison.SetUint64Scenario` | decimal_test.go:36-55 | `NewFromUint64(2^62+50)` and `NewFromUint64(2^63+50)` equal the decimals 4611686018427387954 and 9223372036854775858, and `TryUint64` returns each number with no error |

## Findings

| source | as written | input that shows it | evidently intended | confidence | as-written member | corrected member |
|---|---|---|---|---|---|---|
| decimal.go:156 | returns `x.Coeff` as the big integer: the unsigned coefficient, not scaled by the exponent | -1.0, held as coefficient 10 and exponent -1, gives 10 | the signed integer the decimal denotes, -1 | high; not executed | `Decimals.Decimal.TryBigInt`, shown by `Decimals.TryBigIntCounterexample` | `Decimals.Decimal.TryBigIntCorrected` |
| decimal.go:100-104 | overwrites only the coefficient and the exponent | `SetUint64(3)` on -5 gives -3; on an infinity it leaves an infinity | the receiver denotes the uint64 i | medium; not executed | `Decimals.Decimal.SetUint64`, shown by `Decimals.SetUint64KeepsSign` | `Decimals.Decimal.SetUint64Corrected` |

`BigInt` wraps `TryBigInt` as written, because that is what the source
does; no other member uses `TryBigInt` or `SetUint64`. The doc comment of
`TryBigInt` (decimal.go:148-149) says it converts the decimal into a
`big.Int`, and the doc comment of `SetUint64` (decimal.go:99) says it sets
the decimal to the uint64; the model follows the code, and the corrected
members state what those comments describe. `TryUint64` tests the sign flag
first with the message "is less than zero" (decimal.go:109-110), so -0 is
rejected as well; the model keeps that.

## Left out

- ops.go (`TryAdd`, `TrySub`, `TryMul`, `TryDiv`, their panicking forms, `getOrPanic` and the 34-digit context): each forwards to apd's arithmetic. Rounding, overflow and division by zero are apd's, and apd's arithmetic is not part of this model.
- `NewFromString`, `Set(string)`, `UnmarshalJSON`, `Type` and `String`: parsing, formatting and JSON decoding are apd's and encoding/json's, and `Type` returns a constant. `Comparison.SetUint64Scenario` takes the parsed decimals as inputs.
- apd internals: `Modf`, `Cmp`, `IsZero`, `NewWithBigInt`, `Decimal.Set` and the `BigInt` operations are specified by what they compute. apd's own code is not part of this model. apd's `Modf` writes its two parts into out-parameters; here it is a pure function returning both.
- `Apd.Cmp`: apd leaves the result undefined when an operand is NaN. This model orders a NaN like the finite value of its sign, coefficient and exponent, so in the model a NaN with coefficient 0 compares equal to +0. No lemma promises anything about NaN operands: `Apd.CmpAntisymmetric`, `Apd.CmpReflexive`, `Comparison.EqualSymmetric`, `Comparison.EqualReflexive` and `Comparison.GreaterThanIsConverse` require both operands not to be NaN. `Comparison.ExactlyOne` holds for any integer result of `Cmp`, so it says nothing specific to NaN either.
- `Apd.Form`: apd's signalling NaN is folded into `NaN`.
- `Decimals.Decimal.TryBigInt`: stated for finite decimals only (`requires Form == Finite`). The source never checks the form, and what apd's `Modf` does with an infinity is not modelled. The same holds for `BigInt` and `TryBigIntCorrected`.
- `Decimals.Decimal.Uint64` and `Decimals.Decimal.BigInt`: the panic on an error is a precondition.
- The error values: the formatted messages become the tags of `ConvError`. The source's message for the range error says "max int64", but the bound it tests is 2^64.
- The `apd.ErrDecimal` check in `TryUint64` (decimal.go:122 and 127): nothing writes to it, so it can never fail, and it is modelled as a no-op.
- The package variables `twoTo64` and `twoTo64Decimal` are not mutable globals here. `NewTwoTo64` and `NewTwoTo64Decimal` build them as the source's initialisers do, and `TryUint64` compares against the constant value `TwoTo64Decimal` that `NewTwoTo64Decimal` is proved to produce. The source never writes either after initialisation.
- `Zero` (decimal.go:178) is a package variable of type `Decimal`, so a caller could overwrite it in place, for instance with `Zero.Copy(x)` or `Zero.SetUint64(i)`, and every later reader would see the change. The model has only the value `ZeroValue` and the constructor that produces it; it does not model a shared mutable `Zero` or such aliasing.
- Concurrency: the package has none.
