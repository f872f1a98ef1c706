# Rounding to decimal places, zeros and significant figures

A Dafny model of the rounding module of `common_math` (`src/rounding/mod.rs`). The module rounds a number to a power-of-ten step under three policies:

- nearest, with ties away from zero (`round`);
- toward +infinity (`ceil`);
- toward -infinity (`floor`).

The step is expressed in three ways:

- **decimal places** (`round`, `ceil`, `floor`): for `f32` and `f64`, the step is 10^-n;
- **zeros** (`round_zeros`, `ceil_zeros`, `floor_zeros`): for `f32`, `f64` and the eight integer types `i8` to `u64`, the step is 10^z;
- **significant figures** (`round_sf`): for `f32` and `f64`, the step is derived from the length of the number's decimal text.

Every form multiplies by `power = 10_f64.powi(e)`, applies the policy, and divides by `power`. The integer types convert to `f64` first and convert back with Rust's `as`, which truncates and saturates.

The model is exact. Floats are Dafny `real`, so there is no representation error, and `f32` behaves like `f64`. Integer values are `int`, tagged with a `Kind` that carries the type's bounds. The `u32` precision arguments keep their `as i32` wrap-around. The panics a debug build raises on integer overflow are modelled: as an `Overflow` outcome in `round_sf`, and as a precondition for the single `zeros` value whose negation overflows.

Modules, one per file:

- `Powers` (`powers.dfy`): 10^n on naturals, `powi` on exact rationals, and `u32 as i32`.
- `Policies` (`policies.dfy`): `f64::floor`, `ceil`, `round` and `trunc` on the scaled value, and the grid of multiples of 1/power.
- `FloatRounding` (`float_rounding.dfy`): the `Float` impls, the `Roundable` impls for `f32`/`f64`, and the six float entry points.
- `Multiples` (`multiples.dfy`): a reference definition in integer division of the multiple each policy picks. It is independent of the float computation.
- `IntegerRounding` (`integer_rounding.dfy`): the eight integer `Roundable` impls and the three zeros entry points on integers. For `zeros` up to i32::MAX, each zeros entry point is proved equal to the reference multiple, clamped to the type. Past 2^31 the wrapped exponent makes each return its input. The impls themselves have a proved value only at the powers the entry points pass.
- `DecimalText` (`decimal_text.dfy`): the canonical text `to_string` writes for a float, and `str::split`.
- `SignificantFigures` (`significant_figures.dfy`): `round_sf` as written, and a corrected version with the behaviour its name promises.
- `SourceTests` (`source_tests.dfy`): the library's tests of the decimal-places and zeros forms, and two integer cases they leave out. The `round_sf` tests are stated in `SignificantFigures`.

Facts about the code that the model keeps:

- `round_sf` counts digits as characters of the float's text, the `-` sign included, and has no case for zero;
- `round_sf` exists only for `f32` and `f64`, and only rounds to nearest;
- the final `as` of the integer impls saturates at the bounds of the type;
- `digits - sig_figs` in `round_sf` and `-(zeros as i32)` in the zeros forms can overflow, which panics in a debug build.

## Model

| member | source | states |
|---|---|---|
| Powers.AsI32 | src/rounding/mod.rs:14 | `n as i32` for a `u32`: the result is in the i32 range, equals n modulo 2^32, and equals n exactly when n <= i32::MAX |
| Powers.Pow10RealOfNat | src/rounding/mod.rs:14 | `powi` with a natural exponent is the natural power 10^n |
| Powers.Pow10RealReciprocal | src/rounding/mod.rs:31 | `powi(-e)` is the reciprocal of `powi(e)` for every integer e |
| Policies.FloorToInt | src/rounding/mod.rs:185-187 | `floor` gives the greatest integer not above x |
| Policies.CeilToInt | src/rounding/mod.rs:181-183 | `ceil` gives the least integer not below x |
| Policies.RoundToInt | src/rounding/mod.rs:177-179 | `round` is within one half of x, and a tie goes away from zero |
| Policies.TruncToInt | src/rounding/mod.rs:189-191 | `trunc` drops the fraction toward zero, for either sign |
| Policies.WholeIsFixed | src/rounding/mod.rs:177-191 | a whole value is kept by floor, ceil, round and trunc |
| Policies.WholeIffTruncFixed | src/rounding/mod.rs:122 | `number == number.trunc()` holds exactly when the number has no fractional part |
| Policies.Unscale | src/rounding/mod.rs:178 | the final `/ power` of k lands on the grid, and scaling it back gives k |
| Policies.PolicyOrder | src/rounding/mod.rs:177-187 | floor <= round <= ceil; ceil and floor coincide on whole values and are 1 apart otherwise |
| Policies.PolicySymmetry | src/rounding/mod.rs:177-187 | round is odd; ceil(-x) = -floor(x) and floor(-x) = -ceil(x) |
| FloatRounding.ApplyRound | src/rounding/mod.rs:177-179 | `apply_round` (also `apply_round_zeros` for floats) gives a multiple of 1/power within half a step of x, with ties away from zero |
| FloatRounding.ApplyCeil | src/rounding/mod.rs:181-183 | `apply_ceil` gives a multiple of 1/power in [x, x + 1/power) |
| FloatRounding.ApplyFloor | src/rounding/mod.rs:185-187 | `apply_floor` gives a multiple of 1/power in (x - 1/power, x] |
| FloatRounding.DecimalPower | src/rounding/mod.rs:14 | the decimal-places scale is positive and is 10^n for n <= i32::MAX |
| FloatRounding.Round | src/rounding/mod.rs:13-16 | `round(x, n)` is a multiple of 10^-n within half a step of x, a tie going away from zero |
| FloatRounding.Ceil | src/rounding/mod.rs:47-50 | `ceil(x, n)` is a multiple of 10^-n in [x, x + 10^-n) |
| FloatRounding.Floor | src/rounding/mod.rs:81-84 | `floor(x, n)` is a multiple of 10^-n in (x - 10^-n, x] |
| FloatRounding.ZerosInRangeIffNegationFits | src/rounding/mod.rs:31 | the `zeros` arguments the model accepts are exactly those whose `-(zeros as i32)` fits in an `i32`; the one excluded, 2^31, panics in a debug build |
| FloatRounding.ZerosPower | src/rounding/mod.rs:31 | `powi(-(zeros as i32))` is positive, and its reciprocal is the step 10^(zeros as i32) |
| FloatRounding.RoundZeros | src/rounding/mod.rs:30-33 | `round_zeros` on a float is on the zeros grid, within half a step of x, a tie going away from zero |
| FloatRounding.CeilZeros | src/rounding/mod.rs:64-67 | `ceil_zeros` on a float is on the zeros grid, in [x, x + step) |
| FloatRounding.FloorZeros | src/rounding/mod.rs:98-101 | `floor_zeros` on a float is on the zeros grid, in (x - step, x] |
| FloatRounding.ApplyFixesGrid | src/rounding/mod.rs:177-187 | a value already on the grid is returned unchanged by all three policies |
| FloatRounding.ApplyRoundAt | src/rounding/mod.rs:177-179 | if k is strictly within one half of x * power, then `apply_round` returns k / power |
| FloatRounding.ApplyIdempotent | src/rounding/mod.rs:177-187 | rounding a rounded value again with the same scale changes nothing, for every policy |
| FloatRounding.ApplyOrder | src/rounding/mod.rs:177-187 | floor <= round <= ceil; ceil equals floor on the grid and exceeds it by exactly one step off it |
| FloatRounding.ApplySymmetry | src/rounding/mod.rs:177-187 | nearest rounding commutes with negation; ceil and floor swap under negation |
| FloatRounding.DecimalPlacesKeepWhole | src/rounding/mod.rs:13-84 | `round`, `ceil` and `floor` return whole numbers unchanged, for any number of places up to i32::MAX |
| FloatRounding.ZeroZerosIsZeroPlaces | src/rounding/mod.rs:13-33 | with 0 the zeros forms and the decimal-places forms coincide |
| FloatRounding.DecimalPlacesWrap | src/rounding/mod.rs:14 | u32::MAX decimal places wraps to exponent -1, the same as rounding to one zero |
| Multiples.FloorSteps | src/rounding/mod.rs:241-243 | reference: the greatest multiple of p not above x |
| Multiples.CeilSteps | src/rounding/mod.rs:237-239 | reference: the least multiple of p not below x |
| Multiples.NearestSteps | src/rounding/mod.rs:233-235 | reference: a multiple of p within p/2 of x, a tie going away from zero |
| Multiples.FloorStepUnique | src/rounding/mod.rs:241-243 | only one multiple satisfies the floor characterisation |
| Multiples.CeilStepUnique | src/rounding/mod.rs:237-239 | only one multiple satisfies the ceil characterisation |
| Multiples.NearestStepUnique | src/rounding/mod.rs:233-235 | only one multiple satisfies the nearest characterisation, including the tie rule |
| Multiples.StepsOfMultiple | src/rounding/mod.rs:232-342 | a multiple of p is kept by every policy |
| Multiples.StepOrder | src/rounding/mod.rs:232-342 | floor <= nearest <= ceil; ceil and floor coincide on multiples and are exactly one step apart otherwise |
| Multiples.StepsMonotone | src/rounding/mod.rs:232-342 | every policy is monotone in x |
| Multiples.StepsOfNegation | src/rounding/mod.rs:232-342 | nearest commutes with negation; ceil and floor swap under negation |
| IntegerRounding.KindRange | src/rounding/mod.rs:232-342 | each of the eight impl types has the bounds of its width: two's complement for `i8` to `i64`, all bits for `u8` to `u64` |
| IntegerRounding.Saturate | src/rounding/mod.rs:234 | the saturating half of `as T`: in-range values are kept, values past a bound become that bound |
| IntegerRounding.CastTo | src/rounding/mod.rs:234 | `v as T` always fits T and, for a whole v, is v clamped to T |
| IntegerRounding.ApplyRoundZeros | src/rounding/mod.rs:233-235 | `apply_round_zeros` of the integer impls always gives a value of the type |
| IntegerRounding.ApplyCeilZeros | src/rounding/mod.rs:237-239 | `apply_ceil_zeros` of the integer impls always gives a value of the type |
| IntegerRounding.ApplyFloorZeros | src/rounding/mod.rs:241-243 | `apply_floor_zeros` of the integer impls always gives a value of the type |
| IntegerRounding.RoundZeros | src/rounding/mod.rs:30-33 | `round_zeros` on an integer type always gives a value of the type |
| IntegerRounding.CeilZeros | src/rounding/mod.rs:64-67 | `ceil_zeros` on an integer type always gives a value of the type |
| IntegerRounding.FloorZeros | src/rounding/mod.rs:98-101 | `floor_zeros` on an integer type always gives a value of the type |
| IntegerRounding.RoundZerosIsNearest | src/rounding/mod.rs:233-235 | the scaled float computation gives exactly the reference nearest multiple of 10^z, clamped to the type |
| IntegerRounding.CeilZerosIsCeilMultiple | src/rounding/mod.rs:237-239 | the scaled float computation gives exactly the reference upward multiple of 10^z, clamped to the type |
| IntegerRounding.FloorZerosIsFloorMultiple | src/rounding/mod.rs:241-243 | the scaled float computation gives exactly the reference downward multiple of 10^z, clamped to the type |
| IntegerRounding.ZeroZerosKeepValue | src/rounding/mod.rs:316-327 | with 0 zeros every integer is returned unchanged by every policy |
| IntegerRounding.ZerosOrder | src/rounding/mod.rs:232-342 | floor_zeros <= x <= ceil_zeros and floor <= round <= ceil, also after saturation, for every integer type |
| IntegerRounding.RoundZerosHalfStep | src/rounding/mod.rs:330-333 | without saturation, `round_zeros` is a multiple of 10^z within half a step, with ties away from zero |
| IntegerRounding.ZerosKeepMultiple | src/rounding/mod.rs:232-342 | a multiple of 10^z inside the type is kept by every policy |
| IntegerRounding.ZerosIdempotent | src/rounding/mod.rs:232-342 | re-rounding a rounded integer with the same zeros returns it unchanged, even after saturation |
| IntegerRounding.WrappedZerosKeepValue | src/rounding/mod.rs:31 | past 2^31 `zeros as i32` wraps negative, so all three policies return the integer unchanged |
| DecimalText.DigitValue | src/rounding/mod.rs:193-195 | a digit character denotes 0 to 9, and 0 only for '0' |
| DecimalText.DigitsValue | src/rounding/mod.rs:193-195 | a digit string of length n denotes a number below 10^n, at least 10^(n-1) without a leading zero, and positive when its last digit is nonzero |
| DecimalText.FractionValue | src/rounding/mod.rs:193-195 | fraction digits denote a value in [0, 1), and a positive one when the last digit is nonzero |
| DecimalText.SignedWhole | src/rounding/mod.rs:130 | the text before the point is the whole digits, with a leading `-` that counts as one character; it holds no point |
| DecimalText.TextMarksFraction | src/rounding/mod.rs:193-195 | the `to_string` text starts with the signed whole digits and holds a point exactly when the value has a fractional part |
| DecimalText.CanonicalUnique | src/rounding/mod.rs:193-195 | at most one canonical numeral (no leading zeros, no trailing fraction zeros, no `-0`) denotes each value, so the text is fixed by the float as `to_string`'s is |
| DecimalText.Value | src/rounding/mod.rs:193-195 | the numeral is negative exactly when signed; without fraction digits it denotes its whole digits |
| DecimalText.WholeIffNoFraction | src/rounding/mod.rs:122 | the value is whole exactly when its text has no point |
| DecimalText.Split | src/rounding/mod.rs:130 | `split('.')` yields at least one piece, no piece holds the separator, and joining the pieces gives the text back |
| DecimalText.SplitJoin | src/rounding/mod.rs:130 | splitting joined separator-free pieces gives the pieces back |
| DecimalText.SplitAtPoint | src/rounding/mod.rs:130 | a fractional text splits into exactly the signed whole digits and the fraction digits |
| DecimalText.LeadingZeroDigits | src/rounding/mod.rs:135-138 | zeros at the front of a digit string do not change its value |
| SignificantFigures.CountedWholeDigits | src/rounding/mod.rs:124-138 | the digits `round_sf` counts before the point: the whole digits plus one for a `-`; a fraction below one counts 0, or 2 when negative (`-0`) |
| SignificantFigures.RoundSf | src/rounding/mod.rs:115-144 | `round_sf` overflows exactly when a whole value asks for more figures than its text has characters, or the wrapped `sig_figs` overflows the i32 sum; otherwise both branches round to the nearest multiple of 10^(w - sig_figs), where w is the character count of the whole part including any sign, the whole text for a whole value, and 0 for a whole part "0" |
| SignificantFigures.RoundSfWholeCase | src/rounding/tests.rs:61 | `round_sf(123456.0, 4) == 123500` |
| SignificantFigures.RoundSfFractionTwo | src/rounding/tests.rs:62 | `round_sf(123.456, 2) == 120` |
| SignificantFigures.RoundSfFractionThree | src/rounding/tests.rs:63 | `round_sf(123.456, 3) == 123` |
| SignificantFigures.RoundSfCorrected | src/rounding/mod.rs:115-144 | corrected `round_sf`: total, on the grid of 10^(magnitude - sig_figs), within half a step of x, a tie going away from zero |
| SignificantFigures.MagnitudeBounds | src/rounding/mod.rs:133-138 | the corrected digit count m satisfies 10^(m-1) <= abs(x) < 10^m for every nonzero x |
| SignificantFigures.CorrectedSignSymmetric | src/rounding/mod.rs:135-136 | the corrected rounding of -x is minus that of x |
| SignificantFigures.CorrectedKeepsShortWhole | src/rounding/mod.rs:124-127 | the corrected rounding returns a whole value unchanged when it has no more digits than the figures asked for |
| SignificantFigures.CorrectedZero | src/rounding/mod.rs:124-127 | the corrected rounding keeps 0 for every number of figures |
| SignificantFigures.CorrectedAgreesWithSource | src/rounding/mod.rs:115-144 | on non-negative values whose first significant digit the source counts correctly, and without overflow, the source gives the corrected result |
| SignificantFigures.SignCountedPositiveWhole | src/rounding/mod.rs:124 | as written, `round_sf(123456.0, 2) == 120000` |
| SignificantFigures.SignCountedNegativeWhole | src/rounding/mod.rs:124 | as written, `round_sf(-123456.0, 2) == -100000` |
| SignificantFigures.SignCountedNegativeFraction | src/rounding/mod.rs:135-136 | as written, `round_sf(-123.456, 2) == -100` |
| SignificantFigures.LeadingFractionZerosCounted | src/rounding/mod.rs:135-138 | as written, `round_sf(0.00123, 2) == 0` |
| SignificantFigures.ShortWholeOverflows | src/rounding/mod.rs:124-127 | as written, `round_sf(5.0, 2)` underflows `digits - sig_figs` |
| SignificantFigures.ZeroAsWritten | src/rounding/mod.rs:124-127 | as written, `round_sf(0.0, n)` is 0 for n <= 1 and underflows for n >= 2 |
| SignificantFigures.CorrectedNegativeWhole | src/rounding/mod.rs:124 | corrected: -123456 to two figures is -120000 |
| SignificantFigures.CorrectedLeadingFractionZeros | src/rounding/mod.rs:135-138 | corrected: 0.00123 to two figures is 0.0012 |
| SignificantFigures.CorrectedShortWhole | src/rounding/mod.rs:124-127 | corrected: 5 to two figures is 5 |
| SourceTests.FloatRoundCases | src/rounding/tests.rs:6-10 | the `round` tests, including the negative one |
| SourceTests.FloatCeilCases | src/rounding/tests.rs:23-27 | the `ceil` tests, including the negative one |
| SourceTests.FloatFloorCases | src/rounding/tests.rs:43-47 | the `floor` tests, including the negative one |
| SourceTests.FloatZerosCases | src/rounding/tests.rs:15-53 | the float `round_zeros`, `ceil_zeros` and `floor_zeros` tests |
| SourceTests.IntegerRoundZerosCases | src/rounding/tests.rs:17-18 | `round_zeros(123_i32, 2) == 100`, `round_zeros(12345_u64, 1) == 12350` |
| SourceTests.IntegerCeilZerosCases | src/rounding/tests.rs:34-37 | the integer `ceil_zeros` tests, including zero zeros and a negative input |
| SourceTests.IntegerFloorZerosCases | src/rounding/tests.rs:54-55 | `floor_zeros(156_i32, 2) == 100`, `floor_zeros(-12345_i64, 3) == -13000` |
| SourceTests.IntegerSaturationCase | src/rounding/mod.rs:293-295 | `ceil_zeros(250_u8, 2)`: 300 does not fit `u8`, so the cast saturates to 255 |
| SourceTests.IntegerLowerBoundCase | src/rounding/mod.rs:233-235 | `round_zeros(-128_i8, 2) == -100`: i8::MIN rounds to the nearest hundred |

## Left out

- Float arithmetic is exact. The model does not capture the rounding error of `x * power`, the inexact binary value of 10^-z, or the `power as f32` downcast of the `f32` impls (src/rounding/mod.rs:156, 206). `f32` and `f64` share one model.
- `powi` overflow: the model has no exponent range. A scale past about 10^308 becomes infinity or zero in `f64`, and the NaN results that follow are not modelled.
- NaN and infinity inputs are left out, and so is `as` mapping NaN to 0.
- `i64`/`u64` values beyond 2^53 lose precision in `self as f64`. The model converts them exactly.
- Rust's float `Display` algorithm is not modelled. `round_sf` takes the canonical numeral as its input instead. Negative zero, written "-0", is excluded.
- Release builds wrap on integer overflow where debug builds panic. The model follows the debug build: `RoundSf` returns `Overflow`, and `zeros == 2^31` is excluded by `ZerosInRange`.
- `s.len() as u32` truncation is not modelled: `RoundSf` requires a text of at most i32::MAX characters, far more than any float's text.
- IntegerRounding.ApplyRoundZeros: its contract states only that the result fits the type. `RoundZerosIsNearest` gives its value at the powers `round_zeros` passes. No value is stated for an arbitrary `power` passed to the public method.
- IntegerRounding.ApplyCeilZeros: its contract states only that the result fits the type. `CeilZerosIsCeilMultiple` gives its value at the powers `ceil_zeros` passes. No value is stated for an arbitrary `power`.
- IntegerRounding.ApplyFloorZeros: its contract states only that the result fits the type. `FloorZerosIsFloorMultiple` gives its value at the powers `floor_zeros` passes. No value is stated for an arbitrary `power`.
- IntegerRounding.RoundZeros: its contract states only that the result fits the type. `RoundZerosIsNearest` gives the value for zeros up to i32::MAX, and `WrappedZerosKeepValue` gives it past 2^31.
- IntegerRounding.CeilZeros: its contract states only that the result fits the type. `CeilZerosIsCeilMultiple` gives the value for zeros up to i32::MAX, and `WrappedZerosKeepValue` gives it past 2^31.
- IntegerRounding.FloorZeros: its contract states only that the result fits the type. `FloorZerosIsFloorMultiple` gives the value for zeros up to i32::MAX, and `WrappedZerosKeepValue` gives it past 2^31.
- `round_sf` on integer types (src/rounding/tests.rs:64-66) is left out: it does not compile, since only floats implement `Float`. The same goes for the commented-out `i128` cases.
- Two doc examples are not modelled: the `f32`/`f64` comparison at src/rounding/mod.rs:10, and `floor(123.454_f32, 2) == 123.454` at src/rounding/mod.rs:78, which the tests contradict.
- `src/lib.rs` only declares the module and is not part of this model.

## Findings

All rows come from `round_sf`. The corrected definition is `SignificantFigures.RoundSfCorrected`. It counts the figures from the leading significant digit of the unsigned value. It agrees with the code wherever the code counts correctly (`CorrectedAgreesWithSource`).

| source | as written | input that shows it | evidently intended | confidence | as-written member | corrected member |
|---|---|---|---|---|---|---|
| src/rounding/mod.rs:124 | the `-` sign of a whole value counts as a digit | `round_sf(-123456.0, 2)` gives -100000, while `round_sf(123456.0, 2)` gives 120000 | -120000, as src/rounding/tests.rs:66 expects | not executed | SignificantFigures.SignCountedNegativeWhole | SignificantFigures.CorrectedSignSymmetric |
| src/rounding/mod.rs:135-136 | "-123" is not "0", so the sign counts in the fractional branch too | `round_sf(-123.456, 2)` gives -100 | -120 | not executed | SignificantFigures.SignCountedNegativeFraction | SignificantFigures.CorrectedSignSymmetric |
| src/rounding/mod.rs:135-138 | zeros that open a fraction below one count as significant figures | `round_sf(0.00123, 2)` gives 0 | 0.0012 | not executed | SignificantFigures.LeadingFractionZerosCounted | SignificantFigures.MagnitudeBounds |
| src/rounding/mod.rs:124-127 | `digits - sig_figs` underflows when a whole value has fewer characters than the figures asked for | `round_sf(5.0, 2)` and `round_sf(0.0, 2)` panic in a debug build | 5 and 0 | not executed | SignificantFigures.ShortWholeOverflows | SignificantFigures.CorrectedKeepsShortWhole |
