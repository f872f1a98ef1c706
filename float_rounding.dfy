/** Rounding of floating-point values (f32 and f64) to decimal places and to
    zeros.

    Every operation multiplies by a power of ten, applies a policy and
    divides by the same power. Floats are modelled as exact rationals, so
    the model has no representation error and f32 behaves like f64.
    `Float::apply_*` and `Roundable::apply_*_zeros` have the same body for
    both float widths, so one function models each policy for all four.
 */
module FloatRounding {
  import opened Powers
  import opened Policies

  /** `apply_round(self, power)`: `(self * power).round() / power`. The
      result is the multiple of 1/power nearest to x, a tie going away from
      zero. */
  function ApplyRound(x: real, power: real): (r: real)
    requires power > 0.0
    ensures OnGrid(r, power)
    ensures x - 0.5 / power <= r <= x + 0.5 / power
    ensures r == x + 0.5 / power ==> x > 0.0
    ensures r == x - 0.5 / power ==> x < 0.0
  {
    ScaleBack(x, RoundToInt(x * power) as real, power, 0.5);
    Unscale(RoundToInt(x * power), power)
  }

  /** `apply_ceil(self, power)`: `(self * power).ceil() / power`, the least
      multiple of 1/power not below x. */
  function ApplyCeil(x: real, power: real): (r: real)
    requires power > 0.0
    ensures OnGrid(r, power)
    ensures x <= r < x + 1.0 / power
  {
    ScaleBack(x, CeilToInt(x * power) as real, power, 1.0);
    Unscale(CeilToInt(x * power), power)
  }

  /** `apply_floor(self, power)`: `(self * power).floor() / power`, the
      greatest multiple of 1/power not above x. */
  function ApplyFloor(x: real, power: real): (r: real)
    requires power > 0.0
    ensures OnGrid(r, power)
    ensures x - 1.0 / power < r <= x
  {
    ScaleBack(x, FloorToInt(x * power) as real, power, 1.0);
    Unscale(FloorToInt(x * power), power)
  }

  /** Dividing a bound on the scaled value by the scale bounds the result. */
  lemma ScaleBack(x: real, k: real, power: real, d: real)
    requires power > 0.0
    ensures x * power <= k ==> x <= k / power
    ensures k <= x * power ==> k / power <= x
    ensures x * power - d <= k ==> x - d / power <= k / power
    ensures x * power - d < k ==> x - d / power < k / power
    ensures k <= x * power + d ==> k / power <= x + d / power
    ensures k < x * power + d ==> k / power < x + d / power
    ensures k == x * power + d <==> k / power == x + d / power
    ensures k == x * power - d <==> k / power == x - d / power
  {
  }

  /** The scale of the decimal-places forms, `10_f64.powi(decimal_places as
      i32)`: 10^decimal_places up to i32::MAX, a negative power past it. */
  function DecimalPower(decimalPlaces: nat): (power: real)
    requires decimalPlaces < U32Limit
    ensures power > 0.0
    ensures decimalPlaces <= MaxPrecision ==> power == Pow10Real(decimalPlaces)
  {
    Pow10Real(AsI32(decimalPlaces))
  }

  /** `round(number, decimal_places)`: the nearest multiple of
      10^-decimal_places. */
  function Round(x: real, decimalPlaces: nat): (r: real)
    requires decimalPlaces < U32Limit
    ensures OnGrid(r, DecimalPower(decimalPlaces))
    ensures x - 0.5 / DecimalPower(decimalPlaces) <= r <= x + 0.5 / DecimalPower(decimalPlaces)
    ensures r == x + 0.5 / DecimalPower(decimalPlaces) ==> x > 0.0
    ensures r == x - 0.5 / DecimalPower(decimalPlaces) ==> x < 0.0
  {
    ApplyRound(x, DecimalPower(decimalPlaces))
  }

  /** `ceil(number, decimal_places)`: the least multiple of
      10^-decimal_places not below x. */
  function Ceil(x: real, decimalPlaces: nat): (r: real)
    requires decimalPlaces < U32Limit
    ensures OnGrid(r, DecimalPower(decimalPlaces))
    ensures x <= r < x + 1.0 / DecimalPower(decimalPlaces)
  {
    ApplyCeil(x, DecimalPower(decimalPlaces))
  }

  /** `floor(number, decimal_places)`: the greatest multiple of
      10^-decimal_places not above x. */
  function Floor(x: real, decimalPlaces: nat): (r: real)
    requires decimalPlaces < U32Limit
    ensures OnGrid(r, DecimalPower(decimalPlaces))
    ensures x - 1.0 / DecimalPower(decimalPlaces) < r <= x
  {
    ApplyFloor(x, DecimalPower(decimalPlaces))
  }

  /** A zeros argument whose `-(zeros as i32)` does not overflow: every `u32`
      but 2^31, which `as i32` maps to i32::MIN. */
  predicate ZerosInRange(zeros: nat) {
    zeros < U32Limit && zeros != 0x8000_0000
  }

  /** These are exactly the `u32` values whose `-(zeros as i32)` fits in
      an `i32`. */
  lemma ZerosInRangeIffNegationFits(zeros: nat)
    requires zeros < U32Limit
    ensures ZerosInRange(zeros) <==> -0x8000_0000 <= -AsI32(zeros) <= MaxPrecision
  {
  }

  /** The scale of the zeros forms, `10_f64.powi(-(zeros as i32))`: one step
      is 10^zeros up to i32::MAX. */
  function ZerosPower(zeros: nat): (power: real)
    requires ZerosInRange(zeros)
    ensures power > 0.0
    ensures 1.0 / power == Pow10Real(AsI32(zeros))
    ensures zeros <= MaxPrecision ==> 1.0 / power == Pow10Real(zeros)
  {
    Pow10RealReciprocal(AsI32(zeros));
    Pow10Real(-AsI32(zeros))
  }

  /** `round_zeros(number, zeros)` on a float: the nearest multiple of
      10^zeros. */
  function RoundZeros(x: real, zeros: nat): (r: real)
    requires ZerosInRange(zeros)
    ensures OnGrid(r, ZerosPower(zeros))
    ensures x - 0.5 * Pow10Real(AsI32(zeros)) <= r <= x + 0.5 * Pow10Real(AsI32(zeros))
    ensures r == x + 0.5 * Pow10Real(AsI32(zeros)) ==> x > 0.0
    ensures r == x - 0.5 * Pow10Real(AsI32(zeros)) ==> x < 0.0
  {
    HalfStep(ZerosPower(zeros), Pow10Real(AsI32(zeros)));
    ApplyRound(x, ZerosPower(zeros))
  }

  /** `ceil_zeros(number, zeros)` on a float: the least multiple of 10^zeros
      not below x. */
  function CeilZeros(x: real, zeros: nat): (r: real)
    requires ZerosInRange(zeros)
    ensures OnGrid(r, ZerosPower(zeros))
    ensures x <= r < x + Pow10Real(AsI32(zeros))
  {
    ApplyCeil(x, ZerosPower(zeros))
  }

  /** `floor_zeros(number, zeros)` on a float: the greatest multiple of
      10^zeros not above x. */
  function FloorZeros(x: real, zeros: nat): (r: real)
    requires ZerosInRange(zeros)
    ensures OnGrid(r, ZerosPower(zeros))
    ensures x - Pow10Real(AsI32(zeros)) < r <= x
  {
    ApplyFloor(x, ZerosPower(zeros))
  }

  lemma HalfStep(power: real, step: real)
    requires power > 0.0 && 1.0 / power == step
    ensures 0.5 / power == 0.5 * step
  {
  }

  /** A value already on the grid is returned unchanged by every policy:
      the result is on the same grid and less than one step away. */
  lemma ApplyFixesGrid(x: real, power: real)
    requires power > 0.0 && OnGrid(x, power)
    ensures ApplyRound(x, power) == x
    ensures ApplyCeil(x, power) == x
    ensures ApplyFloor(x, power) == x
  {
    StepBelowOne(power);
    GridNear(x, ApplyRound(x, power), power);
    GridNear(x, ApplyCeil(x, power), power);
    GridNear(x, ApplyFloor(x, power), power);
  }

  lemma StepBelowOne(power: real)
    requires power > 0.0
    ensures 0.5 / power < 1.0 / power
  {
  }

  /** Two points of one grid less than a step apart coincide. */
  lemma GridNear(x: real, r: real, power: real)
    requires power > 0.0 && OnGrid(x, power) && OnGrid(r, power)
    requires x - 1.0 / power < r < x + 1.0 / power
    ensures r == x
  {
    var m, n := (x * power).Floor, (r * power).Floor;
    ScaleUp(x, r, power);
    assert n == m;
  }

  /** Nearest rounding is pinned down by the integer nearest to the scaled
      value: when k is strictly within half of x * power, the result is
      k / power. */
  lemma ApplyRoundAt(x: real, power: real, k: int)
    requires power > 0.0
    requires k as real - 0.5 < x * power < k as real + 0.5
    ensures ApplyRound(x, power) == k as real / power
  {
    var q := Unscale(k, power);
    ScaleBack(x, k as real, power, 0.5);
    HalvesMakeStep(power);
    GridNear(q, ApplyRound(x, power), power);
  }

  lemma HalvesMakeStep(power: real)
    requires power > 0.0
    ensures 0.5 / power + 0.5 / power == 1.0 / power
  {
  }

  /** Multiplying a bound by the scale. */
  lemma ScaleUp(x: real, r: real, power: real)
    requires power > 0.0
    requires x - 1.0 / power < r < x + 1.0 / power
    ensures x * power - 1.0 < r * power < x * power + 1.0
  {
  }

  /** An integer is on the grid of every whole scale. */
  lemma IntegerOnWholeGrid(x: int, b: nat, power: real)
    requires power == b as real
    ensures OnGrid(x as real, power)
  {
    assert x as real * power == (x * b) as real;
  }

  /** Rounding an already rounded value with the same scale returns it
      unchanged, for every policy. */
  lemma ApplyIdempotent(x: real, power: real)
    requires power > 0.0
    ensures ApplyRound(ApplyRound(x, power), power) == ApplyRound(x, power)
    ensures ApplyCeil(ApplyCeil(x, power), power) == ApplyCeil(x, power)
    ensures ApplyFloor(ApplyFloor(x, power), power) == ApplyFloor(x, power)
  {
    ApplyFixesGrid(ApplyRound(x, power), power);
    ApplyFixesGrid(ApplyCeil(x, power), power);
    ApplyFixesGrid(ApplyFloor(x, power), power);
  }

  /** Nearest rounding lies between floor and ceiling, and those two are
      equal exactly when x is on the grid and one step apart otherwise. */
  lemma ApplyOrder(x: real, power: real)
    requires power > 0.0
    ensures ApplyFloor(x, power) <= ApplyRound(x, power) <= ApplyCeil(x, power)
    ensures OnGrid(x, power) ==> ApplyCeil(x, power) == ApplyFloor(x, power)
    ensures !OnGrid(x, power) ==> ApplyCeil(x, power) == ApplyFloor(x, power) + 1.0 / power
  {
    var f, k, c := FloorToInt(x * power), RoundToInt(x * power), CeilToInt(x * power);
    PolicyOrder(x * power);
    DivideMonotone(f as real, k as real, power);
    DivideMonotone(k as real, c as real, power);
    if !OnGrid(x, power) {
      assert c == f + 1;
      DivideStep(f as real, power);
    }
  }

  lemma DivideMonotone(a: real, b: real, power: real)
    requires power > 0.0 && a <= b
    ensures a / power <= b / power
  {
  }

  lemma DivideStep(a: real, power: real)
    requires power > 0.0
    ensures (a + 1.0) / power == a / power + 1.0 / power
  {
  }

  /** Ties away from zero make nearest rounding odd-symmetric; ceiling and
      floor trade places under negation. */
  lemma ApplySymmetry(x: real, power: real)
    requires power > 0.0
    ensures ApplyRound(-x, power) == -ApplyRound(x, power)
    ensures ApplyCeil(-x, power) == -ApplyFloor(x, power)
    ensures ApplyFloor(-x, power) == -ApplyCeil(x, power)
  {
    assert (-x) * power == -(x * power);
    PolicySymmetry(x * power);
    NegateQuotient(RoundToInt(x * power) as real, power);
    NegateQuotient(FloorToInt(x * power) as real, power);
    NegateQuotient(CeilToInt(x * power) as real, power);
  }

  lemma NegateQuotient(a: real, power: real)
    requires power > 0.0
    ensures (-a) / power == -(a / power)
  {
  }

  /** A whole number is on the grid of every decimal-places scale, so
      `round`, `ceil` and `floor` return whole inputs unchanged. */
  lemma DecimalPlacesKeepWhole(x: real, decimalPlaces: nat)
    requires decimalPlaces <= MaxPrecision && IsWhole(x)
    ensures Round(x, decimalPlaces) == x
    ensures Ceil(x, decimalPlaces) == x
    ensures Floor(x, decimalPlaces) == x
  {
    var m, q := x.Floor, Pow10(decimalPlaces);
    Pow10RealOfNat(decimalPlaces);
    assert x * Pow10Real(decimalPlaces) == (m * q) as real;
    UnscaleOnGrid(m * q, Pow10Real(decimalPlaces), x);
    ApplyFixesGrid(x, Pow10Real(decimalPlaces));
  }

  /** With zero zeros the zeros forms and the decimal-places forms with zero
      places coincide: both use scale 1 and keep whole inputs. */
  lemma ZeroZerosIsZeroPlaces(x: real)
    ensures RoundZeros(x, 0) == Round(x, 0)
    ensures CeilZeros(x, 0) == Ceil(x, 0)
    ensures FloorZeros(x, 0) == Floor(x, 0)
  {
    assert ZerosPower(0) == 1.0 == Pow10Real(0);
  }

  /** `decimal_places as i32` wraps past i32::MAX: u32::MAX decimal places
      is the exponent -1, the same scale as one zero. */
  lemma DecimalPlacesWrap(x: real)
    ensures Round(x, 0xFFFF_FFFF) == RoundZeros(x, 1)
    ensures Ceil(x, 0xFFFF_FFFF) == CeilZeros(x, 1)
    ensures Floor(x, 0xFFFF_FFFF) == FloorZeros(x, 1)
  {
    assert DecimalPower(0xFFFF_FFFF) == Pow10Real(-1) == ZerosPower(1);
  }
}
