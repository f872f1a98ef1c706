/** The three rounding policies of the library, as the standard library's
    `f64::round`, `f64::ceil` and `f64::floor` apply them to the scaled value,
    plus `f64::trunc`, which the library uses to tell whole numbers apart and
    which Rust's float-to-integer `as` applies before narrowing.

    Floats are modelled as exact rationals (`real`), so every operation here is
    the exact mathematical one.
 */
module Policies {

  /** `x == x.trunc()`: the value has no fractional part. */
  predicate IsWhole(x: real) {
    x == x.Floor as real
  }

  /** `f64::floor`: the largest integer not above x. */
  function FloorToInt(x: real): (k: int)
    ensures k as real <= x < k as real + 1.0
  {
    x.Floor
  }

  /** `f64::ceil`: the smallest integer not below x. */
  function CeilToInt(x: real): (k: int)
    ensures x <= k as real < x + 1.0
  {
    -((-x).Floor)
  }

  /** `f64::round`: the nearest integer, a tie going away from zero. */
  function RoundToInt(x: real): (k: int)
    ensures x - 0.5 <= k as real <= x + 0.5
    ensures k as real == x + 0.5 ==> x > 0.0
    ensures k as real == x - 0.5 ==> x < 0.0
  {
    if x >= 0.0 then (x + 0.5).Floor else -((-x + 0.5).Floor)
  }

  /** `f64::trunc`: drop the fractional part, moving toward zero. */
  function TruncToInt(x: real): (k: int)
    ensures x >= 0.0 ==> 0 <= k && k as real <= x < k as real + 1.0
    ensures x < 0.0 ==> k <= 0 && k as real - 1.0 < x <= k as real
  {
    if x >= 0.0 then x.Floor else -((-x).Floor)
  }

  /** A whole value is left as it is by every policy. */
  lemma WholeIsFixed(x: real)
    requires IsWhole(x)
    ensures FloorToInt(x) as real == x
    ensures CeilToInt(x) as real == x
    ensures RoundToInt(x) as real == x
    ensures TruncToInt(x) as real == x
  {
    var n := x.Floor;
    assert (-x).Floor == -n;
    if x >= 0.0 {
      assert (x + 0.5).Floor == n;
    } else {
      assert (-x + 0.5).Floor == -n;
    }
  }

  /** The source tests wholeness as `number == number.trunc()`, which is
      the same as having no fractional part. */
  lemma WholeIffTruncFixed(x: real)
    ensures IsWhole(x) <==> TruncToInt(x) as real == x
  {
    if IsWhole(x) {
      WholeIsFixed(x);
    }
  }

  /** `r` is a whole number of steps of size 1/power: `r * power` is whole.
      Decimal places use power = 10^n (steps of 10^-n), zeros use
      power = 10^-z (steps of 10^z). */
  predicate OnGrid(r: real, power: real) {
    IsWhole(r * power)
  }

  /** The source's final `/ power`: k steps of size 1/power. */
  function Unscale(k: int, power: real): (r: real)
    requires power > 0.0
    ensures OnGrid(r, power)
    ensures r * power == k as real
  {
    UnscaleOnGrid(k, power, k as real / power);
    k as real / power
  }

  lemma UnscaleOnGrid(k: int, power: real, r: real)
    requires power > 0.0 && r == k as real / power
    ensures OnGrid(r, power)
  {
    assert r * power == k as real;
    assert (r * power).Floor == k;
  }

  /** Nearest rounding lies between the downward and the upward one, and
      those two are equal or one apart. */
  lemma PolicyOrder(x: real)
    ensures FloorToInt(x) <= RoundToInt(x) <= CeilToInt(x)
    ensures CeilToInt(x) - FloorToInt(x) == (if IsWhole(x) then 0 else 1)
  {
  }

  /** Ties away from zero make nearest rounding odd-symmetric; ceiling and
      floor trade places under negation. */
  lemma PolicySymmetry(x: real)
    ensures RoundToInt(-x) == -RoundToInt(x)
    ensures CeilToInt(-x) == -FloorToInt(x)
    ensures FloorToInt(-x) == -CeilToInt(x)
  {
  }
}
