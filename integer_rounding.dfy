/** Rounding of the primitive integer types (i8 to i64, u8 to u64) to zeros.

    Every integer impl of `Roundable` converts the value to f64, scales it
    by `power`, applies the policy, scales back and converts to the integer
    type with Rust's `as`, which drops the fraction and saturates at the
    bounds of the type. The eight impls differ only in that target type, so
    one function per policy takes the type as a `Kind`.
 */
module IntegerRounding {
  import opened Powers
  import opened Policies
  import FloatRounding
  import opened Multiples

  /** The eight primitive integer types that implement `Roundable`. */
  datatype Kind = I8 | I16 | I32 | I64 | U8 | U16 | U32 | U64
  {
    function Min(): int {
      match this
      case I8 => -0x80
      case I16 => -0x8000
      case I32 => -0x8000_0000
      case I64 => -0x8000_0000_0000_0000
      case U8 | U16 | U32 | U64 => 0
    }

    function Max(): int {
      match this
      case I8 => 0x7F
      case I16 => 0x7FFF
      case I32 => 0x7FFF_FFFF
      case I64 => 0x7FFF_FFFF_FFFF_FFFF
      case U8 => 0xFF
      case U16 => 0xFFFF
      case U32 => 0xFFFF_FFFF
      case U64 => 0xFFFF_FFFF_FFFF_FFFF
    }

    predicate Contains(v: int) {
      Min() <= v <= Max()
    }

    /** The width of the type in bits. */
    function Bits(): (n: nat)
      ensures n >= 8
    {
      match this
      case I8 | U8 => 8
      case I16 | U16 => 16
      case I32 | U32 => 32
      case I64 | U64 => 64
    }

    predicate Signed() {
      this in {I8, I16, I32, I64}
    }
  }

  function Pow2(n: nat): (r: nat)
    ensures r >= 1
  {
    if n == 0 then 1 else 2 * Pow2(n - 1)
  }

  /** The bounds of each type are those of its width: two's complement for
      the signed types, all bits for the unsigned ones. */
  lemma KindRange(k: Kind)
    ensures k.Signed() ==> k.Min() == -(Pow2(k.Bits() - 1) as int) && k.Max() == Pow2(k.Bits() - 1) - 1
    ensures !k.Signed() ==> k.Min() == 0 && k.Max() == Pow2(k.Bits()) - 1
  {
    Pow2Widths();
  }

  lemma Pow2Widths()
    ensures Pow2(7) == 0x80 && Pow2(8) == 0x100
    ensures Pow2(15) == 0x8000 && Pow2(16) == 0x1_0000
    ensures Pow2(31) == 0x8000_0000 && Pow2(32) == 0x1_0000_0000
    ensures Pow2(63) == 0x8000_0000_0000_0000 && Pow2(64) == 0x1_0000_0000_0000_0000
  {
    assert Pow2(7) == 0x80 && Pow2(8) == 0x100;
    Pow2Add(7, 8);
    Pow2Add(8, 8);
    Pow2Add(15, 16);
    Pow2Add(16, 16);
    Pow2Add(31, 32);
    Pow2Add(32, 32);
  }

  lemma {:induction false} Pow2Add(a: nat, b: nat)
    ensures Pow2(a + b) == Pow2(a) * Pow2(b)
  {
    if a > 0 {
      Pow2Add(a - 1, b);
      assert Pow2(a + b) == 2 * Pow2(a - 1 + b);
    }
  }

  /** Clamping to the range of the type, the saturating half of `as`. */
  function Saturate(k: Kind, v: int): (r: int)
    ensures k.Contains(r)
    ensures k.Contains(v) ==> r == v
    ensures v < k.Min() ==> r == k.Min()
    ensures v > k.Max() ==> r == k.Max()
  {
    if v < k.Min() then k.Min() else if v > k.Max() then k.Max() else v
  }

  /** `v as T` for a float v: truncate toward zero, then saturate. */
  function CastTo(k: Kind, v: real): (r: int)
    ensures k.Contains(r)
    ensures IsWhole(v) ==> r == Saturate(k, v.Floor)
  {
    if IsWhole(v) then
      WholeIsFixed(v);
      Saturate(k, TruncToInt(v))
    else
      Saturate(k, TruncToInt(v))
  }

  /** `apply_round_zeros` of the integer impls. */
  function ApplyRoundZeros(k: Kind, x: int, power: real): (r: int)
    requires k.Contains(x) && power > 0.0
    ensures k.Contains(r)
  {
    CastTo(k, FloatRounding.ApplyRound(x as real, power))
  }

  /** `apply_ceil_zeros` of the integer impls. */
  function ApplyCeilZeros(k: Kind, x: int, power: real): (r: int)
    requires k.Contains(x) && power > 0.0
    ensures k.Contains(r)
  {
    CastTo(k, FloatRounding.ApplyCeil(x as real, power))
  }

  /** `apply_floor_zeros` of the integer impls. */
  function ApplyFloorZeros(k: Kind, x: int, power: real): (r: int)
    requires k.Contains(x) && power > 0.0
    ensures k.Contains(r)
  {
    CastTo(k, FloatRounding.ApplyFloor(x as real, power))
  }

  /** `round_zeros(number, zeros)` on an integer type. */
  function RoundZeros(k: Kind, x: int, zeros: nat): (r: int)
    requires k.Contains(x) && FloatRounding.ZerosInRange(zeros)
    ensures k.Contains(r)
  {
    ApplyRoundZeros(k, x, FloatRounding.ZerosPower(zeros))
  }

  /** `ceil_zeros(number, zeros)` on an integer type. */
  function CeilZeros(k: Kind, x: int, zeros: nat): (r: int)
    requires k.Contains(x) && FloatRounding.ZerosInRange(zeros)
    ensures k.Contains(r)
  {
    ApplyCeilZeros(k, x, FloatRounding.ZerosPower(zeros))
  }

  /** `floor_zeros(number, zeros)` on an integer type. */
  function FloorZeros(k: Kind, x: int, zeros: nat): (r: int)
    requires k.Contains(x) && FloatRounding.ZerosInRange(zeros)
    ensures k.Contains(r)
  {
    ApplyFloorZeros(k, x, FloatRounding.ZerosPower(zeros))
  }

  /** A point of the grid of scale 1/p is a whole number of steps p. */
  lemma GridSteps(r: real, power: real, p: nat) returns (m: int)
    requires power > 0.0 && 1.0 / power == p as real && OnGrid(r, power)
    ensures r == (m * p) as real
  {
    m := (r * power).Floor;
    assert r * power == m as real;
    Rescale(r, power, p as real, m as real);
    assert (m * p) as real == m as real * p as real;
  }

  lemma Rescale(r: real, power: real, p: real, m: real)
    requires power > 0.0 && 1.0 / power == p && r * power == m
    ensures r == m * p
  {
    assert r == (r * power) * (1.0 / power);
  }

  /** The scaled float computation picks the reference multiple, before the
      final cast saturates it. */
  lemma RoundZerosIsNearest(k: Kind, x: int, zeros: nat)
    requires k.Contains(x) && zeros <= MaxPrecision
    ensures RoundZeros(k, x, zeros) == Saturate(k, NearestSteps(x, Pow10(zeros)) * Pow10(zeros))
  {
    var p, power := Pow10(zeros), FloatRounding.ZerosPower(zeros);
    Pow10RealOfNat(zeros);
    var r := FloatRounding.ApplyRound(x as real, power);
    var m := GridSteps(r, power, p);
    FloatRounding.HalfStep(power, p as real);
    NearestFromBounds(x, p, m, r);
    NearestStepUnique(x, p, m, NearestSteps(x, p));
  }

  lemma NearestFromBounds(x: int, p: nat, m: int, r: real)
    requires r == (m * p) as real
    requires x as real - 0.5 * p as real <= r <= x as real + 0.5 * p as real
    requires r == x as real + 0.5 * p as real ==> x > 0
    requires r == x as real - 0.5 * p as real ==> x < 0
    ensures IsNearestStep(x, p, m)
  {
  }

  lemma CeilZerosIsCeilMultiple(k: Kind, x: int, zeros: nat)
    requires k.Contains(x) && zeros <= MaxPrecision
    ensures CeilZeros(k, x, zeros) == Saturate(k, CeilSteps(x, Pow10(zeros)) * Pow10(zeros))
  {
    var p, power := Pow10(zeros), FloatRounding.ZerosPower(zeros);
    Pow10RealOfNat(zeros);
    var r := FloatRounding.ApplyCeil(x as real, power);
    var m := GridSteps(r, power, p);
    assert IsCeilStep(x, p, m);
    CeilStepUnique(x, p, m, CeilSteps(x, p));
  }

  lemma FloorZerosIsFloorMultiple(k: Kind, x: int, zeros: nat)
    requires k.Contains(x) && zeros <= MaxPrecision
    ensures FloorZeros(k, x, zeros) == Saturate(k, FloorSteps(x, Pow10(zeros)) * Pow10(zeros))
  {
    var p, power := Pow10(zeros), FloatRounding.ZerosPower(zeros);
    Pow10RealOfNat(zeros);
    var r := FloatRounding.ApplyFloor(x as real, power);
    var m := GridSteps(r, power, p);
    assert IsFloorStep(x, p, m);
    FloorStepUnique(x, p, m, FloorSteps(x, p));
  }

  /** Clamping is monotone. */
  lemma SaturateMonotone(k: Kind, a: int, b: int)
    requires a <= b
    ensures Saturate(k, a) <= Saturate(k, b)
  {
  }

  lemma MulMonotone(a: int, b: int, p: nat)
    requires a <= b
    ensures a * p <= b * p
  {
    if a < b {
      StepGap(a, b, p);
    }
  }

  /** Rounding the clamped result s = Saturate(q * p) again gives s back,
      when the policy keeps multiples (q2 == q) and is monotone. */
  lemma ClampedAgain(k: Kind, x: int, p: nat, q: int, s: int, q2: int)
    requires k.Contains(x) && s == Saturate(k, q * p)
    requires k.Contains(q * p) ==> q2 == q
    requires x <= s ==> q <= q2
    requires s <= x ==> q2 <= q
    ensures Saturate(k, q2 * p) == s
  {
    if q * p > k.Max() {
      MulMonotone(q, q2, p);
    } else if q * p < k.Min() {
      MulMonotone(q2, q, p);
    }
  }

  /** With zero zeros the step is 1 and every integer is kept. */
  lemma ZeroZerosKeepValue(k: Kind, x: int)
    requires k.Contains(x)
    ensures RoundZeros(k, x, 0) == x
    ensures CeilZeros(k, x, 0) == x
    ensures FloorZeros(k, x, 0) == x
  {
    RoundZerosIsNearest(k, x, 0);
    CeilZerosIsCeilMultiple(k, x, 0);
    FloorZerosIsFloorMultiple(k, x, 0);
    assert x * 1 == x;
    StepsOfMultiple(x, 1);
  }

  /** Rounding down stays at or below the input and rounding up at or
      above it, also after the cast saturates; nearest rounding lies
      between the two. */
  lemma ZerosOrder(k: Kind, x: int, zeros: nat)
    requires k.Contains(x) && zeros <= MaxPrecision
    ensures FloorZeros(k, x, zeros) <= x <= CeilZeros(k, x, zeros)
    ensures FloorZeros(k, x, zeros) <= RoundZeros(k, x, zeros) <= CeilZeros(k, x, zeros)
  {
    var p := Pow10(zeros);
    RoundZerosIsNearest(k, x, zeros);
    CeilZerosIsCeilMultiple(k, x, zeros);
    FloorZerosIsFloorMultiple(k, x, zeros);
    var f, n, c := FloorSteps(x, p), NearestSteps(x, p), CeilSteps(x, p);
    StepOrder(x, p);
    MulMonotone(f, n, p);
    MulMonotone(n, c, p);
    SaturateMonotone(k, f * p, n * p);
    SaturateMonotone(k, n * p, c * p);
    SaturateMonotone(k, f * p, x);
    SaturateMonotone(k, x, c * p);
  }

  /** When the nearest multiple fits the type, `round_zeros` returns a
      multiple of 10^zeros at most half a step from the input, a tie going
      away from zero. */
  lemma RoundZerosHalfStep(k: Kind, x: int, zeros: nat)
    requires k.Contains(x) && zeros <= MaxPrecision
    requires k.Contains(NearestSteps(x, Pow10(zeros)) * Pow10(zeros))
    ensures RoundZeros(k, x, zeros) % Pow10(zeros) == 0
    ensures 2 * (RoundZeros(k, x, zeros) - x) <= Pow10(zeros)
    ensures 2 * (x - RoundZeros(k, x, zeros)) <= Pow10(zeros)
    ensures 2 * (RoundZeros(k, x, zeros) - x) == Pow10(zeros) ==> x > 0
    ensures 2 * (x - RoundZeros(k, x, zeros)) == Pow10(zeros) ==> x < 0
  {
    RoundZerosIsNearest(k, x, zeros);
    MultipleHasNoRemainder(NearestSteps(x, Pow10(zeros)), Pow10(zeros));
  }

  /** A multiple of 10^zeros is returned unchanged by every policy. */
  lemma ZerosKeepMultiple(k: Kind, q: int, zeros: nat)
    requires k.Contains(q * Pow10(zeros)) && zeros <= MaxPrecision
    ensures RoundZeros(k, q * Pow10(zeros), zeros) == q * Pow10(zeros)
    ensures CeilZeros(k, q * Pow10(zeros), zeros) == q * Pow10(zeros)
    ensures FloorZeros(k, q * Pow10(zeros), zeros) == q * Pow10(zeros)
  {
    var p := Pow10(zeros);
    RoundZerosIsNearest(k, q * p, zeros);
    CeilZerosIsCeilMultiple(k, q * p, zeros);
    FloorZerosIsFloorMultiple(k, q * p, zeros);
    StepsOfMultiple(q, p);
  }

  /** Rounding an already rounded integer again changes nothing, even when
      the first rounding saturated at a bound of the type. */
  lemma ZerosIdempotent(k: Kind, x: int, zeros: nat)
    requires k.Contains(x) && zeros <= MaxPrecision
    ensures RoundZeros(k, RoundZeros(k, x, zeros), zeros) == RoundZeros(k, x, zeros)
    ensures CeilZeros(k, CeilZeros(k, x, zeros), zeros) == CeilZeros(k, x, zeros)
    ensures FloorZeros(k, FloorZeros(k, x, zeros), zeros) == FloorZeros(k, x, zeros)
  {
    var p := Pow10(zeros);
    var sn, sc, sf := RoundZeros(k, x, zeros), CeilZeros(k, x, zeros), FloorZeros(k, x, zeros);
    RoundZerosIsNearest(k, x, zeros);
    RoundZerosIsNearest(k, sn, zeros);
    CeilZerosIsCeilMultiple(k, x, zeros);
    CeilZerosIsCeilMultiple(k, sc, zeros);
    FloorZerosIsFloorMultiple(k, x, zeros);
    FloorZerosIsFloorMultiple(k, sf, zeros);
    StepsOfMultiple(NearestSteps(x, p), p);
    StepsOfMultiple(CeilSteps(x, p), p);
    StepsOfMultiple(FloorSteps(x, p), p);
    EitherOrder(x, sn, p);
    EitherOrder(x, sc, p);
    EitherOrder(x, sf, p);
    ClampedAgain(k, x, p, NearestSteps(x, p), sn, NearestSteps(sn, p));
    ClampedAgain(k, x, p, CeilSteps(x, p), sc, CeilSteps(sc, p));
    ClampedAgain(k, x, p, FloorSteps(x, p), sf, FloorSteps(sf, p));
  }

  lemma EitherOrder(x: int, y: int, p: nat)
    requires p >= 1
    ensures x <= y ==> FloorSteps(x, p) <= FloorSteps(y, p) && CeilSteps(x, p) <= CeilSteps(y, p) && NearestSteps(x, p) <= NearestSteps(y, p)
    ensures y <= x ==> FloorSteps(y, p) <= FloorSteps(x, p) && CeilSteps(y, p) <= CeilSteps(x, p) && NearestSteps(y, p) <= NearestSteps(x, p)
  {
    if x <= y {
      StepsMonotone(x, y, p);
    }
    if y <= x {
      StepsMonotone(y, x, p);
    }
  }

  /** Past 2^31 the `as i32` cast wraps `zeros` to a negative number, so
      the scale becomes a whole power of ten, every integer is already on
      its grid and all three policies return the input unchanged. */
  lemma WrappedZerosKeepValue(k: Kind, x: int, zeros: nat)
    requires k.Contains(x) && 0x8000_0000 < zeros < U32Limit
    ensures RoundZeros(k, x, zeros) == x
    ensures CeilZeros(k, x, zeros) == x
    ensures FloorZeros(k, x, zeros) == x
  {
    var e: nat := U32Limit - zeros;
    var power := FloatRounding.ZerosPower(zeros);
    assert power == Pow10Real(e);
    Pow10RealOfNat(e);
    FloatRounding.IntegerOnWholeGrid(x, Pow10(e), power);
    FloatRounding.ApplyFixesGrid(x as real, power);
  }
}
