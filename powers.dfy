/** Powers of ten, the scale factors of every rounding operation.

    The source builds its scale with `10_f64.powi(e)` for an `i32` exponent
    `e`; here the scale is exact: `Pow10(n)` for a natural exponent and
    `Pow10Real(e)` for any integer exponent (a negative one gives the
    fraction 1/10^-e).
 */
module Powers {

  /** The largest precision argument whose `as i32` cast in the source keeps
      its value (i32::MAX). */
  const MaxPrecision: nat := 0x7FFF_FFFF

  /** One more than the largest `u32`, the type of every precision argument. */
  const U32Limit: nat := 0x1_0000_0000

  /** `n as i32` for a `u32` n: the same bits read in two's complement, so
      values above i32::MAX wrap around to negative exponents. */
  function AsI32(n: nat): (e: int)
    requires n < U32Limit
    ensures -0x8000_0000 <= e <= MaxPrecision
    ensures (n - e) % U32Limit == 0
    ensures n <= MaxPrecision <==> e == n
  {
    if n <= MaxPrecision then n else n - U32Limit
  }

  /** 10^n as a natural number. */
  function Pow10(n: nat): (r: nat)
    ensures r >= 1
    ensures n > 0 ==> r >= 10
  {
    if n == 0 then 1 else 10 * Pow10(n - 1)
  }

  /** 10^e for any integer exponent, as an exact rational (`powi`). */
  function Pow10Real(e: int): (r: real)
    ensures r > 0.0
    decreases if e >= 0 then e else -e
  {
    if e == 0 then 1.0
    else if e > 0 then 10.0 * Pow10Real(e - 1)
    else Pow10Real(e + 1) / 10.0
  }

  /** On natural exponents the rational power is the natural one. */
  lemma {:induction false} Pow10RealOfNat(n: nat)
    ensures Pow10Real(n) == Pow10(n) as real
  {
    if n > 0 {
      Pow10RealOfNat(n - 1);
    }
  }

  /** Exponents add when powers multiply. */
  lemma {:induction false} Pow10Add(a: nat, b: nat)
    ensures Pow10(a + b) == Pow10(a) * Pow10(b)
  {
    if a > 0 {
      Pow10Add(a - 1, b);
      assert Pow10(a + b) == 10 * Pow10(a - 1 + b);
    }
  }

  /** Larger exponents give larger powers. */
  lemma {:induction false} Pow10Monotone(a: nat, b: nat)
    ensures a <= b ==> Pow10(a) <= Pow10(b)
  {
    if a < b {
      Pow10Monotone(a, b - 1);
    }
  }

  /** 10^-e is the reciprocal of 10^e. */
  lemma {:induction false} Pow10RealNeg(e: nat)
    ensures Pow10Real(-(e as int)) == 1.0 / Pow10Real(e)
  {
    if e > 0 {
      Pow10RealNeg(e - 1);
      assert Pow10Real(-(e as int)) == Pow10Real(-((e - 1) as int)) / 10.0;
      assert Pow10Real(e) == 10.0 * Pow10Real(e - 1);
      TenthOfReciprocal(Pow10Real(-((e - 1) as int)), Pow10Real(e - 1));
    }
  }

  /** The same for any integer exponent. */
  lemma Pow10RealReciprocal(e: int)
    ensures Pow10Real(-e) == 1.0 / Pow10Real(e)
  {
    if e >= 0 {
      Pow10RealNeg(e);
    } else {
      Pow10RealNeg(-e);
      FlipReciprocal(Pow10Real(e), Pow10Real(-e));
    }
  }

  lemma FlipReciprocal(p: real, q: real)
    requires p > 0.0 && q > 0.0 && p == 1.0 / q
    ensures q == 1.0 / p
  {
  }

  lemma TenthOfReciprocal(p: real, q: real)
    requires q > 0.0 && p == 1.0 / q
    ensures p / 10.0 == 1.0 / (10.0 * q)
  {
  }
}
