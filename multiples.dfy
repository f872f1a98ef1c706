/** Reference definitions on integers: which multiple of a step `p` each
    policy picks for an integer `x`, written with integer division only and
    independent of the scaled float arithmetic the library performs. A
    multiple is written `q * p`, with `q` the number of steps.
 */
module Multiples {

  /** `q * p` is the greatest multiple of p not above x. */
  predicate IsFloorStep(x: int, p: nat, q: int) {
    q * p <= x < q * p + p
  }

  /** `q * p` is the least multiple of p not below x. */
  predicate IsCeilStep(x: int, p: nat, q: int) {
    q * p - p < x <= q * p
  }

  /** `q * p` is a multiple of p nearest to x, a tie going away from zero. */
  predicate IsNearestStep(x: int, p: nat, q: int) {
    && 2 * (q * p - x) <= p
    && 2 * (x - q * p) <= p
    && (2 * (q * p - x) == p ==> x > 0)
    && (2 * (x - q * p) == p ==> x < 0)
  }

  function FloorSteps(x: int, p: nat): (q: int)
    requires p >= 1
    ensures IsFloorStep(x, p, q)
  {
    x / p
  }

  function CeilSteps(x: int, p: nat): (q: int)
    requires p >= 1
    ensures IsCeilStep(x, p, q)
  {
    var q := -((-x) / p);
    assert (-q) * p == -(q * p);
    q
  }

  function NearestSteps(x: int, p: nat): (q: int)
    requires p >= 1
    ensures IsNearestStep(x, p, q)
  {
    if x >= 0 then
      HalfUp(x, p);
      (2 * x + p) / (2 * p)
    else
      HalfUp(-x, p);
      NearestStepNegated(-x, p, (-2 * x + p) / (2 * p));
      -((-2 * x + p) / (2 * p))
  }

  /** For x >= 0, adding half a step and dropping the remainder gives the
      nearest multiple; a tie goes up, away from zero. */
  lemma HalfUp(x: int, p: nat)
    requires x >= 0 && p >= 1
    ensures IsNearestStep(x, p, (2 * x + p) / (2 * p))
  {
    var q, rem := (2 * x + p) / (2 * p), (2 * x + p) % (2 * p);
    assert 2 * x + p == q * (2 * p) + rem;
    assert q * (2 * p) == 2 * (q * p);
  }

  lemma NearestStepNegated(x: int, p: nat, q: int)
    requires IsNearestStep(x, p, q)
    ensures IsNearestStep(-x, p, -q)
  {
    assert (-q) * p == -(q * p);
  }

  /** Between two different step counts lies at least one whole step. */
  lemma StepGap(i: int, j: int, p: nat)
    requires i < j
    ensures i * p + p <= j * p
  {
    var d := j - i;
    Distribute(i, d, p);
    AtLeastOnce(d, p);
  }

  lemma Distribute(i: int, d: int, p: int)
    ensures (i + d) * p == i * p + d * p
  {
  }

  lemma AtLeastOnce(d: int, p: nat)
    requires d >= 1
    ensures d * p >= p
  {
    var e := d - 1;
    assert e * p >= 0;
    Distribute(1, e, p);
  }

  /** Each characterisation admits only one step count. */
  lemma FloorStepUnique(x: int, p: nat, i: int, j: int)
    requires p >= 1 && IsFloorStep(x, p, i) && IsFloorStep(x, p, j)
    ensures i == j
  {
    if i < j {
      StepGap(i, j, p);
    } else if j < i {
      StepGap(j, i, p);
    }
  }

  lemma CeilStepUnique(x: int, p: nat, i: int, j: int)
    requires p >= 1 && IsCeilStep(x, p, i) && IsCeilStep(x, p, j)
    ensures i == j
  {
    if i < j {
      StepGap(i, j, p);
    } else if j < i {
      StepGap(j, i, p);
    }
  }

  lemma NearestStepUnique(x: int, p: nat, i: int, j: int)
    requires p >= 1 && IsNearestStep(x, p, i) && IsNearestStep(x, p, j)
    ensures i == j
  {
    if i < j {
      StepGap(i, j, p);
    } else if j < i {
      StepGap(j, i, p);
    }
  }

  /** A multiple of p is left where it is by every policy. */
  lemma StepsOfMultiple(q: int, p: nat)
    requires p >= 1
    ensures FloorSteps(q * p, p) == q
    ensures CeilSteps(q * p, p) == q
    ensures NearestSteps(q * p, p) == q
  {
    FloorStepUnique(q * p, p, q, FloorSteps(q * p, p));
    CeilStepUnique(q * p, p, q, CeilSteps(q * p, p));
    NearestStepUnique(q * p, p, q, NearestSteps(q * p, p));
  }

  /** `q * p` leaves no remainder on division by p. */
  lemma MultipleHasNoRemainder(q: int, p: nat)
    requires p >= 1
    ensures (q * p) % p == 0
  {
    FloorStepUnique(q * p, p, q, (q * p) / p);
  }

  /** The nearest multiple lies between the lower and the upper one, which
      coincide exactly when x is itself a multiple and are one step apart
      otherwise. */
  lemma StepOrder(x: int, p: nat)
    requires p >= 1
    ensures FloorSteps(x, p) <= NearestSteps(x, p) <= CeilSteps(x, p)
    ensures x == FloorSteps(x, p) * p <==> CeilSteps(x, p) == FloorSteps(x, p)
    ensures x != FloorSteps(x, p) * p ==> CeilSteps(x, p) == FloorSteps(x, p) + 1
  {
    var f, n, c := FloorSteps(x, p), NearestSteps(x, p), CeilSteps(x, p);
    if n < f {
      StepGap(n, f, p);
    }
    if c < n {
      StepGap(c, n, p);
    }
    if c < f {
      StepGap(c, f, p);
    }
    if f + 1 < c {
      StepGap(f + 1, c, p);
      Distribute(f, 1, p);
    }
    if x == f * p {
      CeilStepUnique(x, p, f, c);
    } else {
      Distribute(f, 1, p);
      CeilStepUnique(x, p, f + 1, c);
    }
  }

  /** Every policy is monotone in x. */
  lemma StepsMonotone(x: int, y: int, p: nat)
    requires p >= 1 && x <= y
    ensures FloorSteps(x, p) <= FloorSteps(y, p)
    ensures CeilSteps(x, p) <= CeilSteps(y, p)
    ensures NearestSteps(x, p) <= NearestSteps(y, p)
  {
    if FloorSteps(y, p) < FloorSteps(x, p) {
      StepGap(FloorSteps(y, p), FloorSteps(x, p), p);
    }
    if CeilSteps(y, p) < CeilSteps(x, p) {
      StepGap(CeilSteps(y, p), CeilSteps(x, p), p);
    }
    if NearestSteps(y, p) < NearestSteps(x, p) {
      StepGap(NearestSteps(y, p), NearestSteps(x, p), p);
    }
  }

  /** Negating x negates the nearest multiple and swaps the lower and the
      upper one. */
  lemma StepsOfNegation(x: int, p: nat)
    requires p >= 1
    ensures NearestSteps(-x, p) == -NearestSteps(x, p)
    ensures CeilSteps(-x, p) == -FloorSteps(x, p)
    ensures FloorSteps(-x, p) == -CeilSteps(x, p)
  {
    var f, n, c := FloorSteps(x, p), NearestSteps(x, p), CeilSteps(x, p);
    assert (-f) * p == -(f * p);
    assert (-n) * p == -(n * p);
    assert (-c) * p == -(c * p);
    CeilStepUnique(-x, p, -f, CeilSteps(-x, p));
    NearestStepUnique(-x, p, -n, NearestSteps(-x, p));
    FloorStepUnique(-x, p, -c, FloorSteps(-x, p));
  }
}
