/**
 The rounding rule used to discretise samples.

 Java's `(int)` cast on a double truncates toward zero. The discretiser
 applies it to `v + 0.5` for positive samples and to `v - 0.5` otherwise, a
 convention taken from Hanchuan Peng's MutualInfo toolbox: a single `+ 0.5`
 would send -1 to 0, whereas the rule is meant to round to the nearest
 integer with halves going away from zero.
 */
module Rounding {

  /** Java's `(int)` conversion of a (finite, in-range) double: truncation toward zero. */
  function Trunc(x: real): (r: int)
    ensures 0.0 <= x ==> r as real <= x < r as real + 1.0
    ensures x < 0.0 ==> r as real - 1.0 < x <= r as real
  {
    if x >= 0.0 then x.Floor else -((-x).Floor)
  }

  /** The sign-dependent rounding applied to every sample. */
  function Round(v: real): (r: int)
    // r is the integer nearest to v; a tie goes away from zero
    ensures v > 0.0 ==> v - 0.5 < r as real <= v + 0.5
    ensures v <= 0.0 ==> v - 0.5 <= r as real < v + 0.5
  {
    if v > 0.0 then Trunc(v + 0.5) else Trunc(v - 0.5)
  }

  /** For positive samples the rule is the floor of v + 1/2. */
  lemma RoundPositiveIsFloor(v: real)
    requires v > 0.0
    ensures Round(v) == (v + 0.5).Floor
  {
  }

  /** For non-positive samples the rule is the ceiling of v - 1/2. */
  lemma RoundNonPositiveIsCeiling(v: real)
    requires v <= 0.0
    ensures Round(v) == -((0.5 - v).Floor)
  {
  }

  /** Positive and negative samples are treated alike: the rule is odd. */
  lemma RoundIsOdd(v: real)
    ensures Round(-v) == -Round(v)
  {
  }

  /** Integers are left as they are. */
  lemma RoundInteger(k: int)
    ensures Round(k as real) == k
  {
  }

  /** Rounding preserves the order of samples. */
  lemma RoundMonotone(v: real, w: real)
    requires v <= w
    ensures Round(v) <= Round(w)
  {
  }

  /**
   The case that motivated the rule: adding 1/2 and truncating would send
   -1 to 0, while the rule sends it to -1 (and 1 to 1).
   */
  lemma NaiveRoundingBias()
    ensures Trunc(-1.0 + 0.5) == 0
    ensures Round(-1.0) == -1 && Round(1.0) == 1
    ensures Round(-0.5) == -1 && Round(0.5) == 1 && Round(0.0) == 0
  {
  }
}
