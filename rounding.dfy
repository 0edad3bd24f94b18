/** Rounding of an exact decimal to a whole number of minor units, as
    BigDecimal#round does by default: to the nearest integer, halves away
    from zero. */
module Rounding {

  /** n is the integer nearest to x, and a tie goes to the integer farther from zero. */
  predicate IsHalfAwayRounding(x: real, n: int) {
    && x - 0.5 <= n as real <= x + 0.5
    && (n as real == x + 0.5 ==> x > 0.0)
    && (n as real == x - 0.5 ==> x < 0.0)
  }

  function RoundHalfAway(x: real): (n: int)
    ensures IsHalfAwayRounding(x, n)
  {
    if x >= 0.0 then (x + 0.5).Floor else -((0.5 - x).Floor)
  }

  /** The characterisation determines the rounded value uniquely. */
  lemma HalfAwayRoundingIsUnique(x: real, n: int, m: int)
    requires IsHalfAwayRounding(x, n) && IsHalfAwayRounding(x, m)
    ensures n == m
  {
  }

  lemma RoundHalfAwayIsOnlyRounding(x: real, n: int)
    requires IsHalfAwayRounding(x, n)
    ensures RoundHalfAway(x) == n
  {
    HalfAwayRoundingIsUnique(x, n, RoundHalfAway(x));
  }

  /** A whole number is left as it is. */
  lemma RoundWhole(n: int)
    ensures RoundHalfAway(n as real) == n
  {
    RoundHalfAwayIsOnlyRounding(n as real, n);
  }

  /** Rounding commutes with negation: the mode is symmetric about zero. */
  lemma RoundSymmetric(x: real)
    ensures RoundHalfAway(-x) == -RoundHalfAway(x)
  {
    RoundHalfAwayIsOnlyRounding(-x, -RoundHalfAway(x));
  }
}
