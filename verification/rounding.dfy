/** Rounding of a salary to a whole amount, as `round` does on a float:
    to the nearest integer, with halves going away from zero. */
module Rounding {

  function Abs(x: real): real { if x < 0.0 then -x else x }

  /** The integer nearest to `x`; when `x` lies exactly halfway between two
      integers, the one farther from zero. */
  function RoundHalfAwayFromZero(x: real): (r: int)
    ensures Abs(x - r as real) <= 0.5
    ensures Abs(x - r as real) == 0.5 ==> Abs(r as real) > Abs(x)
  {
    if x >= 0.0 then (x + 0.5).Floor else -((-x + 0.5).Floor)
  }

  /** No integer is closer to `x` than its rounding. */
  lemma RoundIsNearest(x: real, n: int)
    ensures Abs(x - RoundHalfAwayFromZero(x) as real) <= Abs(x - n as real)
  {
    var r := RoundHalfAwayFromZero(x);
    if n != r {
      assert n <= r - 1 || n >= r + 1;
    }
  }

  /** The two properties of `RoundHalfAwayFromZero` single out one integer:
      any integer within half of `x` that also breaks a tie away from zero is
      the rounding of `x`. */
  lemma RoundUnique(x: real, n: int)
    requires Abs(x - n as real) <= 0.5
    requires Abs(x - n as real) == 0.5 ==> Abs(n as real) > Abs(x)
    ensures n == RoundHalfAwayFromZero(x)
  {
    var r := RoundHalfAwayFromZero(x);
    if n < r || n > r {
      assert false;
    }
  }

  /** Rounding is symmetric about zero. */
  lemma RoundOdd(x: real)
    ensures RoundHalfAwayFromZero(-x) == -RoundHalfAwayFromZero(x)
  {
    if x == 0.0 {
    } else if x > 0.0 {
      assert -x < 0.0;
    }
  }
}
