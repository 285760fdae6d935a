/**
  Python 3's one-argument `round`: the nearest integer, with a tie going to
  the even neighbour ("banker's rounding"). Modelled on exact reals.
 */
module Rounding {

  /** `round(x)` in Python 3. The two ensures clauses determine the result
      uniquely (see RoundHalfEvenUnique). */
  function RoundHalfEven(x: real): (r: int)
    ensures x - 0.5 <= r as real <= x + 0.5
    ensures (r as real == x - 0.5 || r as real == x + 0.5) ==> r % 2 == 0
  {
    var f := x.Floor;
    var frac := x - f as real;
    if frac < 0.5 then f
    else if frac > 0.5 then f + 1
    else if f % 2 == 0 then f
    else f + 1
  }

  /** Any integer within one half of x, and even on a tie, is round(x). */
  lemma RoundHalfEvenUnique(x: real, k: int)
    requires x - 0.5 <= k as real <= x + 0.5
    requires (k as real == x - 0.5 || k as real == x + 0.5) ==> k % 2 == 0
    ensures RoundHalfEven(x) == k
  {
  }

  /** Rounding an integer gives it back. */
  lemma RoundHalfEvenOfInt(n: int)
    ensures RoundHalfEven(n as real) == n
  {
    RoundHalfEvenUnique(n as real, n);
  }

  /** round is monotone: a larger argument never rounds lower. */
  lemma RoundHalfEvenMonotone(x: real, y: real)
    requires x <= y
    ensures RoundHalfEven(x) <= RoundHalfEven(y)
  {
    if x == y {
    } else {
      var rx, ry := RoundHalfEven(x), RoundHalfEven(y);
      assert rx as real - ry as real <= (x - y) + 1.0 < 1.0;
    }
  }

  /** round maps [lo, hi] into [lo, hi] when both ends are integers. */
  lemma RoundHalfEvenWithin(x: real, lo: int, hi: int)
    requires lo as real <= x <= hi as real
    ensures lo <= RoundHalfEven(x) <= hi
  {
    RoundHalfEvenMonotone(lo as real, x);
    RoundHalfEvenMonotone(x, hi as real);
    RoundHalfEvenOfInt(lo);
    RoundHalfEvenOfInt(hi);
  }

  /** Ties go to the even neighbour: 2.5 rounds down, 3.5 rounds up. */
  lemma RoundHalfEvenTies()
    ensures RoundHalfEven(2.5) == 2 && RoundHalfEven(3.5) == 4 && RoundHalfEven(0.5) == 0
  {
    RoundHalfEvenUnique(2.5, 2);
    RoundHalfEvenUnique(3.5, 4);
    RoundHalfEvenUnique(0.5, 0);
  }
}
