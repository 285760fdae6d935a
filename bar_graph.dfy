/**
  percent_to_graph: a percentage rendered as a fixed-width bar of '='
  characters padded with spaces.
 */
module BarGraph {
  import opened Wrappers
  import opened Rounding

  /** The ValueError raised for a percentage outside [0, 100]. */
  datatype Error = PercentOutOfRange

  /** Python's `c * n` for a one-character string: n copies, none when n <= 0. */
  function Repeat(c: char, n: int): (r: string)
    ensures |r| == if n <= 0 then 0 else n
    ensures forall i :: 0 <= i < |r| ==> r[i] == c
  {
    if n <= 0 then "" else [c] + Repeat(c, n - 1)
  }

  /** Number of occurrences of c in s. */
  function Occurrences(s: string, c: char): nat
  {
    if s == [] then 0 else (if s[0] == c then 1 else 0) + Occurrences(s[1..], c)
  }

  /** The number of '=' characters: round(percent / 100 * totalChars). */
  function FilledChars(percent: real, totalChars: int): int
  {
    RoundHalfEven(percent / 100.0 * totalChars as real)
  }

  /** percent_to_graph(percent, total_chars). */
  function PercentToGraph(percent: real, totalChars: int): (r: Result<string, Error>)
    ensures r.Failure? <==> percent < 0.0 || percent > 100.0
  {
    if !(0.0 <= percent <= 100.0) then Failure(PercentOutOfRange)
    else
      var filled := FilledChars(percent, totalChars);
      Success(Repeat('=', filled) + Repeat(' ', totalChars - filled))
  }

  lemma MulMonotone(a: real, b: real, c: real)
    requires a <= b && 0.0 <= c
    ensures a * c <= b * c
  {
    assert b * c - a * c == (b - a) * c;
  }

  /** A fraction in [0, 1] of w lies between 0 and w. */
  lemma ScaledWithin(f: real, w: real)
    requires 0.0 <= f <= 1.0
    ensures w >= 0.0 ==> 0.0 <= f * w <= w
    ensures w < 0.0 ==> w <= f * w <= 0.0
  {
    if w >= 0.0 {
      MulMonotone(f, 1.0, w);
      MulMonotone(0.0, f, w);
    } else {
      MulMonotone(f, 1.0, -w);
      MulMonotone(0.0, f, -w);
    }
  }

  /** s is `filled` '=' characters followed by spaces only. */
  predicate IsBar(s: string, filled: int)
  {
    forall i :: 0 <= i < |s| ==> s[i] == (if i < filled then '=' else ' ')
  }

  lemma {:induction false} OccurrencesOfBar(s: string, filled: nat)
    requires filled <= |s| && IsBar(s, filled)
    ensures Occurrences(s, '=') == filled
    decreases |s|
  {
    if s != [] {
      assert IsBar(s[1..], if filled == 0 then 0 else filled - 1);
      OccurrencesOfBar(s[1..], if filled == 0 then 0 else filled - 1);
    }
  }

  /** round(percent / 100 * totalChars) lies between 0 and totalChars. */
  lemma FilledWithin(percent: real, totalChars: nat)
    requires 0.0 <= percent <= 100.0
    ensures 0 <= FilledChars(percent, totalChars) <= totalChars
  {
    ScaledWithin(percent / 100.0, totalChars as real);
    RoundHalfEvenWithin(percent / 100.0 * totalChars as real, 0, totalChars);
  }

  /** With a negative width the count lies between totalChars and 0. */
  lemma FilledWithinNegative(percent: real, totalChars: int)
    requires 0.0 <= percent <= 100.0 && totalChars < 0
    ensures totalChars <= FilledChars(percent, totalChars) <= 0
  {
    ScaledWithin(percent / 100.0, totalChars as real);
    RoundHalfEvenWithin(percent / 100.0 * totalChars as real, totalChars, 0);
  }

  /** A larger percentage never fills fewer characters. */
  lemma FilledMonotone(p: real, q: real, totalChars: nat)
    requires 0.0 <= p <= q <= 100.0
    ensures FilledChars(p, totalChars) <= FilledChars(q, totalChars)
  {
    MulMonotone(p / 100.0, q / 100.0, totalChars as real);
    RoundHalfEvenMonotone(p / 100.0 * totalChars as real, q / 100.0 * totalChars as real);
  }

  /** For a valid percentage and a non-negative width the bar has exactly
      totalChars characters: k = round(percent / 100 * totalChars) of them
      '=' and at the front, the rest spaces. */
  lemma GraphShape(percent: real, totalChars: int)
    requires 0.0 <= percent <= 100.0 && totalChars >= 0
    ensures PercentToGraph(percent, totalChars).Success?
    ensures var s := PercentToGraph(percent, totalChars).value;
      var k := FilledChars(percent, totalChars);
      && 0 <= k <= totalChars
      && |s| == totalChars
      && IsBar(s, k)
      && Occurrences(s, '=') == k
  {
    FilledWithin(percent, totalChars);
    var k := FilledChars(percent, totalChars);
    var s := PercentToGraph(percent, totalChars).value;
    assert s == Repeat('=', k) + Repeat(' ', totalChars - k);
    OccurrencesOfBar(s, k);
  }

  /** A negative width (which the command line does not reject) gives the
      empty bar, as Python's repetition by a non-positive count does. */
  lemma GraphNegativeWidth(percent: real, totalChars: int)
    requires 0.0 <= percent <= 100.0 && totalChars < 0
    ensures PercentToGraph(percent, totalChars) == Success("")
  {
    var k := FilledChars(percent, totalChars);
    assert PercentToGraph(percent, totalChars) == Success(Repeat('=', k) + Repeat(' ', totalChars - k));
    FilledWithinNegative(percent, totalChars);
    assert Repeat('=', k) + Repeat(' ', totalChars - k) == "";
  }

  /** 0% is all spaces. */
  lemma GraphEmptyAtZero(totalChars: nat)
    ensures PercentToGraph(0.0, totalChars) == Success(Repeat(' ', totalChars))
  {
    assert 0.0 / 100.0 * totalChars as real == 0.0;
    RoundHalfEvenOfInt(0);
    assert Repeat('=', 0) + Repeat(' ', totalChars) == Repeat(' ', totalChars);
  }

  /** 100% is all '='. */
  lemma GraphFullAtHundred(totalChars: nat)
    ensures PercentToGraph(100.0, totalChars) == Success(Repeat('=', totalChars))
  {
    assert 100.0 / 100.0 * totalChars as real == totalChars as real;
    RoundHalfEvenOfInt(totalChars);
    assert Repeat('=', totalChars) + Repeat(' ', 0) == Repeat('=', totalChars);
  }

  /** The documented example, and the half-to-even ties at 25% and 35% of ten. */
  lemma GraphExamples()
    ensures PercentToGraph(50.0, 10) == Success("=====     ")
    ensures PercentToGraph(25.0, 10) == Success("==        ")
    ensures PercentToGraph(35.0, 10) == Success("====      ")
  {
    assert 50.0 / 100.0 * 10 as real == 5.0;
    assert 25.0 / 100.0 * 10 as real == 2.5;
    assert 35.0 / 100.0 * 10 as real == 3.5;
    RoundHalfEvenOfInt(5);
    RoundHalfEvenTies();
    assert Repeat('=', 5) + Repeat(' ', 5) == "=====     ";
    assert Repeat('=', 2) + Repeat(' ', 8) == "==        ";
    assert Repeat('=', 4) + Repeat(' ', 6) == "====      ";
  }

  /** The bars of 30% and 70% of ten characters. */
  lemma GraphThreeAndSeven()
    ensures PercentToGraph(30.0, 10) == Success("===       ")
    ensures PercentToGraph(70.0, 10) == Success("=======   ")
  {
    assert 30.0 / 100.0 * 10 as real == 3.0;
    assert 70.0 / 100.0 * 10 as real == 7.0;
    RoundHalfEvenOfInt(3);
    RoundHalfEvenOfInt(7);
    assert Repeat('=', 3) + Repeat(' ', 7) == "===       ";
    assert Repeat('=', 7) + Repeat(' ', 3) == "=======   ";
  }

  /** For a fixed width, a larger percentage never gives fewer '='. */
  lemma GraphMonotone(p: real, q: real, totalChars: nat)
    requires 0.0 <= p <= q <= 100.0
    ensures Occurrences(PercentToGraph(p, totalChars).value, '=')
         <= Occurrences(PercentToGraph(q, totalChars).value, '=')
  {
    GraphShape(p, totalChars);
    GraphShape(q, totalChars);
    FilledMonotone(p, q, totalChars);
  }
}
