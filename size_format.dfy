/**
  human_readable_size: a byte count scaled by powers of 1024 and labelled
  with one of the units B, K, M, G, T. The model stops before the
  `:.1f` formatting and returns the scaled value and its label.
 */
module SizeFormat {

  /** The unit labels, in the order the loop tries them. */
  const Units: seq<string> := ["B", "K", "M", "G", "T"]

  function Pow1024(k: nat): (p: nat)
    ensures p >= 1
  {
    if k == 0 then 1 else 1024 * Pow1024(k - 1)
  }

  /** A size before formatting: `f"{value:.1f} {unit}"` renders it. */
  datatype Scaled = Scaled(value: real, unit: string)

  /** The first index k >= from, below 5, at which n / 1024^k < 1024
      (that is, n < 1024^(k+1)); 5 when there is none. */
  function UnitIndexFrom(n: nat, from: nat): (k: nat)
    requires from <= 5
    ensures from <= k <= 5
    ensures k < 5 ==> n < Pow1024(k + 1)
    ensures forall j :: from < j <= k ==> n >= Pow1024(j)
    decreases 5 - from
  {
    if from == 5 || n < Pow1024(from + 1) then from else UnitIndexFrom(n, from + 1)
  }

  /** The number of divisions by 1024 human_readable_size performs. */
  function UnitIndex(n: nat): nat
  {
    UnitIndexFrom(n, 0)
  }

  /** What human_readable_size(n) formats: n / 1024^k with the label of
      index k, where the loop ran out of units when k is 5. */
  function HumanReadable(n: nat): Scaled
  {
    var k := UnitIndex(n);
    Scaled(n as real / Pow1024(k) as real, if k < 5 then Units[k] else "T")
  }

  lemma {:induction false} Pow1024Monotone(i: nat, j: nat)
    requires i <= j
    ensures Pow1024(i) <= Pow1024(j)
    decreases j
  {
    if i < j {
      Pow1024Monotone(i, j - 1);
    }
  }

  /** The unit index is the k whose band [1024^k, 1024^(k+1)) holds n
      (the first band starts at 0), and 5 from 1024^5 up. */
  lemma UnitIndexBand(n: nat, k: nat)
    requires k <= 5
    ensures k < 5 ==> (UnitIndex(n) == k <==> (k == 0 || Pow1024(k) <= n) && n < Pow1024(k + 1))
    ensures k == 5 ==> (UnitIndex(n) == 5 <==> Pow1024(5) <= n)
  {
    var u := UnitIndex(n);
    if u < k {
      Pow1024Monotone(u + 1, k);
    } else if u > k {
      assert n >= Pow1024(k + 1);
    } else if k == 5 {
      Pow1024Monotone(5, u);
    }
  }

  lemma MulStrict(a: real, b: real, c: real)
    requires c > 0.0
    ensures a < b <==> a * c < b * c
  {
    assert b * c - a * c == (b - a) * c;
  }

  lemma DivMul(x: real, c: real)
    requires c > 0.0
    ensures (x / c) * c == x
  {
  }

  /** Dividing by p and then by 1024 is dividing by 1024 * p. */
  lemma DivTwice(x: real, p: nat)
    requires p >= 1
    ensures x / p as real / 1024.0 == x / (1024 * p) as real
  {
    var q := x / p as real / 1024.0;
    DivMul(x / p as real, 1024.0);
    DivMul(x, p as real);
    assert q * (1024 * p) as real == (q * 1024.0) * p as real == x;
    DivMul(x, (1024 * p) as real);
    var r := x / (1024 * p) as real;
    assert (q - r) * (1024 * p) as real == 0.0;
  }

  /** Dividing n by a power p stays below 1024 exactly when n < 1024 * p. */
  lemma ScaledBelow1024(n: nat, p: nat)
    requires p >= 1
    ensures n as real / p as real < 1024.0 <==> n < 1024 * p
  {
    var q := n as real / p as real;
    DivMul(n as real, p as real);
    MulStrict(q, 1024.0, p as real);
    assert (1024 * p) as real == 1024.0 * p as real;
  }

  /** A quotient n / p with 1 <= p <= n is at least 1. */
  lemma ScaledAtLeastOne(n: nat, p: nat)
    requires 1 <= p <= n
    ensures 1.0 <= n as real / p as real
  {
    var v := n as real / p as real;
    DivMul(n as real, p as real);
    MulStrict(v, 1.0, p as real);
  }

  /** n / p undoes a multiplication by p, is never negative, and is at
      least 1 once p <= n. */
  lemma ScaledRange(n: nat, p: nat)
    requires p >= 1
    ensures var v := n as real / p as real;
      && v * p as real == n as real
      && 0.0 <= v
      && (v < 1024.0 <==> n < 1024 * p)
      && (p <= n ==> 1.0 <= v)
  {
    var v := n as real / p as real;
    DivMul(n as real, p as real);
    ScaledBelow1024(n, p);
    MulStrict(v, 0.0, p as real);
    if p <= n {
      ScaledAtLeastOne(n, p);
    }
  }

  /** Below 1024^5 the label is faithful: value * 1024^k is n, the value
      lies in [0, 1024), and in [1, 1024) once a division has happened. */
  lemma HumanReadableBelowPebibyte(n: nat)
    requires n < Pow1024(5)
    ensures var k := UnitIndex(n);
      var r := HumanReadable(n);
      && k < 5 && r.unit == Units[k]
      && r.value * Pow1024(k) as real == n as real
      && 0.0 <= r.value < 1024.0
      && (k > 0 ==> 1.0 <= r.value)
  {
    var k := UnitIndex(n);
    UnitIndexBand(n, 5);
    UnitIndexBand(n, k);
    ScaledRange(n, Pow1024(k));
  }

  /** At or above 1024^5 the loop has divided five times and still says T:
      the value is in units of 1024^5, so read as terabytes it is 1024
      times too small. */
  lemma HumanReadableAbovePebibyte(n: nat)
    requires n >= Pow1024(5)
    ensures HumanReadable(n) == Scaled(n as real / Pow1024(5) as real, "T")
    ensures HumanReadable(n).value * Pow1024(4) as real == n as real / 1024.0
  {
    UnitIndexBand(n, 5);
    var p4 := Pow1024(4);
    DivTwice(n as real / 1024.0, p4);
    assert n as real / 1024.0 == (n as real / p4 as real / 1024.0) * p4 as real by {
      DivMul(n as real / 1024.0, p4 as real);
      DivTwice(n as real, p4);
    }
  }

  /** The documented boundaries. */
  lemma HumanReadableExamples()
    ensures HumanReadable(0) == Scaled(0.0, "B")
    ensures HumanReadable(1023) == Scaled(1023.0, "B")
    ensures HumanReadable(1024) == Scaled(1.0, "K")
    ensures HumanReadable(1536) == Scaled(1.5, "K")
    ensures HumanReadable(1099511627776) == Scaled(1.0, "T")
  {
    assert Pow1024(1) == 1024;
    assert Pow1024(4) == 1099511627776;
    assert Pow1024(5) == 1125899906842624;
    assert UnitIndex(1099511627776) == 4;
  }

  /** human_readable_size(size_in_bytes): try each unit in turn, answering
      with the first at which the value is below 1024, dividing by 1024
      otherwise. */
  method HumanReadableSize(sizeInBytes: nat) returns (r: Scaled)
    ensures r == HumanReadable(sizeInBytes)
  {
    var size: real := sizeInBytes as real;
    for i := 0 to |Units|
      invariant size == sizeInBytes as real / Pow1024(i) as real
      invariant forall j :: 0 < j <= i ==> sizeInBytes >= Pow1024(j)
    {
      ScaledBelow1024(sizeInBytes, Pow1024(i));
      if size < 1024.0 {
        UnitIndexBand(sizeInBytes, i);
        return Scaled(size, Units[i]);
      }
      DivTwice(sizeInBytes as real, Pow1024(i));
      size := size / 1024.0;
    }
    UnitIndexBand(sizeInBytes, 5);
    return Scaled(size, "T");
  }
}
