/** Order statistics of a column's numbers: sorting, and the quantile by
    linear interpolation that `Series.quantile` uses by default (rank
    h = p * (n - 1), interpolated between the two sorted values around it). */
module Quantiles {

  predicate Sorted(s: seq<real>) {
    forall i, j :: 0 <= i < j < |s| ==> s[i] <= s[j]
  }

  /** Inserts x into a sorted sequence, keeping it sorted. */
  function Insert(x: real, s: seq<real>): (r: seq<real>)
    requires Sorted(s)
    ensures |r| == |s| + 1
    ensures Sorted(r)
    ensures multiset(r) == multiset(s) + multiset{x}
  {
    if s == [] || x <= s[0] then [x] + s
    else
      var t := Insert(x, s[1..]);
      LowerBound(s, t, x);
      ConsSorted(s[0], t);
      assert s == [s[0]] + s[1..];
      [s[0]] + t
  }

  /** The first element of a sorted s is a lower bound for any arrangement
      of its other elements and a larger x. */
  lemma LowerBound(s: seq<real>, t: seq<real>, x: real)
    requires Sorted(s) && |s| > 0 && s[0] < x
    requires multiset(t) == multiset(s[1..]) + multiset{x}
    ensures forall k :: 0 <= k < |t| ==> s[0] <= t[k]
  {
    forall k | 0 <= k < |t|
      ensures s[0] <= t[k]
    {
      assert t[k] in multiset(t);
      if t[k] != x {
        assert t[k] in multiset(s[1..]);
        var j :| 0 <= j < |s[1..]| && s[1..][j] == t[k];
        assert s[j + 1] == t[k];
      }
    }
  }

  lemma ConsSorted(y: real, t: seq<real>)
    requires Sorted(t) && forall k :: 0 <= k < |t| ==> y <= t[k]
    ensures Sorted([y] + t)
  {
  }

  /** The values in ascending order. */
  function Sort(xs: seq<real>): (r: seq<real>)
    ensures Sorted(r)
    ensures multiset(r) == multiset(xs)
    ensures |r| == |xs|
  {
    if xs == [] then []
    else
      assert xs == [xs[0]] + xs[1..];
      var r := Insert(xs[0], Sort(xs[1..]));
      assert |r| == |multiset(r)|;
      r
  }

  /** Sorting a sequence that is already in order leaves it as it is. */
  lemma {:induction false} SortOfSorted(s: seq<real>)
    requires Sorted(s)
    ensures Sort(s) == s
  {
    if s != [] {
      SortOfSorted(s[1..]);
      assert s == [s[0]] + s[1..];
    }
  }

  /** Every arrangement of the same values sorts to the same sequence. */
  lemma {:induction false} SortedUnique(a: seq<real>, b: seq<real>)
    requires Sorted(a) && Sorted(b) && multiset(a) == multiset(b)
    ensures a == b
  {
    assert |a| == |multiset(a)| == |b|;
    if a != [] {
      HeadsAgree(a, b);
      TailsAgree(a, b);
      SortedTail(a);
      SortedTail(b);
      SortedUnique(a[1..], b[1..]);
      assert a == [a[0]] + a[1..] && b == [b[0]] + b[1..];
    }
  }

  lemma HeadsAgree(a: seq<real>, b: seq<real>)
    requires Sorted(a) && Sorted(b) && multiset(a) == multiset(b) && |a| > 0 && |b| > 0
    ensures a[0] == b[0]
  {
    assert b[0] in multiset(b);
    FirstIsLeast(a, b[0]);
    assert a[0] in multiset(a);
    FirstIsLeast(b, a[0]);
  }

  lemma TailsAgree(a: seq<real>, b: seq<real>)
    requires |a| > 0 && |b| > 0 && a[0] == b[0] && multiset(a) == multiset(b)
    ensures multiset(a[1..]) == multiset(b[1..])
  {
    TailMultiset(a);
    TailMultiset(b);
  }

  /** The first element of a sorted sequence is at most any of its values. */
  lemma FirstIsLeast(s: seq<real>, x: real)
    requires Sorted(s) && x in multiset(s)
    ensures s[0] <= x
  {
    var k :| 0 <= k < |s| && s[k] == x;
  }

  /** The last element of a sorted sequence is at least any of its values. */
  lemma LastIsGreatest(s: seq<real>, x: real)
    requires Sorted(s) && x in multiset(s)
    ensures x <= s[|s| - 1]
  {
    var k :| 0 <= k < |s| && s[k] == x;
  }

  lemma SortedTail(s: seq<real>)
    requires Sorted(s) && |s| > 0
    ensures Sorted(s[1..])
  {
  }

  lemma TailMultiset(s: seq<real>)
    requires |s| > 0
    ensures multiset(s[1..]) == multiset(s) - multiset{s[0]}
  {
    assert s == [s[0]] + s[1..];
  }

  /** The value at fraction t of the way from a to b. */
  function Lerp(a: real, b: real, t: real): (v: real)
    requires a <= b && 0.0 <= t <= 1.0
    ensures a <= v <= b
  {
    var gap := b - a;
    var step := t * gap;
    ProductBelow(t, gap);
    assert 0.0 <= step <= gap;
    a + step
  }

  lemma LerpMonotone(a: real, b: real, t1: real, t2: real)
    requires a <= b && 0.0 <= t1 <= t2 <= 1.0
    ensures Lerp(a, b, t1) <= Lerp(a, b, t2)
  {
    var gap := b - a;
    var s1, s2 := t1 * gap, t2 * gap;
    ProductMonotone(t1, t2, gap);
    assert s1 <= s2;
    assert Lerp(a, b, t1) == a + s1;
    assert Lerp(a, b, t2) == a + s2;
  }

  /** The value at fractional rank h of a sorted sequence: the element at
      the integer part of h, moved toward the next element by the fraction. */
  function Interpolate(s: seq<real>, h: real): (q: real)
    requires Sorted(s) && 0.0 <= h <= (|s| - 1) as real
    ensures 0 <= h.Floor < |s|
    ensures s[h.Floor] <= q
    ensures h.Floor + 1 < |s| ==> q <= s[h.Floor + 1]
    ensures h == h.Floor as real ==> q == s[h.Floor]
  {
    var lo := h.Floor;
    if lo + 1 < |s| then Lerp(s[lo], s[lo + 1], h - lo as real) else s[lo]
  }

  lemma ProductBelow(f: real, g: real)
    requires 0.0 <= f <= 1.0 && 0.0 <= g
    ensures 0.0 <= f * g <= g
  {
  }

  lemma ProductMonotone(a: real, b: real, g: real)
    requires a <= b && 0.0 <= g
    ensures a * g <= b * g
  {
  }

  /** Interpolation is monotone in the rank. */
  lemma InterpolateMonotone(s: seq<real>, h1: real, h2: real)
    requires Sorted(s) && 0.0 <= h1 <= h2 <= (|s| - 1) as real
    ensures Interpolate(s, h1) <= Interpolate(s, h2)
  {
    var lo1, lo2 := h1.Floor, h2.Floor;
    if lo1 == lo2 && lo1 + 1 < |s| {
      LerpMonotone(s[lo1], s[lo1 + 1], h1 - lo1 as real, h2 - lo1 as real);
    } else if lo1 < lo2 {
      assert Interpolate(s, h1) <= s[lo1 + 1] <= s[lo2] <= Interpolate(s, h2);
    } else {
      assert h1 == h1.Floor as real && h2 == h2.Floor as real;
    }
  }

  /** The p-quantile (0 <= p <= 1) of a non-empty sorted sequence. */
  function Quantile(s: seq<real>, p: real): (q: real)
    requires Sorted(s) && |s| > 0 && 0.0 <= p <= 1.0
    ensures s[0] <= q <= s[|s| - 1]
  {
    RankInRange(|s|, p);
    var h := p * (|s| - 1) as real;
    var q := Interpolate(s, h);
    assert s[0] <= s[h.Floor];
    assert q <= s[|s| - 1] by {
      if h.Floor + 1 < |s| {
        assert s[h.Floor + 1] <= s[|s| - 1];
      }
    }
    q
  }

  /** The linear method written out: with rank h = p * (n - 1) and lo its
      integer part, the p-quantile is s[lo] + (h - lo) * (s[lo + 1] - s[lo]). */
  lemma QuantileFormula(s: seq<real>, p: real, h: real, lo: nat, a: real, b: real, q: real)
    requires Sorted(s) && 0.0 <= p <= 1.0 && lo + 1 < |s|
    requires s[lo] == a && s[lo + 1] == b
    requires h == p * (|s| - 1) as real && lo as real <= h < lo as real + 1.0
    requires q == a + (h - lo as real) * (b - a)
    ensures Quantile(s, p) == q
  {
    assert h.Floor == lo;
  }

  lemma RankInRange(n: nat, p: real)
    requires n > 0 && 0.0 <= p <= 1.0
    ensures 0.0 <= p * (n - 1) as real <= (n - 1) as real
  {
    ProductBelow(p, (n - 1) as real);
  }

  /** A larger p never gives a smaller quantile. */
  lemma QuantileMonotone(s: seq<real>, p1: real, p2: real)
    requires Sorted(s) && |s| > 0 && 0.0 <= p1 <= p2 <= 1.0
    ensures Quantile(s, p1) <= Quantile(s, p2)
  {
    RankInRange(|s|, p1);
    RankInRange(|s|, p2);
    ProductMonotone(p1, p2, (|s| - 1) as real);
    InterpolateMonotone(s, p1 * (|s| - 1) as real, p2 * (|s| - 1) as real);
  }

  /** Every quantile of a constant sequence is that constant. */
  lemma QuantileOfConstant(s: seq<real>, c: real, p: real)
    requires |s| > 0 && 0.0 <= p <= 1.0
    requires forall i :: 0 <= i < |s| ==> s[i] == c
    ensures Sorted(s) && Quantile(s, p) == c
  {
  }

  /** The quartiles, median and IQR fences of a non-empty list of values. */
  function LowerQuartile(xs: seq<real>): (q: real)
    requires |xs| > 0
    ensures Sort(xs)[0] <= q <= Sort(xs)[|xs| - 1]
  {
    Quantile(Sort(xs), 0.25)
  }

  function UpperQuartile(xs: seq<real>): (q: real)
    requires |xs| > 0
    ensures Sort(xs)[0] <= q <= Sort(xs)[|xs| - 1]
  {
    Quantile(Sort(xs), 0.75)
  }

  function Median(xs: seq<real>): (q: real)
    requires |xs| > 0
    ensures Sort(xs)[0] <= q <= Sort(xs)[|xs| - 1]
  {
    Quantile(Sort(xs), 0.5)
  }

  /** On values already in order the quartiles are read off directly. */
  lemma QuartilesOfSorted(xs: seq<real>)
    requires Sorted(xs) && |xs| > 0
    ensures LowerQuartile(xs) == Quantile(xs, 0.25)
    ensures Median(xs) == Quantile(xs, 0.5)
    ensures UpperQuartile(xs) == Quantile(xs, 0.75)
  {
    SortOfSorted(xs);
  }

  /** Q1 <= median <= Q3, and all three lie between the smallest and the
      largest value. */
  lemma QuartilesOrdered(xs: seq<real>)
    requires |xs| > 0
    ensures LowerQuartile(xs) <= Median(xs) <= UpperQuartile(xs)
    ensures forall i :: 0 <= i < |xs| ==> Sort(xs)[0] <= xs[i] <= Sort(xs)[|xs| - 1]
    ensures Sort(xs)[0] <= LowerQuartile(xs) && UpperQuartile(xs) <= Sort(xs)[|xs| - 1]
  {
    var s := Sort(xs);
    QuantileMonotone(s, 0.25, 0.5);
    QuantileMonotone(s, 0.5, 0.75);
    SortBounds(xs);
  }

  /** The first and last sorted values bound every value. */
  lemma SortBounds(xs: seq<real>)
    requires |xs| > 0
    ensures forall i :: 0 <= i < |xs| ==> Sort(xs)[0] <= xs[i] <= Sort(xs)[|xs| - 1]
  {
    var s := Sort(xs);
    forall i | 0 <= i < |xs|
      ensures s[0] <= xs[i] <= s[|xs| - 1]
    {
      assert xs[i] in multiset(xs);
      FirstIsLeast(s, xs[i]);
      LastIsGreatest(s, xs[i]);
    }
  }
}
