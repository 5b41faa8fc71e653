/** The numpy statistics the detector relies on, over exact reals:
    np.min / np.max, np.sort, np.median and np.percentile with its default
    linear interpolation. */
module Stats {

  function Abs(x: real): (r: real)
    ensures r >= 0.0 && (r == x || r == -x)
  {
    if x < 0.0 then -x else x
  }

  /** np.min of a non-empty array: no greater than any element (and one of
      them, MinIsElement). */
  function Min(s: seq<real>): (m: real)
    requires |s| > 0
    ensures forall k :: 0 <= k < |s| ==> m <= s[k]
  {
    if |s| == 1 then s[0]
    else
      var rest := Min(s[1..]);
      if s[0] <= rest then s[0] else rest
  }

  /** np.max of a non-empty array: no smaller than any element (and one of
      them, MaxIsElement). */
  function Max(s: seq<real>): (m: real)
    requires |s| > 0
    ensures forall k :: 0 <= k < |s| ==> s[k] <= m
  {
    if |s| == 1 then s[0]
    else
      var rest := Max(s[1..]);
      if s[0] >= rest then s[0] else rest
  }

  /** The minimum is attained. */
  lemma {:induction false} MinIsElement(s: seq<real>)
    requires |s| > 0
    ensures Min(s) in s
  {
    if |s| > 1 {
      MinIsElement(s[1..]);
      assert Min(s[1..]) in s;
    }
  }

  /** The maximum is attained. */
  lemma {:induction false} MaxIsElement(s: seq<real>)
    requires |s| > 0
    ensures Max(s) in s
  {
    if |s| > 1 {
      MaxIsElement(s[1..]);
      assert Max(s[1..]) in s;
    }
  }

  /** The extremes of two samples. */
  lemma MinMaxOfTwo(a: real, b: real)
    ensures Min([a, b]) == (if a <= b then a else b)
    ensures Max([a, b]) == (if a >= b then a else b)
  {
    assert [a, b][1..] == [b];
  }

  /** A slice's minimum is no smaller than the whole sequence's. */
  lemma SliceMin(y: seq<real>, lo: nat, hi: nat)
    requires lo < hi <= |y|
    ensures Min(y) <= Min(y[lo..hi])
  {
    var win := y[lo..hi];
    MinIsElement(win);
    var a :| 0 <= a < |win| && win[a] == Min(win);
    assert win[a] == y[lo + a];
  }

  /** A slice's maximum is no greater than the whole sequence's. */
  lemma SliceMax(y: seq<real>, lo: nat, hi: nat)
    requires lo < hi <= |y|
    ensures Max(y[lo..hi]) <= Max(y)
  {
    var win := y[lo..hi];
    MaxIsElement(win);
    var a :| 0 <= a < |win| && win[a] == Max(win);
    assert win[a] == y[lo + a];
  }

  /** An index array in strictly increasing order, as np.where returns it. */
  ghost predicate StrictlyIncreasing(s: seq<nat>) {
    forall a, b :: 0 <= a < b < |s| ==> s[a] < s[b]
  }

  ghost predicate IsSorted(s: seq<real>) {
    forall i, j :: 0 <= i <= j < |s| ==> s[i] <= s[j]
  }

  function Insert(x: real, s: seq<real>): (r: seq<real>)
    requires IsSorted(s)
    ensures IsSorted(r)
    ensures |r| == |s| + 1
    ensures multiset(r) == multiset(s) + multiset{x}
  {
    if s == [] || x <= s[0] then [x] + s
    else
      var rest := Insert(x, s[1..]);
      assert s == [s[0]] + s[1..];
      LowerBoundKept(rest, s[1..], x, s[0]);
      [s[0]] + rest
  }

  /** np.sort: the ascending permutation of the input. */
  function Sort(s: seq<real>): (r: seq<real>)
    ensures IsSorted(r)
    ensures |r| == |s|
    ensures multiset(r) == multiset(s)
  {
    if s == [] then []
    else
      assert s == [s[0]] + s[1..];
      Insert(s[0], Sort(s[1..]))
  }

  /** Every element of the sorted array lies between the input's extremes,
      and the sorted array starts at the minimum and ends at the maximum. */
  lemma SortBounds(s: seq<real>)
    requires |s| > 0
    ensures forall k :: 0 <= k < |Sort(s)| ==> Min(s) <= Sort(s)[k] <= Max(s)
    ensures Sort(s)[0] == Min(s) && Sort(s)[|s| - 1] == Max(s)
  {
    var t := Sort(s);
    MinIsElement(s);
    MaxIsElement(s);
    forall k | 0 <= k < |t|
      ensures Min(s) <= t[k] <= Max(s)
    {
      assert t[k] in multiset(t);
      assert t[k] in s;
    }
    assert Min(s) in multiset(s);
    assert Min(s) in t;
    assert Max(s) in multiset(s);
    assert Max(s) in t;
  }

  /** np.median: the middle element of the sorted array, or the mean of the
      two middle elements when the length is even. */
  function Median(s: seq<real>): (m: real)
    requires |s| > 0
    ensures Min(s) <= m <= Max(s)
  {
    var t := Sort(s);
    var k := |t| / 2;
    SortBounds(s);
    if |t| % 2 == 1 then t[k] else (t[k - 1] + t[k]) / 2.0
  }

  /** The median of two values (the blanking filter's imputed value) is their mean. */
  lemma MedianOfTwo(a: real, b: real)
    ensures Median([a, b]) == (a + b) / 2.0
  {
    SortTwo(a, b);
  }

  /** Sorting two values puts the smaller first. */
  lemma SortTwo(a: real, b: real)
    ensures Sort([a, b]) == if a <= b then [a, b] else [b, a]
  {
    assert [a, b][1..] == [b];
    assert [b][1..] == [];
    assert Sort([b]) == [b];
    if a > b {
      assert Insert(a, [b]) == [b] + Insert(a, []);
    }
  }

  /** The value at fractional position `rank` of a sorted array, interpolating
      linearly between its two neighbouring elements (numpy's 'linear' method). */
  function Interpolate(t: seq<real>, rank: real): (p: real)
    requires |t| > 0 && IsSorted(t)
    requires 0.0 <= rank <= (|t| - 1) as real
    ensures t[0] <= p <= t[|t| - 1]
    ensures rank.Floor < |t| - 1 ==> t[rank.Floor] <= p <= t[rank.Floor + 1]
    ensures rank.Floor >= |t| - 1 ==> p == t[|t| - 1]
  {
    var lo := rank.Floor;
    FloorBounds(rank);
    if lo >= |t| - 1 then t[|t| - 1]
    else
      var frac := rank - lo as real;
      var gap := t[lo + 1] - t[lo];
      ScaleMonotone(frac, 1.0, gap);
      assert frac * gap <= gap;
      assert t[0] <= t[lo] && t[lo + 1] <= t[|t| - 1];
      assert t[lo] + frac * gap <= t[lo + 1];
      t[lo] + frac * gap
  }

  lemma FloorBounds(r: real)
    ensures r.Floor as real <= r < r.Floor as real + 1.0
  {
  }

  lemma ScaleMonotone(a: real, b: real, c: real)
    requires 0.0 <= a <= b && c >= 0.0
    ensures 0.0 <= a * c <= b * c
  {
    assert (b - a) * c >= 0.0;
  }

  /** The fractional position q/100 * (n - 1) at which np.percentile reads a
      sorted array of n values. */
  function Rank(n: nat, q: real): (r: real)
    requires n > 0 && 0.0 <= q <= 100.0
    ensures 0.0 <= r <= (n - 1) as real
  {
    ScaleMonotone(q, 100.0, (n - 1) as real);
    (n - 1) as real * q / 100.0
  }

  /** np.percentile(v, q): the q-th percentile, by linear interpolation
      between the sorted values at rank q/100 * (len(v) - 1). */
  function Percentile(v: seq<real>, q: real): (p: real)
    requires |v| > 0 && 0.0 <= q <= 100.0
    ensures Min(v) <= p <= Max(v)
  {
    var t := Sort(v);
    SortBounds(v);
    Interpolate(t, Rank(|t|, q))
  }

  lemma InterpolateMonotone(t: seq<real>, r1: real, r2: real)
    requires |t| > 0 && IsSorted(t)
    requires 0.0 <= r1 <= r2 <= (|t| - 1) as real
    ensures Interpolate(t, r1) <= Interpolate(t, r2)
  {
    var lo1, lo2 := r1.Floor, r2.Floor;
    var n := |t|;
    FloorBounds(r1);
    FloorBounds(r2);
    if lo2 >= n - 1 {
      assert Interpolate(t, r2) == t[n - 1];
      assert Interpolate(t, r1) <= t[n - 1];
    } else if lo1 == lo2 {
      var gap := t[lo1 + 1] - t[lo1];
      ScaleMonotone(r1 - lo1 as real, r2 - lo2 as real, gap);
      calc {
        Interpolate(t, r1);
        t[lo1] + (r1 - lo1 as real) * gap;
      <= t[lo1] + (r2 - lo2 as real) * gap;
        Interpolate(t, r2);
      }
    } else {
      assert t[lo1 + 1] <= t[lo2];
    }
  }

  /** A bound below every element of s and below x stays below every element
      of a sequence holding exactly those. */
  lemma LowerBoundKept(r: seq<real>, s: seq<real>, x: real, b: real)
    requires multiset(r) == multiset(s) + multiset{x}
    requires forall k :: 0 <= k < |s| ==> b <= s[k]
    requires b <= x
    ensures forall k :: 0 <= k < |r| ==> b <= r[k]
  {
    forall k | 0 <= k < |r| ensures b <= r[k] {
      assert r[k] in multiset(r);
      if r[k] != x {
        assert r[k] in multiset(s);
        assert r[k] in s;
      }
    }
  }

  /** A higher percentile reads at a later rank. */
  lemma RankMonotone(n: nat, q1: real, q2: real)
    requires n > 0 && 0.0 <= q1 <= q2 <= 100.0
    ensures Rank(n, q1) <= Rank(n, q2)
  {
    var c := (n - 1) as real;
    ScaleMonotone(q1, q2, c);
    var a, b := q1 * c, q2 * c;
    assert a <= b;
    assert Rank(n, q1) == a / 100.0;
    assert Rank(n, q2) == b / 100.0;
  }

  /** A higher percentile is never a lower value: the cutoff grows with q. */
  lemma PercentileMonotone(v: seq<real>, q1: real, q2: real)
    requires |v| > 0 && 0.0 <= q1 <= q2 <= 100.0
    ensures Percentile(v, q1) <= Percentile(v, q2)
  {
    var t := Sort(v);
    RankMonotone(|t|, q1, q2);
    InterpolateMonotone(t, Rank(|t|, q1), Rank(|t|, q2));
  }

  /** The 100th percentile is the largest value. */
  lemma PercentileHundredIsMax(v: seq<real>)
    requires |v| > 0
    ensures Percentile(v, 100.0) == Max(v)
  {
    var t := Sort(v);
    assert Rank(|t|, 100.0) == (|t| - 1) as real;
    SortBounds(v);
  }
}
