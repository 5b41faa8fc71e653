/** peakFilter: the first difference of the series, the plateau-filling loop
    that copies each zero slope from its right neighbour until none is left,
    the peak test on the filled slopes, and the non-maximum suppression that
    keeps only the highest peak within minDist. */
module Peaks {
  import opened Stats
  import opened Results

  /** np.diff(y): the slope between each sample and the next. */
  function Diff(y: seq<real>): (dy: seq<real>)
    ensures |y| > 0 ==> |dy| == |y| - 1
    ensures |y| == 0 ==> dy == []
    ensures forall i :: 0 <= i < |dy| ==> y[i + 1] == y[i] + dy[i]
  {
    if |y| <= 1 then [] else seq(|y| - 1, i requires 0 <= i < |y| - 1 => y[i + 1] - y[i])
  }

  /** One pass of the plateau loop: dy[zeros] = np.hstack([dy[1:], 0.0])[zeros],
      every zero slope replaced at once by its right neighbour's old value (0
      for the last slope). */
  function RightPass(dy: seq<real>): (r: seq<real>)
    ensures |r| == |dy|
  {
    seq(|dy|, i requires 0 <= i < |dy| =>
      if dy[i] != 0.0 then dy[i] else if i + 1 < |dy| then dy[i + 1] else 0.0)
  }

  /** dy after k passes of the loop body. */
  function Passes(dy: seq<real>, k: nat): (r: seq<real>)
    ensures |r| == |dy|
  {
    if k == 0 then dy else RightPass(Passes(dy, k - 1))
  }

  /** The first non-zero slope among dy[i], ..., dy[i + k] (stopping at the end
      of dy), or 0 when there is none. */
  function Slope(dy: seq<real>, i: nat, k: nat): real
    requires i < |dy|
    decreases k
  {
    if dy[i] != 0.0 then dy[i]
    else if k == 0 || i + 1 >= |dy| then 0.0
    else Slope(dy, i + 1, k - 1)
  }

  /** Once a non-zero slope is in reach, looking further changes nothing. */
  lemma {:induction false} SlopeSaturates(dy: seq<real>, i: nat, k: nat)
    requires i < |dy|
    ensures Slope(dy, i, k) != 0.0 ==> Slope(dy, i, k + 1) == Slope(dy, i, k)
    decreases k
  {
    if dy[i] == 0.0 && k > 0 && i + 1 < |dy| {
      SlopeSaturates(dy, i + 1, k - 1);
    }
  }

  lemma {:induction false} SlopeSaturatesFrom(dy: seq<real>, i: nat, k: nat, k': nat)
    requires i < |dy| && k <= k'
    ensures Slope(dy, i, k) != 0.0 ==> Slope(dy, i, k') == Slope(dy, i, k)
  {
    if k < k' {
      SlopeSaturatesFrom(dy, i, k, k' - 1);
      SlopeSaturates(dy, i, k' - 1);
    }
  }

  /** After k passes, slope i holds the first non-zero slope among the k + 1
      slopes starting at i: each pass pulls every value one step further left
      into a run of zeros. */
  lemma {:induction false} PassesAreSlopes(dy: seq<real>, k: nat, i: nat)
    requires i < |dy|
    ensures Passes(dy, k)[i] == Slope(dy, i, k)
  {
    if k > 0 {
      var p := Passes(dy, k - 1);
      PassesAreSlopes(dy, k - 1, i);
      if i + 1 < |dy| {
        PassesAreSlopes(dy, k - 1, i + 1);
        if dy[i] == 0.0 && k > 1 {
          SlopeSaturates(dy, i + 1, k - 2);
        }
      }
    }
  }

  /** With a non-zero last slope, every slope within k of the end is resolved
      after k passes. */
  lemma {:induction false} SlopeReachesEnd(dy: seq<real>, i: nat, k: nat)
    requires i < |dy| && dy[|dy| - 1] != 0.0 && i + k >= |dy| - 1
    ensures Slope(dy, i, k) != 0.0
    decreases k
  {
    if dy[i] == 0.0 && i + 1 < |dy| {
      SlopeReachesEnd(dy, i + 1, k - 1);
    }
  }

  /** Slope i is the value of the next non-zero slope j at or after i, once j
      is within reach. */
  lemma {:induction false} SlopeIsNextNonZero(dy: seq<real>, i: nat, j: nat, k: nat)
    requires i <= j < |dy| && dy[j] != 0.0 && j - i <= k
    requires forall t :: i <= t < j ==> dy[t] == 0.0
    ensures Slope(dy, i, k) == dy[j]
    decreases j - i
  {
    if i < j {
      SlopeIsNextNonZero(dy, i + 1, j, k - 1);
    }
  }

  /** A zero last slope is never filled: it has no right neighbour, so the loop
      as written runs forever. */
  lemma TrailingFlatPersists(dy: seq<real>, k: nat)
    requires |dy| > 0 && dy[|dy| - 1] == 0.0
    ensures Passes(dy, k)[|dy| - 1] == 0.0
  {
    PassesAreSlopes(dy, k, |dy| - 1);
  }

  predicate NoZeros(s: seq<real>) {
    forall i :: 0 <= i < |s| ==> s[i] != 0.0
  }

  /** The slopes once the plateau loop has finished: every zero slope takes
      the value of the next non-zero slope to its right. */
  function Resolved(dy: seq<real>): (r: seq<real>)
    ensures |r| == |dy|
  {
    seq(|dy|, i requires 0 <= i < |dy| => Slope(dy, i, |dy|))
  }

  /** The plateau loop: it ends exactly when the last slope is non-zero, and
      then within |dy| passes, with no zero slope left, the non-zero slopes
      untouched, and every zero slope holding the next non-zero slope. */
  function Resolve(dy: seq<real>): (r: Result<seq<real>>)
    ensures r.Failure? <==> |dy| > 0 && dy[|dy| - 1] == 0.0
    ensures r.Success? ==> |r.value| == |dy| && NoZeros(r.value)
    ensures r.Success? ==> forall i :: 0 <= i < |dy| && dy[i] != 0.0 ==> r.value[i] == dy[i]
    ensures r.Success? ==> r.value == Passes(dy, |dy|) == Resolved(dy)
  {
    if |dy| > 0 && dy[|dy| - 1] == 0.0 then Failure(PlateauNotResolved)
    else
      var r := Resolved(dy);
      forall i | 0 <= i < |dy| ensures r[i] != 0.0 && r[i] == Passes(dy, |dy|)[i] {
        SlopeReachesEnd(dy, i, |dy|);
        PassesAreSlopes(dy, |dy|, i);
      }
      Success(r)
  }

  /** The loop may stop as soon as no zero is left: from then on a pass
      changes nothing, so the slopes are the resolved ones. */
  lemma StopsAtResolved(dy: seq<real>, k: nat)
    requires k <= |dy| && NoZeros(Passes(dy, k))
    ensures Passes(dy, k) == Resolved(dy)
  {
    forall i | 0 <= i < |dy| ensures Passes(dy, k)[i] == Resolved(dy)[i] {
      PassesAreSlopes(dy, k, i);
      SlopeSaturatesFrom(dy, i, k, |dy|);
    }
  }

  /** After |dy| passes no zero is left, so the loop ends within |dy| passes
      when the last slope is non-zero. */
  lemma PassesResolveAll(dy: seq<real>)
    requires |dy| > 0 && dy[|dy| - 1] != 0.0
    ensures NoZeros(Passes(dy, |dy|))
  {
    forall i | 0 <= i < |dy| ensures Passes(dy, |dy|)[i] != 0.0 {
      SlopeReachesEnd(dy, i, |dy|);
      PassesAreSlopes(dy, |dy|, i);
    }
  }

  /** The relative threshold thres * (max(y) - min(y)) + min(y). */
  function Level(y: seq<real>, thres: real): real
    requires |y| > 0
  {
    thres * (Max(y) - Min(y)) + Min(y)
  }

  /** The peak test on the filled slopes r at position i: slope into i rising,
      slope out of i falling, sample above the level. */
  predicate IsPeak(y: seq<real>, r: seq<real>, level: real, i: int)
    requires |r| + 1 == |y|
  {
    0 < i < |y| - 1 && r[i - 1] > 0.0 && r[i] < 0.0 && y[i] > level
  }

  /** np.where((hstack([dy, 0]) < 0) & (hstack([0, dy]) > 0) & (y > thres))
      over the first n positions. The zero padding keeps both ends of the
      series out, so the test is exactly IsPeak. */
  function RawPeaksBefore(y: seq<real>, r: seq<real>, level: real, n: nat): (p: seq<nat>)
    requires |r| + 1 == |y| && n <= |y|
    ensures StrictlyIncreasing(p)
    ensures forall k :: 0 <= k < |p| ==> p[k] < n && IsPeak(y, r, level, p[k])
    ensures forall i :: 0 <= i < n && IsPeak(y, r, level, i) ==> i in p
  {
    if n == 0 then []
    else
      var i := n - 1;
      var hit := (r + [0.0])[i] < 0.0 && ([0.0] + r)[i] > 0.0 && y[i] > level;
      assert hit <==> IsPeak(y, r, level, i);
      RawPeaksBefore(y, r, level, n - 1) + (if hit then [i] else [])
  }

  function RawPeaks(y: seq<real>, r: seq<real>, level: real): (p: seq<nat>)
    requires |r| + 1 == |y|
    ensures StrictlyIncreasing(p)
    ensures forall k :: 0 <= k < |p| ==> IsPeak(y, r, level, p[k])
    ensures forall i :: IsPeak(y, r, level, i) ==> i in p
  {
    RawPeaksBefore(y, r, level, |y|)
  }

  /** i passes the peak test of peakFilter(y, thres) and is a local maximum of y. */
  predicate PeakOf(y: seq<real>, thres: real, i: int) {
    |y| > 0 && IsPeak(y, Resolved(Diff(y)), Level(y, thres), i) && y[i - 1] < y[i] && y[i + 1] <= y[i]
  }

  /** A peak found on the filled slopes is a local maximum of the series:
      strictly above the sample before it, and not below the one after it
      (equal when it starts a plateau). */
  lemma PeakIsLocalMaximum(y: seq<real>, level: real, i: nat)
    requires |y| > 1 && y[|y| - 1] != y[|y| - 2]
    requires IsPeak(y, Resolved(Diff(y)), level, i)
    ensures y[i - 1] < y[i] && y[i + 1] <= y[i]
  {
    var dy := Diff(y);
    var m := |dy|;
    SlopeSaturates(dy, i, m - 1);
  }

  /** Every index in o is a position of y, and their samples never increase
      along o. */
  ghost predicate DescendingBy(y: seq<real>, o: seq<nat>) {
    (forall a :: 0 <= a < |o| ==> o[a] < |y|) &&
    forall a, b :: 0 <= a < b < |o| ==> y[o[a]] >= y[o[b]]
  }

  /** A height no sample of o and not y[p] exceeds is exceeded by no sample of
      a sequence holding exactly those indices. */
  lemma UpperBoundKept(y: seq<real>, r: seq<nat>, o: seq<nat>, p: nat, h: real)
    requires multiset(r) == multiset(o) + multiset{p}
    requires forall k :: 0 <= k < |o| ==> o[k] < |y| && y[o[k]] <= h
    requires p < |y| && y[p] <= h
    ensures forall k :: 0 <= k < |r| ==> r[k] < |y| && y[r[k]] <= h
  {
    forall k | 0 <= k < |r| ensures r[k] < |y| && y[r[k]] <= h {
      assert r[k] in multiset(r);
      if r[k] != p {
        assert r[k] in multiset(o);
        assert r[k] in o;
      }
    }
  }

  function InsertByHeight(y: seq<real>, p: nat, o: seq<nat>): (r: seq<nat>)
    requires p < |y| && DescendingBy(y, o)
    ensures DescendingBy(y, r)
    ensures multiset(r) == multiset(o) + multiset{p}
  {
    if o == [] || y[p] >= y[o[0]] then [p] + o
    else
      var rest := InsertByHeight(y, p, o[1..]);
      assert o == [o[0]] + o[1..];
      UpperBoundKept(y, rest, o[1..], p, y[o[0]]);
      PrependDescending(y, o[0], rest);
      [o[0]] + rest
  }

  /** An index at least as high as every entry of a descending sequence can be
      put in front of it. */
  lemma PrependDescending(y: seq<real>, q: nat, r: seq<nat>)
    requires q < |y| && DescendingBy(y, r)
    requires forall k :: 0 <= k < |r| ==> y[r[k]] <= y[q]
    ensures DescendingBy(y, [q] + r)
  {
    var s := [q] + r;
    forall a, b | 0 <= a < b < |s| ensures y[s[a]] >= y[s[b]] {
      if a > 0 {
        assert s[a] == r[a - 1] && s[b] == r[b - 1];
      } else {
        assert s[b] == r[b - 1];
      }
    }
  }

  /** peaks[np.argsort(y[peaks])][::-1]: the peaks from highest to lowest. */
  function ByHeight(y: seq<real>, peaks: seq<nat>): (o: seq<nat>)
    requires forall k :: 0 <= k < |peaks| ==> peaks[k] < |y|
    ensures DescendingBy(y, o)
    ensures multiset(o) == multiset(peaks)
    ensures |o| == |peaks|
  {
    if peaks == [] then []
    else
      assert peaks == [peaks[0]] + peaks[1..];
      InsertByHeight(y, peaks[0], ByHeight(y, peaks[1..]))
  }

  /** remValues after remValues[peaks] = False: set everywhere but at the
      peaks. */
  function InitialRemoval(n: nat, peaks: seq<nat>): (rem: seq<bool>)
    ensures |rem| == n
  {
    seq(n, i requires 0 <= i < n => i !in peaks)
  }

  /** Position i lies in slice(max(0, p - minDist), p + minDist + 1). */
  predicate InReach(p: nat, d: nat, i: int) {
    p - d <= i <= p + d
  }

  /** One iteration of the suppression loop for the peak p: a peak already
      removed is skipped; otherwise everything within minDist of it is
      removed and p itself is kept. */
  function SuppressStep(rem: seq<bool>, p: nat, d: nat): (r: seq<bool>)
    requires p < |rem|
    ensures |r| == |rem|
  {
    if rem[p] then rem
    else
      seq(|rem|, i requires 0 <= i < |rem| =>
        if i == p then false else if InReach(p, d, i) then true else rem[i])
  }

  /** remValues after the first k iterations over the peaks in order. */
  function Suppress(rem: seq<bool>, order: seq<nat>, d: nat, k: nat): (r: seq<bool>)
    requires k <= |order| && forall a :: 0 <= a < |order| ==> order[a] < |rem|
    ensures |r| == |rem|
  {
    if k == 0 then rem else SuppressStep(Suppress(rem, order, d, k - 1), order[k - 1], d)
  }

  /** np.arange(n)[~remValues] over the first n positions. */
  function SurvivorsBefore(rem: seq<bool>, n: nat): (s: seq<nat>)
    requires n <= |rem|
    ensures StrictlyIncreasing(s)
    ensures forall k :: 0 <= k < |s| ==> s[k] < n && !rem[s[k]]
    ensures forall i :: 0 <= i < n && !rem[i] ==> i in s
  {
    if n == 0 then [] else SurvivorsBefore(rem, n - 1) + (if rem[n - 1] then [] else [n - 1])
  }

  function Survivors(rem: seq<bool>): (s: seq<nat>)
    ensures StrictlyIncreasing(s)
    ensures forall k :: 0 <= k < |s| ==> s[k] < |rem| && !rem[s[k]]
    ensures forall i :: 0 <= i < |rem| && !rem[i] ==> i in s
  {
    SurvivorsBefore(rem, |rem|)
  }

  /** The loop never removes less than it started with: a position that ends
      up kept was kept at the start. */
  lemma {:induction false} SuppressOnlyKeepsKept(rem: seq<bool>, order: seq<nat>, d: nat, k: nat, i: nat)
    requires k <= |order| && forall a :: 0 <= a < |order| ==> order[a] < |rem|
    requires i < |rem|
    ensures !Suppress(rem, order, d, k)[i] ==> !rem[i]
  {
    if k > 0 {
      SuppressOnlyKeepsKept(rem, order, d, k - 1, i);
    }
  }

  /** After k iterations, a processed peak that is still kept has nothing
      else kept within minDist of it. */
  lemma {:induction false} SuppressSeparates(rem: seq<bool>, order: seq<nat>, d: nat, k: nat, a: nat, i: nat)
    requires k <= |order| && forall a :: 0 <= a < |order| ==> order[a] < |rem|
    requires a < k && i < |rem|
    ensures i != order[a] && InReach(order[a], d, i) && !Suppress(rem, order, d, k)[order[a]] ==>
      Suppress(rem, order, d, k)[i]
  {
    var q := order[k - 1];
    var p := order[a];
    if a < k - 1 {
      SuppressSeparates(rem, order, d, k - 1, a, i);
      if p != q && InReach(p, d, q) {
        SuppressSeparates(rem, order, d, k - 1, a, q);
      }
    }
  }

  /** A processed peak that is kept stays kept through the next iteration:
      any later peak within its reach has already been removed. */
  lemma SuppressKeepsProcessed(rem: seq<bool>, order: seq<nat>, d: nat, k: nat, a: nat)
    requires k <= |order| && forall a :: 0 <= a < |order| ==> order[a] < |rem|
    requires a < k < |order|
    ensures !Suppress(rem, order, d, k)[order[a]] ==> !Suppress(rem, order, d, k + 1)[order[a]]
  {
    SuppressSeparates(rem, order, d, k, a, order[k]);
  }

  /** The first peak processed is never removed when it starts out kept. */
  lemma {:induction false} FirstStaysKept(rem: seq<bool>, order: seq<nat>, d: nat, k: nat)
    requires k <= |order| && forall a :: 0 <= a < |order| ==> order[a] < |rem|
    requires 1 <= k && !rem[order[0]]
    ensures !Suppress(rem, order, d, k)[order[0]]
  {
    if k > 1 {
      FirstStaysKept(rem, order, d, k - 1);
      SuppressKeepsProcessed(rem, order, d, k - 1, 0);
    }
  }

  /** The suppression branch: remValues after visiting every peak from the
      highest to the lowest, read back as the ascending kept positions. */
  function Suppressed(y: seq<real>, peaks: seq<nat>, d: nat): (s: seq<nat>)
    requires forall k :: 0 <= k < |peaks| ==> peaks[k] < |y|
    ensures StrictlyIncreasing(s)
  {
    var order := ByHeight(y, peaks);
    Survivors(Suppress(InitialRemoval(|y|, peaks), order, d, |order|))
  }

  /** Suppression only removes: every survivor is a raw peak. */
  lemma SuppressedArePeaks(y: seq<real>, peaks: seq<nat>, d: nat)
    requires forall k :: 0 <= k < |peaks| ==> peaks[k] < |y|
    ensures forall k :: 0 <= k < |Suppressed(y, peaks, d)| ==> Suppressed(y, peaks, d)[k] in peaks
  {
    var order := ByHeight(y, peaks);
    var init := InitialRemoval(|y|, peaks);
    var s := Suppressed(y, peaks, d);
    forall k | 0 <= k < |s| ensures s[k] in peaks {
      SuppressOnlyKeepsKept(init, order, d, |order|, s[k]);
    }
  }

  /** Any two survivors are more than minDist apart. */
  lemma SuppressedAreApart(y: seq<real>, peaks: seq<nat>, d: nat)
    requires forall k :: 0 <= k < |peaks| ==> peaks[k] < |y|
    ensures forall a, b :: 0 <= a < b < |Suppressed(y, peaks, d)| ==>
      Suppressed(y, peaks, d)[b] - Suppressed(y, peaks, d)[a] > d
  {
    var order := ByHeight(y, peaks);
    var init := InitialRemoval(|y|, peaks);
    var s := Suppressed(y, peaks, d);
    forall a, b | 0 <= a < b < |s| ensures s[b] - s[a] > d {
      SuppressOnlyKeepsKept(init, order, d, |order|, s[a]);
      assert s[a] in multiset(order);
      var c :| 0 <= c < |order| && order[c] == s[a];
      SuppressSeparates(init, order, d, |order|, c, s[b]);
    }
  }

  /** The highest raw peak (the first visited) survives. */
  lemma HighestPeakSurvives(y: seq<real>, peaks: seq<nat>, d: nat)
    requires forall k :: 0 <= k < |peaks| ==> peaks[k] < |y|
    requires |peaks| > 0
    ensures ByHeight(y, peaks)[0] in Suppressed(y, peaks, d)
    ensures forall k :: 0 <= k < |peaks| ==> y[peaks[k]] <= y[ByHeight(y, peaks)[0]]
  {
    var order := ByHeight(y, peaks);
    var init := InitialRemoval(|y|, peaks);
    assert order[0] in multiset(peaks);
    FirstStaysKept(init, order, d, |order|);
    forall k | 0 <= k < |peaks| ensures y[peaks[k]] <= y[order[0]] {
      assert peaks[k] in multiset(order);
      var c :| 0 <= c < |order| && order[c] == peaks[k];
    }
  }

  /** peakFilter(y, thres, minDist): np.max fails on an empty series, the
      plateau loop ends only when the last two samples differ, and the
      suppression branch runs only for more than one raw peak and
      minDist > 1. */
  function PeakIndices(y: seq<real>, thres: real, minDist: nat): (r: Result<seq<nat>>)
    ensures r.Failure? <==> |y| == 0 || (|y| > 1 && y[|y| - 1] == y[|y| - 2])
    ensures r.Success? ==> StrictlyIncreasing(r.value)
  {
    if |y| == 0 then Failure(DegenerateInput)
    else
      var slopes :- Resolve(Diff(y));
      var raw := RawPeaks(y, slopes, Level(y, thres));
      if |raw| > 1 && minDist > 1 then Success(Suppressed(y, raw, minDist)) else Success(raw)
  }

  /** Every reported index passes the peak test on the filled slopes: inside
      the series, rising into it, falling out of it, above the level; so it
      is a local maximum of the series. */
  lemma PeakIndicesArePeaks(y: seq<real>, thres: real, minDist: nat)
    requires PeakIndices(y, thres, minDist).Success?
    ensures forall k :: 0 <= k < |PeakIndices(y, thres, minDist).value| ==>
      PeakOf(y, thres, PeakIndices(y, thres, minDist).value[k])
  {
    var v := PeakIndices(y, thres, minDist).value;
    ReportedAreCandidates(y, thres, minDist);
    forall k | 0 <= k < |v| ensures PeakOf(y, thres, v[k]) {
      CandidateIsPeak(y, thres, v[k]);
    }
  }

  /** Every reported index is one of the raw peaks. */
  lemma ReportedAreCandidates(y: seq<real>, thres: real, minDist: nat)
    requires PeakIndices(y, thres, minDist).Success?
    ensures |y| > 0
    ensures forall k :: 0 <= k < |PeakIndices(y, thres, minDist).value| ==>
      PeakIndices(y, thres, minDist).value[k] in Candidates(y, thres)
  {
    var raw := Candidates(y, thres);
    if |raw| > 1 && minDist > 1 {
      assert PeakIndices(y, thres, minDist).value == Suppressed(y, raw, minDist);
      SuppressedArePeaks(y, raw, minDist);
    } else {
      assert PeakIndices(y, thres, minDist).value == raw;
    }
  }

  /** A raw peak is a peak: the test holds and it is a local maximum. */
  lemma CandidateIsPeak(y: seq<real>, thres: real, i: nat)
    requires |y| > 0 && (|y| > 1 ==> y[|y| - 1] != y[|y| - 2])
    requires i in Candidates(y, thres)
    ensures PeakOf(y, thres, i)
  {
    var raw := Candidates(y, thres);
    var k :| 0 <= k < |raw| && raw[k] == i;
    PeakIsLocalMaximum(y, Level(y, thres), i);
  }

  /** Without suppression every index passing the peak test is reported. */
  lemma PeakIndicesComplete(y: seq<real>, thres: real, minDist: nat, i: int)
    requires PeakIndices(y, thres, minDist).Success? && minDist <= 1
    ensures PeakOf(y, thres, i) ==> i in PeakIndices(y, thres, minDist).value
  {
  }

  /** The raw peaks of y at the relative threshold thres. */
  function Candidates(y: seq<real>, thres: real): (p: seq<nat>)
    requires |y| > 0
    ensures forall k :: 0 <= k < |p| ==> IsPeak(y, Resolved(Diff(y)), Level(y, thres), p[k])
  {
    RawPeaks(y, Resolved(Diff(y)), Level(y, thres))
  }

  /** With minDist > 1 any two reported peaks are more than minDist apart. */
  lemma PeakIndicesApart(y: seq<real>, thres: real, minDist: nat)
    requires PeakIndices(y, thres, minDist).Success? && minDist > 1
    ensures forall a, b :: 0 <= a < b < |PeakIndices(y, thres, minDist).value| ==>
      PeakIndices(y, thres, minDist).value[b] - PeakIndices(y, thres, minDist).value[a] > minDist
  {
    var raw := Candidates(y, thres);
    if |raw| > 1 {
      SuppressedAreApart(y, raw, minDist);
    } else {
      assert |PeakIndices(y, thres, minDist).value| <= 1;
    }
  }

  /** The highest raw peak is always reported. */
  lemma PeakIndicesKeepHighest(y: seq<real>, thres: real, minDist: nat)
    requires PeakIndices(y, thres, minDist).Success?
    ensures |y| > 0
    ensures |Candidates(y, thres)| > 0 ==>
      ByHeight(y, Candidates(y, thres))[0] in PeakIndices(y, thres, minDist).value
  {
    var raw := Candidates(y, thres);
    if |raw| > 1 && minDist > 1 {
      HighestPeakSurvives(y, raw, minDist);
    } else if |raw| > 0 {
      assert ByHeight(y, raw)[0] in multiset(raw);
    }
  }
}
