/** The blanking filter: the positions where the series holds the sentinel 0,
    their grouping into runs, the imputation of each run from its two
    neighbours, and the 0/1 scale mapping that marks each run widened by
    half a window. */
module Blanking {
  import opened Stats

  /** The sentinel positions among the first n samples, in increasing order. */
  function ZerosBefore(y: seq<real>, n: nat): (z: seq<nat>)
    requires n <= |y|
    ensures StrictlyIncreasing(z)
    ensures forall a :: 0 <= a < |z| ==> z[a] < n && y[z[a]] == 0.0
    ensures forall i :: 0 <= i < n && y[i] == 0.0 ==> i in z
  {
    if n == 0 then []
    else ZerosBefore(y, n - 1) + (if y[n - 1] == 0.0 then [n - 1] else [])
  }

  /** np.where(y == 0): every sentinel position, in increasing order. */
  function ZeroIndices(y: seq<real>): (z: seq<nat>)
    ensures StrictlyIncreasing(z)
    ensures forall a :: 0 <= a < |z| ==> z[a] < |y| && y[z[a]] == 0.0
    ensures forall i :: 0 <= i < |y| && y[i] == 0.0 ==> i in z
  {
    ZerosBefore(y, |y|)
  }

  /** Entry a of zeroIndices is followed by a gap: the next entry is not the
      next position, np.diff(zeroIndices)[a] != 1. */
  predicate IsBreak(z: seq<nat>, a: int) {
    0 <= a && a + 1 < |z| && z[a + 1] as int - z[a] as int != 1
  }

  /** The breaks among the first n entries, in increasing order. */
  function BreaksBefore(z: seq<nat>, n: nat): (b: seq<nat>)
    requires n <= |z|
    ensures StrictlyIncreasing(b)
    ensures forall j :: 0 <= j < |b| ==> b[j] < n && IsBreak(z, b[j])
    ensures forall a :: 0 <= a < n && IsBreak(z, a) ==> a in b
  {
    if n == 0 then []
    else BreaksBefore(z, n - 1) + (if IsBreak(z, n - 1) then [n - 1] else [])
  }

  /** np.where(np.diff(zeroIndices) != 1): every break, in increasing order. */
  function Breaks(z: seq<nat>): (b: seq<nat>)
    ensures StrictlyIncreasing(b)
    ensures forall j :: 0 <= j < |b| ==> IsBreak(z, b[j])
    ensures forall a :: 0 <= a < |z| && IsBreak(z, a) ==> a in b
  {
    BreaksBefore(z, |z|)
  }

  /** A block of sentinel positions, first and last position included. */
  datatype Run = Run(start: nat, end: nat)

  predicate InRun(r: Run, t: int) {
    r.start <= t <= r.end
  }

  /** b lists exactly the breaks of the strictly increasing, non-empty index
      array z, in increasing order. */
  ghost predicate BreaksOf(z: seq<nat>, b: seq<nat>) {
    |z| > 0 && StrictlyIncreasing(z) && StrictlyIncreasing(b) &&
    (forall j :: 0 <= j < |b| ==> IsBreak(z, b[j])) &&
    (forall a :: 0 <= a < |z| && IsBreak(z, a) ==> a in b)
  }

  /** The index in zeroIndices of the first entry of run k: zeroIndices[0] for
      the first run, the entry after the (k-1)-th break for the others. */
  function FirstOf(b: seq<nat>, k: nat): nat
    requires k <= |b|
  {
    if k == 0 then 0 else b[k - 1] + 1
  }

  /** The index in zeroIndices of the last entry of run k: the k-th break, or
      the last entry for the final run. */
  function LastOf(z: seq<nat>, b: seq<nat>, k: nat): int
    requires k <= |b|
  {
    if k == |b| then |z| - 1 else b[k]
  }

  /** Run k as timeIndices pairs it up: (zeroIndices[0], zeroIndices[tmp[0]]),
      (zeroIndices[tmp[0] + 1], zeroIndices[tmp[1]]), ..., (zeroIndices[tmp[-1] + 1],
      zeroIndices[-1]); with no break this is the single run (zeroIndices[0],
      zeroIndices[-1]). */
  function RunAt(z: seq<nat>, b: seq<nat>, k: nat): (r: Run)
    requires BreaksOf(z, b) && k <= |b|
    ensures 0 <= FirstOf(b, k) <= LastOf(z, b, k) < |z|
    ensures r.start == z[FirstOf(b, k)] && r.end == z[LastOf(z, b, k)]
  {
    assert k > 0 && k < |b| ==> b[k - 1] < b[k];
    Run(z[FirstOf(b, k)], z[LastOf(z, b, k)])
  }

  /** All the runs of an index array, one per break plus the final one, in
      increasing order with a non-run position between any two. */
  function RunsOf(z: seq<nat>, b: seq<nat>): (rs: seq<Run>)
    requires BreaksOf(z, b)
    ensures |rs| == |b| + 1
    ensures forall k :: 0 <= k < |rs| ==> rs[k] == RunAt(z, b, k)
    ensures forall j, k :: 0 <= j < k < |rs| ==> rs[j].end + 1 < rs[k].start
  {
    var rs := seq(|b| + 1, k requires 0 <= k <= |b| => RunAt(z, b, k));
    forall j, k | 0 <= j < k < |rs| ensures rs[j].end + 1 < rs[k].start {
      RunsAreSeparated(z, b, j, k);
    }
    rs
  }

  ghost predicate WithinSeries(rs: seq<Run>, n: nat) {
    forall k :: 0 <= k < |rs| ==> rs[k].start <= rs[k].end < n
  }

  /** The sentinel runs of a series, in the order the filter visits them. */
  function GapRuns(y: seq<real>): (rs: seq<Run>)
    ensures WithinSeries(rs, |y|)
  {
    var z := ZeroIndices(y);
    if z == [] then [] else RunsOf(z, Breaks(z))
  }

  /** Strictly increasing naturals grow by at least one per step. */
  lemma {:induction false} Spread(z: seq<nat>, a: int, c: int)
    requires StrictlyIncreasing(z) && 0 <= a <= c < |z|
    ensures z[a] + (c - a) <= z[c]
  {
    if a < c {
      Spread(z, a, c - 1);
      assert z[c - 1] < z[c];
    }
  }

  /** No entry strictly inside run k, before its last one, is a break. */
  lemma NoBreakInsideRun(z: seq<nat>, b: seq<nat>, k: nat, a: int)
    requires BreaksOf(z, b) && k <= |b|
    requires FirstOf(b, k) <= a < LastOf(z, b, k)
    ensures !IsBreak(z, a)
  {
    forall i | 0 <= i < |b| ensures b[i] != a {
      if i < k {
        assert b[i] <= b[k - 1];
      } else {
        assert b[k] <= b[i];
      }
    }
  }

  /** The entries of a run are consecutive positions. */
  lemma {:induction false} RunIsConsecutive(z: seq<nat>, b: seq<nat>, k: nat, j: int)
    requires BreaksOf(z, b) && k <= |b|
    requires FirstOf(b, k) <= j <= LastOf(z, b, k)
    ensures z[j] == z[FirstOf(b, k)] + (j - FirstOf(b, k))
  {
    if j > FirstOf(b, k) {
      RunIsConsecutive(z, b, k, j - 1);
      NoBreakInsideRun(z, b, k, j - 1);
      assert z[j - 1] < z[j];
    }
  }

  /** Every position between the endpoints of run k is an entry of z. */
  lemma RunIsFull(z: seq<nat>, b: seq<nat>, k: nat, t: int)
    requires BreaksOf(z, b) && k <= |b|
    requires InRun(RunAt(z, b, k), t)
    ensures t in z
  {
    var f, l := FirstOf(b, k), LastOf(z, b, k);
    RunIsConsecutive(z, b, k, l);
    RunIsConsecutive(z, b, k, f + (t - z[f]));
  }

  /** The position before a run is not an entry of z. */
  lemma RunStartIsMaximal(z: seq<nat>, b: seq<nat>, k: nat)
    requires BreaksOf(z, b) && k <= |b|
    ensures forall a :: 0 <= a < |z| ==> z[a] + 1 != RunAt(z, b, k).start
  {
    var f := FirstOf(b, k);
    forall a | 0 <= a < |z| ensures z[a] + 1 != z[f] {
      if a >= f {
        Spread(z, f, a);
      } else {
        Spread(z, a, f - 1);
        assert IsBreak(z, b[k - 1]) && z[f - 1] < z[f];
      }
    }
  }

  /** The position after a run is not an entry of z. */
  lemma RunEndIsMaximal(z: seq<nat>, b: seq<nat>, k: nat)
    requires BreaksOf(z, b) && k <= |b|
    ensures forall a :: 0 <= a < |z| ==> z[a] != RunAt(z, b, k).end + 1
  {
    var l := LastOf(z, b, k);
    forall a | 0 <= a < |z| ensures z[a] != z[l] + 1 {
      if a <= l {
        Spread(z, a, l);
      } else {
        Spread(z, l + 1, a);
        assert IsBreak(z, b[k]) && z[l] < z[l + 1];
      }
    }
  }

  /** Each run ends at least two positions before the next begins. */
  lemma RunsAreSeparated(z: seq<nat>, b: seq<nat>, j: nat, k: nat)
    requires BreaksOf(z, b) && j < k <= |b|
    ensures RunAt(z, b, j).end + 1 < RunAt(z, b, k).start
  {
    assert b[j] <= b[k - 1];
    Spread(z, b[j] + 1, b[k - 1] + 1);
    assert IsBreak(z, b[j]) && z[b[j]] < z[b[j] + 1];
  }

  /** The first break at or after entry a (|b| when there is none). */
  function FirstBreakFrom(b: seq<nat>, a: nat): (k: nat)
    ensures k <= |b|
    ensures forall i :: 0 <= i < k ==> b[i] < a
    ensures k < |b| ==> b[k] >= a
  {
    if b == [] || b[0] >= a then 0
    else 1 + FirstBreakFrom(b[1..], a)
  }

  /** Entry a of z lies in the run FirstBreakFrom names. */
  lemma EntryIsCovered(z: seq<nat>, b: seq<nat>, a: nat)
    requires BreaksOf(z, b) && a < |z|
    ensures FirstBreakFrom(b, a) <= |b| && InRun(RunAt(z, b, FirstBreakFrom(b, a)), z[a])
  {
    var k := FirstBreakFrom(b, a);
    var f, l := FirstOf(b, k), LastOf(z, b, k);
    Spread(z, f, a);
    Spread(z, a, l);
  }

  /** Runs of positions in increasing order with a non-run position between
      any two of them. */
  ghost predicate Separated(rs: seq<Run>) {
    forall j, k :: 0 <= j < k < |rs| ==> rs[j].end + 1 < rs[k].start
  }

  /** The runs are separated. */
  lemma GapRunsSeparated(y: seq<real>)
    ensures Separated(GapRuns(y))
  {
  }

  /** Position t of run k holds a zero of the series. */
  lemma RunHoldsZero(y: seq<real>, k: nat, t: int)
    requires k < |GapRuns(y)| && InRun(GapRuns(y)[k], t)
    ensures 0 <= t < |y| && y[t] == 0.0
  {
    var z := ZeroIndices(y);
    RunIsFull(z, Breaks(z), k, t);
    var a :| 0 <= a < |z| && z[a] == t;
  }

  /** Each run holds only zeros. */
  lemma GapRunsHoldZeros(y: seq<real>)
    ensures forall k, t :: 0 <= k < |GapRuns(y)| && InRun(GapRuns(y)[k], t) ==> 0 <= t < |y| && y[t] == 0.0
  {
    var rs := GapRuns(y);
    forall k, t | 0 <= k < |rs| && InRun(rs[k], t) ensures 0 <= t < |y| && y[t] == 0.0 {
      RunHoldsZero(y, k, t);
    }
    assert forall k, t :: 0 <= k < |rs| && InRun(rs[k], t) ==> 0 <= t < |y|;
    assert forall k, t :: 0 <= k < |rs| && InRun(rs[k], t) ==> y[t] == 0.0;
  }

  /** The sample before each run is not a sentinel. */
  lemma GapRunsBoundedBefore(y: seq<real>)
    ensures forall k :: 0 <= k < |GapRuns(y)| && GapRuns(y)[k].start > 0 ==> y[GapRuns(y)[k].start - 1] != 0.0
  {
    var z := ZeroIndices(y);
    if z != [] {
      var b := Breaks(z);
      var rs := GapRuns(y);
      forall k | 0 <= k < |rs| && rs[k].start > 0 ensures y[rs[k].start - 1] != 0.0 {
        RunStartIsMaximal(z, b, k);
        var t: nat := rs[k].start - 1;
        assert t !in z;
      }
    }
  }

  /** The sample after each run is not a sentinel. */
  lemma GapRunsBoundedAfter(y: seq<real>)
    ensures forall k :: 0 <= k < |GapRuns(y)| && GapRuns(y)[k].end + 1 < |y| ==> y[GapRuns(y)[k].end + 1] != 0.0
  {
    var z := ZeroIndices(y);
    if z != [] {
      var b := Breaks(z);
      var rs := GapRuns(y);
      forall k | 0 <= k < |rs| && rs[k].end + 1 < |y| ensures y[rs[k].end + 1] != 0.0 {
        RunEndIsMaximal(z, b, k);
        var t: nat := rs[k].end + 1;
        assert t !in z;
      }
    }
  }

  /** Every zero of the series lies in a run. */
  lemma GapRunsCover(y: seq<real>)
    ensures forall t :: 0 <= t < |y| && y[t] == 0.0 ==> exists k :: 0 <= k < |GapRuns(y)| && InRun(GapRuns(y)[k], t)
  {
    var z := ZeroIndices(y);
    var rs := GapRuns(y);
    forall t | 0 <= t < |y| && y[t] == 0.0 ensures exists k :: 0 <= k < |rs| && InRun(rs[k], t) {
      assert t in z;
      var a :| 0 <= a < |z| && z[a] == t;
      EntryIsCovered(z, Breaks(z), a);
    }
  }

  /** The first position a run's imputation writes: the run start, moved to 1
      when the run starts the series (m in the source). */
  function ImputeStart(r: Run): int {
    if r.start <= 0 then 1 else r.start
  }

  /** The bound after the last position written: the run end, moved to
      size - 2 when the run ends the series (M in the source). */
  function ImputeEnd(r: Run, n: nat): int {
    if r.end >= n - 1 then n - 2 else r.end
  }

  /** Position i is overwritten by the imputation of run r: the write
      y[m:M] is half-open, so position M is not. */
  predicate Imputes(r: Run, n: nat, i: int) {
    ImputeStart(r) <= i < ImputeEnd(r, n)
  }

  /** The value written over a run: the mean of the samples just before
      position m and just after position M, which is what np.median of those
      two samples is (FillIsMedian). */
  function Fill(y: seq<real>, r: Run): (v: real)
    requires r.start <= r.end < |y|
  {
    (y[ImputeStart(r) - 1] + y[ImputeEnd(r, |y|) + 1]) / 2.0
  }

  /** The fill is np.median([y[m - 1], y[M + 1]]), and so lies between the two
      neighbouring samples. */
  lemma FillIsMedian(y: seq<real>, r: Run)
    requires r.start <= r.end < |y|
    ensures Fill(y, r) == Median([y[ImputeStart(r) - 1], y[ImputeEnd(r, |y|) + 1]])
    ensures Min([y[ImputeStart(r) - 1], y[ImputeEnd(r, |y|) + 1]]) <= Fill(y, r)
    ensures Fill(y, r) <= Max([y[ImputeStart(r) - 1], y[ImputeEnd(r, |y|) + 1]])
  {
    var a, b := y[ImputeStart(r) - 1], y[ImputeEnd(r, |y|) + 1];
    MedianOfTwo(a, b);
    MinMaxOfTwo(a, b);
  }

  /** y[m:M] = np.median([y[m - 1], y[M + 1]]) for one run. */
  function ImputeRun(y: seq<real>, r: Run): (b: seq<real>)
    requires r.start <= r.end < |y|
    ensures |b| == |y|
  {
    var v := Fill(y, r);
    seq(|y|, i requires 0 <= i < |y| => if Imputes(r, |y|, i) then v else y[i])
  }

  /** The first k runs imputed one after another, each on the series as the
      runs before it left it. */
  function ImputeRuns(y: seq<real>, rs: seq<Run>, k: nat): (b: seq<real>)
    requires WithinSeries(rs, |y|) && k <= |rs|
    ensures |b| == |y|
  {
    if k == 0 then y
    else ImputeRun(ImputeRuns(y, rs, k - 1), rs[k - 1])
  }

  /** A position no run among the first k imputes keeps its value. */
  lemma {:induction false} ImputeRunsKeeps(y: seq<real>, rs: seq<Run>, k: nat, i: int)
    requires WithinSeries(rs, |y|) && k <= |rs| && 0 <= i < |y|
    requires forall j :: 0 <= j < k ==> !Imputes(rs[j], |y|, i)
    ensures ImputeRuns(y, rs, k)[i] == y[i]
  {
    if k > 0 {
      ImputeRunsKeeps(y, rs, k - 1, i);
    }
  }

  /** Separated runs neither write nor read each other's positions: anything
      from one position before run k to one position after it lies outside
      every other run. */
  lemma OutsideOtherRuns(rs: seq<Run>, k: nat, j: nat, p: int)
    requires Separated(rs) && k < |rs| && j < |rs| && j != k
    requires rs[k].start - 1 <= p <= rs[k].end + 1
    ensures !InRun(rs[j], p)
  {
    if j < k {
      assert rs[j].end + 1 < rs[k].start;
    } else {
      assert rs[k].end + 1 < rs[j].start;
    }
  }

  /** No run before run j writes either sample run j reads. */
  lemma NeighboursUntouched(rs: seq<Run>, n: nat, j: nat)
    requires WithinSeries(rs, n) && Separated(rs) && j < |rs|
    ensures forall q :: 0 <= q < j ==> !Imputes(rs[q], n, ImputeStart(rs[j]) - 1)
    ensures forall q :: 0 <= q < j ==> !Imputes(rs[q], n, ImputeEnd(rs[j], n) + 1)
  {
    var m, hi := ImputeStart(rs[j]), ImputeEnd(rs[j], n);
    forall q | 0 <= q < j ensures !Imputes(rs[q], n, m - 1) && !Imputes(rs[q], n, hi + 1) {
      OutsideOtherRuns(rs, j, q, m - 1);
      OutsideOtherRuns(rs, j, q, hi + 1);
    }
  }

  /** The two samples run j reads are untouched by the runs before it, so its
      fill is the one computed from the original series. */
  lemma FillReadsOriginal(y: seq<real>, rs: seq<Run>, j: nat)
    requires WithinSeries(rs, |y|) && Separated(rs) && j < |rs|
    ensures Fill(ImputeRuns(y, rs, j), rs[j]) == Fill(y, rs[j])
  {
    NeighboursKept(y, rs, j);
    FillDependsOnNeighbours(ImputeRuns(y, rs, j), y, rs[j]);
  }

  /** The samples just before and just after run j still hold their original
      values when the runs before it are done. */
  lemma NeighboursKept(y: seq<real>, rs: seq<Run>, j: nat)
    requires WithinSeries(rs, |y|) && Separated(rs) && j < |rs|
    ensures 0 < ImputeStart(rs[j]) && ImputeEnd(rs[j], |y|) + 1 < |y|
    ensures var a, m, hi := ImputeRuns(y, rs, j), ImputeStart(rs[j]), ImputeEnd(rs[j], |y|);
      a[m - 1] == y[m - 1] && a[hi + 1] == y[hi + 1]
  {
    var m, hi := ImputeStart(rs[j]), ImputeEnd(rs[j], |y|);
    NeighboursUntouched(rs, |y|, j);
    ImputeRunsKeeps(y, rs, j, m - 1);
    ImputeRunsKeeps(y, rs, j, hi + 1);
  }

  /** A fill depends on the two neighbouring samples only. */
  lemma FillDependsOnNeighbours(a: seq<real>, b: seq<real>, r: Run)
    requires r.start <= r.end < |a| == |b|
    requires a[ImputeStart(r) - 1] == b[ImputeStart(r) - 1]
    requires a[ImputeEnd(r, |a|) + 1] == b[ImputeEnd(r, |a|) + 1]
    ensures Fill(a, r) == Fill(b, r)
  {
  }

  /** Every position run j imputes holds, after the first k runs, the fill
      computed from the original series. */
  lemma {:induction false} ImputeRunsFills(y: seq<real>, rs: seq<Run>, k: nat, j: nat, i: int)
    requires WithinSeries(rs, |y|) && Separated(rs) && j < k <= |rs|
    requires Imputes(rs[j], |y|, i)
    ensures ImputeRuns(y, rs, k)[i] == Fill(y, rs[j])
    decreases k
  {
    if k == j + 1 {
      RunFillsOnce(y, rs, k, i);
    } else {
      ImputeRunsFills(y, rs, k - 1, j, i);
      LaterRunKeeps(y, rs, k, j, i, Fill(y, rs[j]));
    }
  }

  /** Run j writes, over position i, the fill computed from the original
      series. */
  lemma RunFillsOnce(y: seq<real>, rs: seq<Run>, k: nat, i: int)
    requires WithinSeries(rs, |y|) && Separated(rs) && 0 < k <= |rs|
    requires Imputes(rs[k - 1], |y|, i)
    ensures ImputeRuns(y, rs, k)[i] == Fill(y, rs[k - 1])
  {
    ImputeRunsLast(y, rs, k, i);
    FillReadsOriginal(y, rs, k - 1);
  }

  /** Run k - 1 leaves alone a position that run j imputes. */
  lemma LaterRunKeeps(y: seq<real>, rs: seq<Run>, k: nat, j: nat, i: int, v: real)
    requires WithinSeries(rs, |y|) && Separated(rs) && j < k - 1 && k <= |rs|
    requires Imputes(rs[j], |y|, i) && ImputeRuns(y, rs, k - 1)[i] == v
    ensures ImputeRuns(y, rs, k)[i] == v
  {
    OutsideOtherRuns(rs, j, k - 1, i);
    ImputeRunsLast(y, rs, k, i);
  }

  /** Position i after k runs: the fill of run k - 1 when that run imputes
      it, its value after k - 1 runs otherwise. */
  lemma ImputeRunsLast(y: seq<real>, rs: seq<Run>, k: nat, i: int)
    requires WithinSeries(rs, |y|) && 0 < k <= |rs| && 0 <= i < |y|
    ensures var prev := ImputeRuns(y, rs, k - 1);
      ImputeRuns(y, rs, k)[i] == if Imputes(rs[k - 1], |y|, i) then Fill(prev, rs[k - 1]) else prev[i]
  {
  }

  /** The blanked series: every run of sentinels imputed (lines 45-53, the
      single-run rule, applied to each run in turn). */
  function BlankedSeries(y: seq<real>): (b: seq<real>)
    ensures |b| == |y|
  {
    ImputeRuns(y, GapRuns(y), |GapRuns(y)|)
  }

  /** Blanking overwrites only positions [m, M) of each run, each with the
      median of the original samples at m - 1 and M + 1, and leaves every
      other position as it was. */
  lemma BlankingImputes(y: seq<real>)
    ensures forall k, i :: 0 <= k < |GapRuns(y)| && Imputes(GapRuns(y)[k], |y|, i) ==>
      BlankedSeries(y)[i] == (y[ImputeStart(GapRuns(y)[k]) - 1] + y[ImputeEnd(GapRuns(y)[k], |y|) + 1]) / 2.0
    ensures forall i :: 0 <= i < |y| && (forall k :: 0 <= k < |GapRuns(y)| ==> !Imputes(GapRuns(y)[k], |y|, i)) ==>
      BlankedSeries(y)[i] == y[i]
  {
    var rs := GapRuns(y);
    GapRunsSeparated(y);
    forall k, i | 0 <= k < |rs| && Imputes(rs[k], |y|, i)
      ensures BlankedSeries(y)[i] == Fill(y, rs[k])
    {
      ImputeRunsFills(y, rs, |rs|, k, i);
    }
    forall i | 0 <= i < |y| && (forall k :: 0 <= k < |rs| ==> !Imputes(rs[k], |y|, i))
      ensures BlankedSeries(y)[i] == y[i]
    {
      ImputeRunsKeeps(y, rs, |rs|, i);
    }
  }

  /** Clamping keeps every read and write of a run's imputation inside the
      series: 1 <= m, M <= size - 2, the positions written lie inside the run
      and the two positions read lie inside the series. */
  lemma ImputationInBounds(r: Run, n: nat)
    requires r.start <= r.end < n
    ensures 1 <= ImputeStart(r) && ImputeEnd(r, n) <= n - 2
    ensures 0 <= ImputeStart(r) - 1 < n && 0 <= ImputeEnd(r, n) + 1 < n
    ensures forall i :: Imputes(r, n, i) ==> InRun(r, i) && 1 <= i <= n - 3
  {
  }

  /** Only sentinel samples are replaced: a non-zero sample survives blanking. */
  lemma BlankingKeepsSamples(y: seq<real>)
    ensures forall i :: 0 <= i < |y| && y[i] != 0.0 ==> BlankedSeries(y)[i] == y[i]
  {
    var rs := GapRuns(y);
    GapRunsHoldZeros(y);
    forall i | 0 <= i < |y| && y[i] != 0.0 ensures BlankedSeries(y)[i] == y[i] {
      assert forall k :: 0 <= k < |rs| ==> !InRun(rs[k], i);
      ImputeRunsKeeps(y, rs, |rs|, i);
    }
  }

  /** Every imputation starts at m >= 1, so the first sample is never
      overwritten: a sentinel there is still 0 after blanking. */
  lemma {:induction false} BlankingKeepsFirst(y: seq<real>)
    requires |y| > 0
    ensures BlankedSeries(y)[0] == y[0]
  {
    ImputeRunsKeeps(y, GapRuns(y), |GapRuns(y)|, 0);
  }

  /** Because the write y[m:M] stops before M, the last sentinel of every run
      is still 0 after blanking (a run of one sample is not imputed at all). */
  lemma LastSentinelOfRunKept(y: seq<real>)
    ensures forall k :: 0 <= k < |GapRuns(y)| ==> BlankedSeries(y)[GapRuns(y)[k].end] == 0.0
  {
    var rs := GapRuns(y);
    GapRunsSeparated(y);
    GapRunsHoldZeros(y);
    forall k | 0 <= k < |rs| ensures BlankedSeries(y)[rs[k].end] == 0.0 {
      var e := rs[k].end;
      forall j | 0 <= j < |rs| ensures !Imputes(rs[j], |y|, e) {
        if j != k {
          OutsideOtherRuns(rs, k, j, e);
        }
      }
      ImputeRunsKeeps(y, rs, |rs|, e);
      assert InRun(rs[k], e);
    }
  }

  /** buff = np.floor(windowSize / 2). */
  function Buff(windowSize: nat): nat {
    windowSize / 2
  }

  /** Position i is set to 1 for run r: the slice [m - buff, M + buff), with a
      start below 0 read as 0. */
  predicate Masks(r: Run, n: nat, buff: nat, i: int) {
    0 <= i < n && ImputeStart(r) - buff <= i < ImputeEnd(r, n) + buff
  }

  /** scaleMapping[m - buff:M + buff] = 1 for one run. */
  function MarkRun(mapping: seq<int>, r: Run, buff: nat): (b: seq<int>)
    ensures |b| == |mapping|
  {
    seq(|mapping|, i requires 0 <= i < |mapping| => if Masks(r, |mapping|, buff, i) then 1 else mapping[i])
  }

  /** The first k runs marked one after another. */
  function MarkRuns(mapping: seq<int>, rs: seq<Run>, buff: nat, k: nat): (b: seq<int>)
    requires k <= |rs|
    ensures |b| == |mapping|
  {
    if k == 0 then mapping
    else MarkRun(MarkRuns(mapping, rs, buff, k - 1), rs[k - 1], buff)
  }

  function Zeros(n: nat): (z: seq<int>)
    ensures |z| == n && forall i :: 0 <= i < n ==> z[i] == 0
  {
    seq(n, i => 0)
  }

  /** The scale mapping: 1 over each run widened by buff on both sides, 0 elsewhere. */
  function ScaleMapping(y: seq<real>, windowSize: nat): (mapping: seq<int>)
    ensures |mapping| == |y|
  {
    MarkRuns(Zeros(|y|), GapRuns(y), Buff(windowSize), |GapRuns(y)|)
  }

  /** A position one of the first k runs masks is 1 after marking them. */
  lemma {:induction false} MarkRunsSets(n: nat, rs: seq<Run>, buff: nat, k: nat, j: nat, i: int)
    requires j < k <= |rs| && Masks(rs[j], n, buff, i)
    ensures MarkRuns(Zeros(n), rs, buff, k)[i] == 1
  {
    if j < k - 1 {
      MarkRunsSets(n, rs, buff, k - 1, j, i);
    }
  }

  /** A position none of the first k runs masks is still 0. */
  lemma {:induction false} MarkRunsClears(n: nat, rs: seq<Run>, buff: nat, k: nat, i: int)
    requires k <= |rs| && 0 <= i < n
    requires forall j :: 0 <= j < k ==> !Masks(rs[j], n, buff, i)
    ensures MarkRuns(Zeros(n), rs, buff, k)[i] == 0
  {
    if k > 0 {
      MarkRunsClears(n, rs, buff, k - 1, i);
    }
  }

  /** The scale mapping has one entry per sample, holds only 0 and 1, and is 1
      exactly within [m - buff, M + buff) of some run. */
  lemma ScaleMappingMarks(y: seq<real>, windowSize: nat)
    ensures forall i :: 0 <= i < |y| ==> ScaleMapping(y, windowSize)[i] in {0, 1}
    ensures forall i :: 0 <= i < |y| ==> (ScaleMapping(y, windowSize)[i] == 1 <==>
      exists k :: 0 <= k < |GapRuns(y)| && Masks(GapRuns(y)[k], |y|, Buff(windowSize), i))
  {
    var rs, buff, n := GapRuns(y), Buff(windowSize), |y|;
    forall i | 0 <= i < n
      ensures ScaleMapping(y, windowSize)[i] in {0, 1}
      ensures ScaleMapping(y, windowSize)[i] == 1 <==> exists k :: 0 <= k < |rs| && Masks(rs[k], n, buff, i)
    {
      if exists k :: 0 <= k < |rs| && Masks(rs[k], n, buff, i) {
        var k :| 0 <= k < |rs| && Masks(rs[k], n, buff, i);
        MarkRunsSets(n, rs, buff, |rs|, k, i);
      } else {
        MarkRunsClears(n, rs, buff, |rs|, i);
      }
    }
  }

  /** A series without sentinels is left unchanged and its mapping is all 0. */
  lemma NoGapsNoBlanking(y: seq<real>, windowSize: nat)
    requires forall i :: 0 <= i < |y| ==> y[i] != 0.0
    ensures BlankedSeries(y) == y
    ensures ScaleMapping(y, windowSize) == Zeros(|y|)
  {
  }

  /** numpy's reading of a slice bound: a negative bound counts back from the end. */
  function SliceBound(b: int, n: nat): (s: nat)
    ensures s <= n
  {
    if b < 0 then (if b + n < 0 then 0 else b + n)
    else if b > n then n else b
  }

  /** scaleMapping[int(m - buff):int(M + buff)] = 1 as numpy executes it. */
  function MarkRunAsWritten(mapping: seq<int>, r: Run, buff: nat): (b: seq<int>)
    ensures |b| == |mapping|
  {
    var n := |mapping|;
    var lo, hi := SliceBound(ImputeStart(r) - buff, n), SliceBound(ImputeEnd(r, n) + buff, n);
    seq(n, i requires 0 <= i < n => if lo <= i < hi then 1 else mapping[i])
  }

  /** As written, a run at the very start of the series with buff >= 2 makes the
      slice start negative; numpy wraps it to n + 1 - buff and, on any series
      longer than the run's widened span, marks nothing, while the clamped
      slice masks position 0. */
  lemma LeadingGapUnmaskedAsWritten(n: nat, r: Run, buff: nat)
    requires r.start == 0 && r.end < n
    requires buff >= 2 && ImputeEnd(r, n) + buff <= n + 1 - buff
    ensures MarkRunAsWritten(Zeros(n), r, buff) == Zeros(n)
    ensures MarkRun(Zeros(n), r, buff)[0] == 1
  {
  }
}
