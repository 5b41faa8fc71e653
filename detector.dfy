/** The AnomalyDetector class: the stages that work on arrays in place
    (blanking, the Hampel loop, the plateau and suppression loops of
    peakFilter, the aggregation loop) as methods proved equal to the
    functions that specify them, and detectAnomalies chaining the stages. */
module Detector {
  import opened Stats
  import opened Results
  import opened Blanking
  import opened Hampel
  import opened Outliers
  import opened Peaks
  import opened MeanShift
  import opened Aggregate
  import opened Pipeline

  class AnomalyDetector {
    const windowSize: nat
    const threshold: real
    /** The response detectAnomalies stores and blanks in place. */
    var y: array<real>

    constructor (windowSize: nat, threshold: real)
      ensures this.windowSize == windowSize && this.threshold == threshold
      ensures y.Length == 0
    {
      this.windowSize := windowSize;
      this.threshold := threshold;
      y := new real[0];
    }

    /** blankingFilter(y): overwrites each run of sentinel zeros of y in place
        and returns the zero indices and the scale mapping. */
    method BlankingFilter(y: array<real>) returns (zeroIndices: seq<nat>, scaleMapping: seq<int>)
      modifies y
      ensures zeroIndices == ZeroIndices(old(y[..]))
      ensures y[..] == BlankedSeries(old(y[..]))
      ensures scaleMapping == ScaleMapping(old(y[..]), windowSize)
    {
      zeroIndices := ZeroIndices(y[..]);
      var runs := GapRuns(y[..]);
      scaleMapping := MarkAll(y.Length, runs, Buff(windowSize));
      ImputeAll(y, runs);
    }

    /** The runs imputed in y in place, one after the other. */
    static method ImputeAll(y: array<real>, runs: seq<Run>)
      requires WithinSeries(runs, y.Length)
      modifies y
      ensures y[..] == ImputeRuns(old(y[..]), runs, |runs|)
    {
      ghost var y0 := y[..];
      var k := 0;
      while k < |runs|
        invariant 0 <= k <= |runs|
        invariant y[..] == ImputeRuns(y0, runs, k)
      {
        ImputeRunSlice(y, runs[k]);
        k := k + 1;
      }
    }

    /** The scale mapping: np.zeros(y.size) with each run's widened slice set
        to 1, one run after the other. */
    static method MarkAll(n: nat, runs: seq<Run>, buff: nat) returns (scaleMapping: seq<int>)
      ensures scaleMapping == MarkRuns(Zeros(n), runs, buff, |runs|)
    {
      var mapping := new int[n](i => 0);
      assert mapping[..] == Zeros(n);
      var k := 0;
      while k < |runs|
        invariant 0 <= k <= |runs|
        invariant mapping[..] == MarkRuns(Zeros(n), runs, buff, k)
      {
        MarkRunSlice(mapping, runs[k], buff);
        k := k + 1;
      }
      scaleMapping := mapping[..];
    }

    /** scaleMapping[m - buff:M + buff] = 1 for one run, the start clamped at 0. */
    static method MarkRunSlice(mapping: array<int>, r: Run, buff: nat)
      modifies mapping
      ensures mapping[..] == MarkRun(old(mapping[..]), r, buff)
    {
      var n := mapping.Length;
      var lo := ImputeStart(r) - buff;
      var hi := ImputeEnd(r, n) + buff;
      if lo < 0 {
        lo := 0;
      }
      if hi > n {
        hi := n;
      }
      ghost var prev := mapping[..];
      var t := lo;
      while t < hi
        invariant lo <= t <= (if lo <= hi then hi else lo)
        invariant forall i :: 0 <= i < n ==> mapping[i] == (if lo <= i < t then 1 else prev[i])
      {
        mapping[t] := 1;
        t := t + 1;
      }
      forall i | 0 <= i < n ensures mapping[i] == MarkRun(prev, r, buff)[i] {
        assert Masks(r, n, buff, i) <==> lo <= i < t;
      }
    }

    /** y[m:M] = np.median([y[m - 1], y[M + 1]]) for one run. */
    static method ImputeRunSlice(y: array<real>, r: Run)
      requires r.start <= r.end < y.Length
      modifies y
      ensures y[..] == ImputeRun(old(y[..]), r)
    {
      var n := y.Length;
      var lo, hi := ImputeStart(r), ImputeEnd(r, n);
      var v := (y[lo - 1] + y[hi + 1]) / 2.0;
      ghost var prev := y[..];
      assert v == Fill(prev, r);
      var t := lo;
      while t < hi
        invariant lo <= t <= (if lo <= hi then hi else lo)
        invariant forall i :: 0 <= i < n ==> y[i] == (if lo <= i < t then v else prev[i])
      {
        y[t] := v;
        t := t + 1;
      }
      forall i | 0 <= i < n ensures y[i] == ImputeRun(prev, r)[i] {
        assert Imputes(r, n, i) <==> lo <= i < t;
      }
    }


    /** hampelFilter(y, scaleMapping): the per-sample loop filling the running
        median and the local scale, the scale set to 1 where the mapping is 1,
        the band median +/- threshold * 100 * scale, and the smoothed and
        detrended series. y is only read. */
    method HampelFilter(y: array<real>, scaleMapping: seq<int>)
      returns (yDetrended: seq<real>, ySmoothed: seq<real>, sup: seq<real>, inf: seq<real>)
      requires |scaleMapping| == y.Length
      ensures ySmoothed == Smoothed(y[..], windowSize)
      ensures yDetrended == Detrended(y[..], ySmoothed)
      ensures |sup| == |inf| == y.Length
      ensures forall i :: 0 <= i < y.Length ==>
        sup[i] == Sup(y[..], scaleMapping, threshold, i, windowSize) &&
        inf[i] == Inf(y[..], scaleMapping, threshold, i, windowSize)
    {
      var n := y.Length;
      var ys := y[..];
      var median := RunningMedian(ys, windowSize);
      var scale := RunningScale(ys, windowSize);
      ghost var local := scale[..];
      ResetScale(scale, scaleMapping);
      var med, sc := median[..], scale[..];
      sup, inf := Band(ys, scaleMapping, threshold, windowSize, med, local, sc);
      ySmoothed := med;
      yDetrended := seq(n, i requires 0 <= i < n => Abs(ySmoothed[i] - ys[i]));
    }

    /** sup = median + threshold * 100 * scale; inf = median - threshold * 100 * scale. */
    static method Band(ys: seq<real>, mapping: seq<int>, threshold: real, w: nat,
                       med: seq<real>, ghost local: seq<real>, sc: seq<real>)
      returns (sup: seq<real>, inf: seq<real>)
      requires |mapping| == |ys| == |sc| && med == Smoothed(ys, w) && local == LocalScales(ys, w)
      requires forall i :: 0 <= i < |ys| ==> sc[i] == (if mapping[i] == 1 then 1.0 else local[i])
      ensures |sup| == |inf| == |ys|
      ensures forall i :: 0 <= i < |ys| ==>
        sup[i] == Sup(ys, mapping, threshold, i, w) && inf[i] == Inf(ys, mapping, threshold, i, w)
    {
      var n := |ys|;
      sup := seq(n, i requires 0 <= i < n => med[i] + HalfWidth(threshold, sc[i]));
      inf := seq(n, i requires 0 <= i < n => med[i] - HalfWidth(threshold, sc[i]));
    }

    /** scale[np.where(scaleMapping == 1)] = 1. */
    static method ResetScale(scale: array<real>, mapping: seq<int>)
      requires |mapping| == scale.Length
      modifies scale
      ensures forall i :: 0 <= i < scale.Length ==>
        scale[i] == (if mapping[i] == 1 then 1.0 else old(scale[i]))
    {
      forall i | 0 <= i < scale.Length && mapping[i] == 1 {
        scale[i] := 1.0;
      }
    }

    /** The per-sample loop of hampelFilter, median half: median[i] is the
        median of the samples within w of i. */
    static method RunningMedian(ys: seq<real>, w: nat) returns (median: array<real>)
      ensures fresh(median)
      ensures median[..] == Smoothed(ys, w)
    {
      var n := |ys|;
      median := new real[n](i => 0.0);
      ghost var target := Smoothed(ys, w);
      for i := 0 to n
        invariant median.Length == n
        invariant median[..i] == target[..i]
      {
        var m := MedianAt(ys, i, w);
        median[i] := m;
        assert median[..i + 1] == target[..i + 1];
      }
      assert median[..] == median[..n];
    }

    /** median[i] = np.median(y[window]) for one sample: it lies between the
        smallest and the largest sample of the window, so within the range of
        the series. */
    static method MedianAt(ys: seq<real>, i: nat, w: nat) returns (m: real)
      requires i < |ys|
      ensures Min(Window(ys, i, w)) <= m <= Max(Window(ys, i, w))
      ensures Min(ys) <= m <= Max(ys)
      ensures m == Smoothed(ys, w)[i]
    {
      m := LocalMedian(ys, i, w);
      WindowWithinSeries(ys, i, w);
    }

    /** The per-sample loop of hampelFilter, scale half: scale[i] is 1.4826
        times the median absolute deviation of that window. */
    static method RunningScale(ys: seq<real>, w: nat) returns (scale: array<real>)
      ensures fresh(scale)
      ensures scale[..] == LocalScales(ys, w)
    {
      var n := |ys|;
      scale := new real[n](i => 0.0);
      ghost var target := LocalScales(ys, w);
      for i := 0 to n
        invariant scale.Length == n
        invariant scale[..i] == target[..i]
      {
        var sc := ScaleAt(ys, i, w);
        scale[i] := sc;
        assert scale[..i + 1] == target[..i + 1];
      }
      assert scale[..] == scale[..n];
    }

    /** scale[i] = 1.4826 * np.median(np.abs(y[window] - median[i])) for one
        sample: never negative, and 0 when the window is flat. */
    static method ScaleAt(ys: seq<real>, i: nat, w: nat) returns (sc: real)
      requires i < |ys|
      ensures sc >= 0.0
      ensures (forall k :: WindowLo(i, w) <= k < WindowHi(|ys|, i, w) ==> ys[k] == ys[i]) ==> sc == 0.0
      ensures sc == LocalScales(ys, w)[i]
    {
      sc := LocalScale(ys, i, w);
      if forall k :: WindowLo(i, w) <= k < WindowHi(|ys|, i, w) ==> ys[k] == ys[i] {
        ConstantWindow(ys, w, ys[i], i);
      }
    }

    /** meanShiftFilter(s): the step kernel convolved with the smoothed
        response, the absolute response with a 0 appended, its peaks, and
        the index len(s) - 1 deleted when it is among them. */
    method MeanShiftFilter(s: seq<real>) returns (r: Result<(seq<nat>, seq<real>)>)
      ensures r == MeanShift.MeanShiftFilter(s, windowSize)
    {
      var window := KernelWindow(|s|, windowSize);
      if window == 0 {
        return Failure(DegenerateInput);
      }
      var edgeDetector := EdgeResponse(s, window);
      MeanShiftFilterSteps(s, windowSize, edgeDetector);
      var newOutliers :- EdgeOutliers(edgeDetector, |s| - 1);
      return Success((newOutliers, edgeDetector));
    }

    /** newOutliers = peakFilter(edgeDetector), then the index last deleted
        when it is among them. */
    method EdgeOutliers(e: seq<real>, last: nat) returns (r: Result<seq<nat>>)
      ensures r == EdgePeaks(e, last)
    {
      var newOutliers :- PeakFilter(e, 0.05, 1);
      if last in newOutliers {
        newOutliers := Without(newOutliers, last);
      } else {
        WithoutAbsent(newOutliers, last);
      }
      return Success(newOutliers);
    }

    /** findAllAnomalies: msList[ms] = 1, then anomalies[i] = msList[i] + h[i]
        sample by sample. */
    method FindAllAnomalies(h: seq<int>, ms: seq<nat>) returns (anomalies: seq<int>)
      requires forall k :: 0 <= k < |ms| ==> ms[k] < |h|
      ensures anomalies == Severity(h, ms)
    {
      var n := |h|;
      var msList := new int[n](i => 0);
      forall i | 0 <= i < n && i in ms {
        msList[i] := 1;
      }
      assert msList[..] == MeanShiftMarks(n, ms);
      var sums := new int[n](i => 0);
      for i := 0 to n
        invariant msList[..] == MeanShiftMarks(n, ms)
        invariant sums[..i] == Severity(h, ms)[..i]
      {
        sums[i] := msList[i] + h[i];
        assert sums[..i + 1] == Severity(h, ms)[..i + 1];
      }
      assert sums[..] == sums[..n];
      anomalies := sums[..];
    }

    /** detectAnomalies(input): stores the response, blanks it in place, and
        chains the Hampel filter, the threshold outliers, the mean-shift
        filter and the aggregation. */
    method DetectAnomalies(input: seq<real>) returns (r: Result<(seq<int>, seq<nat>, seq<real>)>)
      modifies this
      ensures fresh(y) && y[..] == BlankedSeries(input)
      ensures r == Detect(input, windowSize, threshold)
    {
      y := new real[|input|](i requires 0 <= i < |input| => input[i]);
      assert y[..] == input;
      var zeroIndices, scaleMapping := BlankingFilter(y);
      var yDetrended, ySmoothed, sup, inf := HampelFilter(y, scaleMapping);
      var hampelAnomalies :- ThresholdOutliers(y[..], zeroIndices, threshold);
      var meanShift :- MeanShiftFilter(ySmoothed);
      MeanShiftIndices(ySmoothed, windowSize, meanShift);
      var anomalies := FindAllAnomalies(hampelAnomalies, meanShift.0);
      var indexAnomalies := AnomalyIndices(anomalies);
      return Success((anomalies, indexAnomalies, meanShift.1));
    }

    /** The plateau loop of peakFilter on dy = np.diff(y), for a last slope
        that is not zero (otherwise the loop as written never ends,
        TrailingFlatPersists): each pass gives every zero slope its right
        neighbour's old value, until no zero is left. */
    static method FillPlateaus(dy: array<real>)
      requires dy.Length > 0 ==> dy[dy.Length - 1] != 0.0
      modifies dy
      ensures dy[..] == Resolved(old(dy[..]))
    {
      ghost var d0 := dy[..];
      var n := dy.Length;
      assert n > 0 ==> d0[n - 1] != 0.0;
      ghost var k := 0;
      var zeros := FindZeros(dy);
      while |zeros| > 0
        invariant 0 <= k <= n
        invariant dy[..] == Passes(d0, k)
        invariant ZerosFound(dy[..], zeros)
        decreases n - k
      {
        PassBound(d0, k, zeros[0]);
        FillPass(dy, zeros);
        k := k + 1;
        zeros := FindZeros(dy);
      }
      StopsAtResolved(d0, k);
    }

    /** zeros = np.where(dy == 0)[0]. */
    static method FindZeros(dy: array<real>) returns (zeros: seq<nat>)
      ensures ZerosFound(dy[..], zeros)
    {
      zeros := ZeroIndices(dy[..]);
      ZerosWitness(dy[..]);
    }

    /** One pass: zerosRight = np.hstack([dy[1:], 0.0]); dy[zeros] = zerosRight[zeros]. */
    static method FillPass(dy: array<real>, zeros: seq<nat>)
      requires forall i :: 0 <= i < dy.Length ==> (i in zeros <==> dy[i] == 0.0)
      modifies dy
      ensures dy[..] == RightPass(old(dy[..]))
    {
      var n := dy.Length;
      var zerosRight := (if n > 0 then dy[1..] else []) + [0.0];
      forall i | 0 <= i < n && i in zeros {
        dy[i] := zerosRight[i];
      }
    }

    /** The suppression loop: the peaks visited from the highest, each one
        still kept removing every position within minDist of it but itself. */
    static method SuppressLoop(rem: array<bool>, order: seq<nat>, minDist: nat)
      requires forall a :: 0 <= a < |order| ==> order[a] < rem.Length
      modifies rem
      ensures rem[..] == Suppress(old(rem[..]), order, minDist, |order|)
    {
      ghost var r0 := rem[..];
      var n := rem.Length;
      for j := 0 to |order|
        invariant rem[..] == Suppress(r0, order, minDist, j)
      {
        var peak := order[j];
        if !rem[peak] {
          var lo := if peak >= minDist then peak - minDist else 0;
          var hi := peak + minDist + 1;
          forall i | lo <= i < hi && i < n {
            rem[i] := true;
          }
          rem[peak] := false;
        }
      }
    }

    /** peakFilter(y, thres, minDist). */
    method PeakFilter(y: seq<real>, thres: real, minDist: nat) returns (r: Result<seq<nat>>)
      ensures r == PeakIndices(y, thres, minDist)
    {
      if |y| == 0 {
        return Failure(DegenerateInput);
      }
      var level := Level(y, thres);
      var slopes :- Slopes(y);
      var peaks := RawPeaks(y, slopes, level);
      if |peaks| > 1 && minDist > 1 {
        peaks := SuppressPeaks(y, peaks, minDist);
      }
      return Success(peaks);
    }

    /** dy = np.diff(y) with its plateaus filled by the plateau loop; the loop
        as written never ends when the last slope is 0. */
    static method Slopes(y: seq<real>) returns (r: Result<seq<real>>)
      ensures r == Resolve(Diff(y))
    {
      var d0 := Diff(y);
      if |d0| > 0 && d0[|d0| - 1] == 0.0 {
        return Failure(PlateauNotResolved);
      }
      var dy := new real[|d0|](i requires 0 <= i < |d0| => d0[i]);
      assert dy[..] == d0;
      FillPlateaus(dy);
      return Success(dy[..]);
    }

    /** The suppression branch of peakFilter: the peaks ordered by height, the
        removal mask, the suppression loop and the surviving indices. */
    static method SuppressPeaks(y: seq<real>, peaks: seq<nat>, minDist: nat) returns (s: seq<nat>)
      requires forall k :: 0 <= k < |peaks| ==> peaks[k] < |y|
      ensures s == Suppressed(y, peaks, minDist)
    {
      var highestPeaks := ByHeight(y, peaks);
      var remValues := new bool[|y|](i => true);
      forall i | 0 <= i < |y| && i in peaks {
        remValues[i] := false;
      }
      assert remValues[..] == InitialRemoval(|y|, peaks);
      assert forall a :: 0 <= a < |highestPeaks| ==> highestPeaks[a] in multiset(peaks);
      SuppressLoop(remValues, highestPeaks, minDist);
      s := Survivors(remValues[..]);
    }
  }

  /** A zero left after k passes means the loop has run fewer than len(dy)
      passes. */
  lemma PassBound(d0: seq<real>, k: nat, i: nat)
    requires |d0| > 0 ==> d0[|d0| - 1] != 0.0
    requires k <= |d0| && i < |d0| && Passes(d0, k)[i] == 0.0
    ensures k < |d0|
  {
    PassesResolveAll(d0);
  }

  /** What the plateau loop knows of zeros = np.where(dy == 0): exactly the
      zero slopes are listed, the first entry is one of them, and an empty
      list means there is none. */
  ghost predicate ZerosFound(s: seq<real>, zeros: seq<nat>) {
    (forall i :: 0 <= i < |s| ==> (i in zeros <==> s[i] == 0.0)) &&
    (|zeros| > 0 ==> zeros[0] < |s| && s[zeros[0]] == 0.0) &&
    (|zeros| == 0 ==> NoZeros(s))
  }

  lemma ZerosWitness(s: seq<real>)
    ensures ZerosFound(s, ZeroIndices(s))
  {
    var z := ZeroIndices(s);
    forall i | 0 <= i < |s| ensures i in z <==> s[i] == 0.0 {
      if i in z {
        var a :| 0 <= a < |z| && z[a] == i;
      }
    }
    if |z| == 0 {
      assert forall i :: 0 <= i < |s| ==> (i in z <==> s[i] == 0.0);
    }
  }
}
