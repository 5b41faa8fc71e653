/** meanShiftFilter: a step kernel of `window` ones followed by `window`
    minus-ones, its 'same'-mode convolution with the smoothed series (the
    difference between the sums of the `window` samples from i on and the
    `window` samples before i), the absolute response with a 0 appended, and
    its peaks without the index len(s) - 1. */
module MeanShift {
  import opened Stats
  import opened Results
  import opened Peaks

  /** np.round(num / 100) for a non-negative num: the nearest integer, ties
      going to the even one. */
  function RoundHundredths(num: nat): (r: nat)
    ensures 2 * num <= 100 * (2 * r + 1) && 100 * (2 * r - 1) <= 2 * num
    ensures 2 * num == 100 * (2 * r + 1) || 2 * num == 100 * (2 * r - 1) ==> r % 2 == 0
  {
    var q := num / 100;
    var rem := num % 100;
    if 2 * rem > 100 then q + 1
    else if 2 * rem < 100 then q
    else if q % 2 == 0 then q
    else q + 1
  }

  /** window = int(np.min([np.round(0.03 * len(s)), windowSize])). */
  function KernelWindow(n: nat, windowSize: nat): (w: nat)
    ensures w <= windowSize
    ensures w >= 1 ==> 2 * w <= n
  {
    var r := RoundHundredths(3 * n);
    if r <= windowSize then r else windowSize
  }

  /** K = np.concatenate((np.ones(window), -1 * np.ones(window))). */
  function StepKernel(w: nat): (k: seq<real>)
    ensures |k| == 2 * w
  {
    seq(2 * w, t requires 0 <= t < 2 * w => if t < w then 1.0 else -1.0)
  }

  /** s[u], or 0 outside the series (the zero padding of the convolution). */
  function At(s: seq<real>, u: int): real {
    if 0 <= u < |s| then s[u] else 0.0
  }

  /** The first T terms k[t] * s[j - t] of the full convolution at j. */
  function ConvTerms(s: seq<real>, k: seq<real>, j: int, T: nat): real
    requires T <= |k|
  {
    if T == 0 then 0.0 else ConvTerms(s, k, j, T - 1) + k[T - 1] * At(s, j - (T - 1))
  }

  /** np.convolve(s, k, mode = 'same') for a kernel no longer than s: the
      full convolution from index (len(k) - 1) / 2 on, len(s) values. */
  function ConvolveSame(s: seq<real>, k: seq<real>): (c: seq<real>)
    requires 0 < |k| <= |s|
    ensures |c| == |s|
  {
    seq(|s|, i requires 0 <= i < |s| => ConvTerms(s, k, i + (|k| - 1) / 2, |k|))
  }

  /** The sum of the len samples from lo on (0 outside the series). */
  function WindowSum(s: seq<real>, lo: int, len: nat): real
    decreases len
  {
    if len == 0 then 0.0 else At(s, lo) + WindowSum(s, lo + 1, len - 1)
  }

  /** The step kernel's partial sums: the first T terms at j add the samples
      under the +1 half and subtract those under the -1 half. */
  lemma {:induction false} StepTerms(s: seq<real>, w: nat, j: int, T: nat)
    requires T <= 2 * w
    ensures T <= w ==> ConvTerms(s, StepKernel(w), j, T) == WindowSum(s, j - T + 1, T)
    ensures T > w ==>
      ConvTerms(s, StepKernel(w), j, T) == WindowSum(s, j - w + 1, w) - WindowSum(s, j - T + 1, T - w)
  {
    if T > 0 {
      StepTerms(s, w, j, T - 1);
    }
  }

  /** Each 'same' response is the sum of the window samples from i on minus
      the sum of the window samples before i. */
  lemma StepResponse(s: seq<real>, w: nat, i: nat)
    requires 1 <= w && 2 * w <= |s| && i < |s|
    ensures ConvolveSame(s, StepKernel(w))[i] == WindowSum(s, i, w) - WindowSum(s, i - w, w)
  {
    StepTerms(s, w, i + w - 1, 2 * w);
  }

  lemma {:induction false} WindowSumOfStep(s: seq<real>, p: nat, a: real, b: real, lo: int, len: nat)
    requires 0 <= lo && lo + len <= |s|
    requires forall u :: 0 <= u < |s| ==> s[u] == (if u < p then a else b)
    ensures lo + len <= p ==> WindowSum(s, lo, len) == len as real * a
    ensures p <= lo ==> WindowSum(s, lo, len) == len as real * b
    decreases len
  {
    if len > 0 {
      WindowSumOfStep(s, p, a, b, lo + 1, len - 1);
    }
  }

  /** An edge of the response: a series stepping from a to b at p answers,
      at p, with window * |b - a|. */
  lemma StepIsDetected(s: seq<real>, w: nat, p: nat, a: real, b: real)
    requires 1 <= w && 2 * w <= |s| && w <= p && p + w <= |s|
    requires forall u :: 0 <= u < |s| ==> s[u] == (if u < p then a else b)
    ensures EdgeResponse(s, w)[p] == w as real * Abs(b - a)
  {
    StepConvolution(s, w, p, a, b);
    AbsScale(w as real, b - a);
    assert EdgeResponse(s, w)[p] == Abs(ConvolveSame(s, StepKernel(w))[p]);
  }

  /** Before taking the absolute value: window * (b - a). */
  lemma StepConvolution(s: seq<real>, w: nat, p: nat, a: real, b: real)
    requires 1 <= w && 2 * w <= |s| && w <= p && p + w <= |s|
    requires forall u :: 0 <= u < |s| ==> s[u] == (if u < p then a else b)
    ensures ConvolveSame(s, StepKernel(w))[p] == w as real * (b - a)
  {
    StepResponse(s, w, p);
    WindowSumOfStep(s, p, a, b, p, w);
    WindowSumOfStep(s, p, a, b, p - w, w);
    ScaleDifference(w as real, a, b);
  }

  lemma ScaleDifference(c: real, a: real, b: real)
    ensures c * b - c * a == c * (b - a)
  {
  }

  /** |c * x| = c * |x| for c >= 0. */
  lemma AbsScale(c: real, x: real)
    requires c >= 0.0
    ensures Abs(c * x) == c * Abs(x)
  {
    if x >= 0.0 {
      ScaleMonotone(0.0, x, c);
    } else {
      ScaleMonotone(0.0, -x, c);
      assert c * x == -(c * -x);
    }
  }

  /** Away from the ends, a flat stretch of 2 * window samples answers 0:
      there is no mean shift to see. */
  lemma FlatIsQuiet(s: seq<real>, w: nat, i: nat, c: real)
    requires 1 <= w && 2 * w <= |s| && w <= i && i + w <= |s|
    requires forall u :: i - w <= u < i + w ==> s[u] == c
    ensures EdgeResponse(s, w)[i] == 0.0
  {
    StepResponse(s, w, i);
    FlatWindowSum(s, c, i, w);
    FlatWindowSum(s, c, i - w, w);
  }

  lemma {:induction false} FlatWindowSum(s: seq<real>, c: real, lo: int, len: nat)
    requires 0 <= lo && lo + len <= |s|
    requires forall u :: lo <= u < lo + len ==> s[u] == c
    ensures WindowSum(s, lo, len) == len as real * c
    decreases len
  {
    if len > 0 {
      FlatWindowSum(s, c, lo + 1, len - 1);
    }
  }

  /** edgeDetector = np.append(np.abs(np.convolve(s, K, 'same')), 0). */
  function EdgeResponse(s: seq<real>, w: nat): (e: seq<real>)
    requires 1 <= w && 2 * w <= |s|
    ensures |e| == |s| + 1
    ensures forall i :: 0 <= i < |e| ==> e[i] >= 0.0
    ensures e[|s|] == 0.0
  {
    var c := ConvolveSame(s, StepKernel(w));
    seq(|s| + 1, i requires 0 <= i <= |s| => if i < |s| then Abs(c[i]) else 0.0)
  }

  /** np.delete(p, np.argwhere(p == v)): every entry but v, in order. */
  function Without(p: seq<nat>, v: nat): (r: seq<nat>)
    ensures forall x :: x in r <==> x in p && x != v
    ensures StrictlyIncreasing(p) ==> StrictlyIncreasing(r)
    ensures |r| <= |p|
  {
    if p == [] then []
    else
      var rest := Without(p[1..], v);
      assert forall x :: x in p <==> x == p[0] || x in p[1..];
      if p[0] == v then rest
      else
        assert StrictlyIncreasing(p) ==> forall k :: 0 <= k < |rest| ==> p[0] < rest[k] by {
          if StrictlyIncreasing(p) {
            forall k | 0 <= k < |rest| ensures p[0] < rest[k] {
              assert rest[k] in p[1..];
              var t :| 1 <= t < |p| && p[t] == rest[k];
            }
          }
        }
        [p[0]] + rest
  }

  /** Deleting a value that does not occur changes nothing. */
  lemma {:induction false} WithoutAbsent(p: seq<nat>, v: nat)
    requires v !in p
    ensures Without(p, v) == p
  {
    if p != [] {
      WithoutAbsent(p[1..], v);
      assert [p[0]] + p[1..] == p;
    }
  }

  /** meanShiftFilter(s): the reported indices and the edge response. An empty
      kernel makes np.convolve fail; the plateau loop of peakFilter ends only
      when the response at the last sample is non-zero. */
  function MeanShiftFilter(s: seq<real>, windowSize: nat): (r: Result<(seq<nat>, seq<real>)>)
    ensures r.Failure? <==>
      KernelWindow(|s|, windowSize) == 0 || EdgeResponse(s, KernelWindow(|s|, windowSize))[|s| - 1] == 0.0
    ensures r.Success? ==> |r.value.1| == |s| + 1 && StrictlyIncreasing(r.value.0)
  {
    var w := KernelWindow(|s|, windowSize);
    if w == 0 then Failure(DegenerateInput)
    else
      var e := EdgeResponse(s, w);
      var found :- EdgePeaks(e, |s| - 1);
      Success((found, e))
  }

  /** With a non-empty kernel the filter reports the EdgePeaks of the edge
      response, or fails with them. */
  lemma MeanShiftFilterSteps(s: seq<real>, windowSize: nat, e: seq<real>)
    requires KernelWindow(|s|, windowSize) != 0 && e == EdgeResponse(s, KernelWindow(|s|, windowSize))
    ensures |s| >= 2
    ensures var f := EdgePeaks(e, |s| - 1);
      MeanShiftFilter(s, windowSize) == if f.Failure? then Failure(f.error) else Success((f.value, e))
  {
  }

  /** The peaks of the edge response e (peakFilter with its defaults), without
      the index last. */
  function EdgePeaks(e: seq<real>, last: nat): (r: Result<seq<nat>>)
    ensures r.Failure? <==> PeakIndices(e, 0.05, 1).Failure?
    ensures r.Success? ==> forall x :: x in r.value <==> x in PeakIndices(e, 0.05, 1).value && x != last
  {
    var peaks :- PeakIndices(e, 0.05, 1);
    Success(Without(peaks, last))
  }

  /** On success, the response is the edge response of the kernel window and
      the indices are its EdgePeaks. */
  lemma MeanShiftValue(s: seq<real>, windowSize: nat, r: (seq<nat>, seq<real>))
    requires MeanShiftFilter(s, windowSize) == Success(r)
    ensures |r.1| == |s| + 1 && |s| >= 2 && EdgePeaks(r.1, |s| - 1) == Success(r.0)
  {
  }

  /** Every reported index lies in [1, len(s) - 2] and is a peak of the edge
      response above 5% of its range, so a local maximum of it. */
  lemma MeanShiftIndices(s: seq<real>, windowSize: nat, r: (seq<nat>, seq<real>))
    requires MeanShiftFilter(s, windowSize) == Success(r)
    ensures InteriorPeaks(r.0, r.1, |s| - 1)
  {
    MeanShiftValue(s, windowSize, r);
    EdgePeaksInterior(|s|, r);
  }

  /** Every index found lies in [1, last) and is a peak of e above 5% of its
      range. */
  predicate InteriorPeaks(found: seq<nat>, e: seq<real>, last: int) {
    forall k :: 0 <= k < |found| ==> 1 <= found[k] < last && PeakOf(e, 0.05, found[k])
  }

  /** The EdgePeaks of e, where e is one longer than the series it answers,
      lie strictly inside that series and are peaks of e. */
  lemma EdgePeaksInterior(n: nat, r: (seq<nat>, seq<real>))
    requires |r.1| == n + 1 && n >= 2 && EdgePeaks(r.1, n - 1) == Success(r.0)
    ensures InteriorPeaks(r.0, r.1, n - 1)
  {
    var (found, e) := r;
    var peaks := PeakIndices(e, 0.05, 1).value;
    PeakIndicesArePeaks(e, 0.05, 1);
    forall k | 0 <= k < |found| ensures 1 <= found[k] < n - 1 && PeakOf(e, 0.05, found[k]) {
      assert found[k] in found;
      var j :| 0 <= j < |peaks| && peaks[j] == found[k];
      PeakOfIsInterior(e, 0.05, peaks[j]);
    }
  }

  /** A peak is never at either end of the series. */
  lemma PeakOfIsInterior(y: seq<real>, thres: real, i: int)
    requires PeakOf(y, thres, i)
    ensures 0 < i < |y| - 1
  {
  }

  /** Every peak of the edge response other than len(s) - 1 is reported. */
  lemma MeanShiftComplete(s: seq<real>, windowSize: nat, i: nat)
    requires MeanShiftFilter(s, windowSize).Success?
    ensures PeakOf(MeanShiftFilter(s, windowSize).value.1, 0.05, i) && i != |s| - 1 ==>
      i in MeanShiftFilter(s, windowSize).value.0
  {
    MeanShiftValue(s, windowSize, MeanShiftFilter(s, windowSize).value);
    PeakIndicesComplete(MeanShiftFilter(s, windowSize).value.1, 0.05, 1, i);
  }
}
