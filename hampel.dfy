/** The generalised Hampel filter: for every sample a sliding window of
    windowSize samples on each side, its median (the smoothed series), the
    median absolute deviation scaled by 1.4826 (1 inside blanked spans), the
    band median +/- threshold * 100 * scale, and the detrended series
    |smoothed - y|. */
module Hampel {
  import opened Stats

  /** The first index of the window around i. */
  function WindowLo(i: nat, w: nat): (lo: nat)
    ensures lo <= i
  {
    if i >= w then i - w else 0
  }

  /** One past the last index of the window around i in a series of n samples. */
  function WindowHi(n: nat, i: nat, w: nat): (hi: nat)
    requires i < n
    ensures i < hi <= n
  {
    if i + w + 1 <= n then i + w + 1 else n
  }

  /** The window selects exactly the indices t of the series with
      |t - i| <= windowSize: never one outside the series, never one missed. */
  lemma WindowIsExact(n: nat, i: nat, w: nat, t: int)
    requires i < n
    ensures WindowLo(i, w) <= t < WindowHi(n, i, w) <==> 0 <= t < n && Abs((t - i) as real) <= w as real
  {
  }

  /** y[window]: the samples within windowSize of position i. */
  function Window(y: seq<real>, i: nat, w: nat): (s: seq<real>)
    requires i < |y|
    ensures 0 < |s| <= 2 * w + 1
    ensures y[i] in s
  {
    assert y[i] == y[WindowLo(i, w)..WindowHi(|y|, i, w)][i - WindowLo(i, w)];
    y[WindowLo(i, w)..WindowHi(|y|, i, w)]
  }

  /** median[i] = np.median(y[window]): it lies between the smallest and the
      largest sample of the window. */
  function LocalMedian(y: seq<real>, i: nat, w: nat): (m: real)
    requires i < |y|
    ensures Min(Window(y, i, w)) <= m <= Max(Window(y, i, w))
  {
    Median(Window(y, i, w))
  }

  /** np.abs(s - c) for an array s and a scalar c. */
  function Deviations(s: seq<real>, c: real): (d: seq<real>)
    ensures |d| == |s|
    ensures forall k :: 0 <= k < |s| ==> d[k] >= 0.0 && (d[k] == s[k] - c || d[k] == c - s[k])
  {
    seq(|s|, k requires 0 <= k < |s| => Abs(s[k] - c))
  }

  const HampelConstant: real := 1.4826

  /** 1.4826 * median(|y[window] - median[i]|): the robust local scale, never
      negative. */
  function LocalScale(y: seq<real>, i: nat, w: nat): (sc: real)
    requires i < |y|
    ensures sc >= 0.0
  {
    var d := Deviations(Window(y, i, w), LocalMedian(y, i, w));
    var mad := Median(d);
    MinIsElement(d);
    ScaleMonotone(0.0, mad, HampelConstant);
    HampelConstant * mad
  }

  /** scale[i] after scale[np.where(scaleMapping == 1)] = 1: 1 inside the
      blanked spans, the local scale elsewhere; never negative. */
  function Scale(y: seq<real>, mapping: seq<int>, i: nat, w: nat): (sc: real)
    requires i < |y| == |mapping|
    ensures sc >= 0.0
    ensures mapping[i] == 1 ==> sc == 1.0
    ensures mapping[i] != 1 ==> sc == LocalScale(y, i, w)
  {
    if mapping[i] == 1 then 1.0 else LocalScale(y, i, w)
  }

  /** The half width threshold * 100 * scale of the band around the median:
      never negative when neither factor is. */
  function HalfWidth(threshold: real, scale: real): (h: real)
    ensures threshold >= 0.0 && scale >= 0.0 ==> h >= 0.0
  {
    var h := threshold * 100.0 * scale;
    assert threshold >= 0.0 && scale >= 0.0 ==> h >= 0.0 by {
      if threshold >= 0.0 && scale >= 0.0 {
        ScaleMonotone(0.0, threshold * 100.0, scale);
      }
    }
    h
  }

  /** sup[i] = median[i] + threshold * 100 * scale[i]. */
  function Sup(y: seq<real>, mapping: seq<int>, threshold: real, i: nat, w: nat): real
    requires i < |y| == |mapping|
  {
    LocalMedian(y, i, w) + HalfWidth(threshold, Scale(y, mapping, i, w))
  }

  /** inf[i] = median[i] - threshold * 100 * scale[i]. */
  function Inf(y: seq<real>, mapping: seq<int>, threshold: real, i: nat, w: nat): real
    requires i < |y| == |mapping|
  {
    LocalMedian(y, i, w) - HalfWidth(threshold, Scale(y, mapping, i, w))
  }

  /** With a non-negative threshold the band contains the median, and it is
      symmetric about it. */
  lemma BandContainsMedian(y: seq<real>, mapping: seq<int>, threshold: real, i: nat, w: nat)
    requires i < |y| == |mapping| && threshold >= 0.0
    ensures Inf(y, mapping, threshold, i, w) <= LocalMedian(y, i, w) <= Sup(y, mapping, threshold, i, w)
    ensures Sup(y, mapping, threshold, i, w) - LocalMedian(y, i, w) == LocalMedian(y, i, w) - Inf(y, mapping, threshold, i, w)
  {
  }

  /** Inside a blanked span the band is exactly median +/- threshold * 100. */
  lemma BlankedBandIsFixed(y: seq<real>, mapping: seq<int>, threshold: real, i: nat, w: nat)
    requires i < |y| == |mapping| && mapping[i] == 1
    ensures Sup(y, mapping, threshold, i, w) == LocalMedian(y, i, w) + threshold * 100.0
    ensures Inf(y, mapping, threshold, i, w) == LocalMedian(y, i, w) - threshold * 100.0
  {
  }

  /** The smoothed series: the running median. */
  function Smoothed(y: seq<real>, w: nat): (s: seq<real>)
    ensures |s| == |y|
  {
    seq(|y|, i requires 0 <= i < |y| => LocalMedian(y, i, w))
  }

  /** The local scale of every sample, before the blanked spans are set to 1. */
  function LocalScales(y: seq<real>, w: nat): (s: seq<real>)
    ensures |s| == |y|
    ensures forall i :: 0 <= i < |y| ==> s[i] >= 0.0
  {
    seq(|y|, i requires 0 <= i < |y| => LocalScale(y, i, w))
  }

  /** yDetrended = np.abs(ySmoothed - y). */
  function Detrended(y: seq<real>, smoothed: seq<real>): (d: seq<real>)
    requires |smoothed| == |y|
    ensures |d| == |y|
  {
    seq(|y|, i requires 0 <= i < |y| => Abs(smoothed[i] - y[i]))
  }

  /** The extremes of a window lie within the extremes of the series. */
  lemma WindowWithinSeries(y: seq<real>, i: nat, w: nat)
    requires i < |y|
    ensures Min(y) <= Min(Window(y, i, w)) && Max(Window(y, i, w)) <= Max(y)
  {
    SliceMin(y, WindowLo(i, w), WindowHi(|y|, i, w));
    SliceMax(y, WindowLo(i, w), WindowHi(|y|, i, w));
  }

  /** Every smoothed value lies between the extremes of its window, hence
      within the range of the series. */
  lemma SmoothedWithinRange(y: seq<real>, w: nat, i: nat)
    requires i < |y|
    ensures Min(Window(y, i, w)) <= Smoothed(y, w)[i] <= Max(Window(y, i, w))
    ensures Min(y) <= Smoothed(y, w)[i] <= Max(y)
  {
    WindowWithinSeries(y, i, w);
  }

  /** Every sample lies within its detrended value of its smoothed value, and
      the detrended value is 0 exactly where the sample equals it. */
  lemma DetrendedIsDistance(y: seq<real>, smoothed: seq<real>, i: nat)
    requires i < |y| == |smoothed|
    ensures smoothed[i] - Detrended(y, smoothed)[i] <= y[i] <= smoothed[i] + Detrended(y, smoothed)[i]
    ensures Detrended(y, smoothed)[i] == 0.0 <==> y[i] == smoothed[i]
  {
    AbsIsDistance(smoothed[i], y[i]);
  }

  lemma AbsIsDistance(a: real, b: real)
    ensures a - Abs(a - b) <= b <= a + Abs(a - b)
    ensures Abs(a - b) == 0.0 <==> a == b
  {
  }

  /** The median of a sequence whose samples are all c is c. */
  lemma MedianOfConstant(s: seq<real>, c: real)
    requires |s| > 0 && forall k :: 0 <= k < |s| ==> s[k] == c
    ensures Median(s) == c
  {
    MinIsElement(s);
    MaxIsElement(s);
  }

  /** A window whose samples are all c has median c and scale 0. */
  lemma ConstantWindow(y: seq<real>, w: nat, c: real, i: nat)
    requires i < |y|
    requires forall k :: WindowLo(i, w) <= k < WindowHi(|y|, i, w) ==> y[k] == c
    ensures LocalMedian(y, i, w) == c && LocalScale(y, i, w) == 0.0
  {
    var win := Window(y, i, w);
    assert forall k :: 0 <= k < |win| ==> win[k] == y[WindowLo(i, w) + k];
    MedianOfConstant(win, c);
    var d := Deviations(win, c);
    MedianOfConstant(d, 0.0);
  }

  /** A constant series is its own running median: nothing is detrended away
      (and every local scale is 0, ConstantWindow). */
  lemma ConstantSeriesIsFixed(y: seq<real>, w: nat, c: real)
    requires forall k :: 0 <= k < |y| ==> y[k] == c
    ensures Smoothed(y, w) == y
    ensures Detrended(y, Smoothed(y, w)) == seq(|y|, i => 0.0)
  {
    var sm := Smoothed(y, w);
    forall i | 0 <= i < |y| ensures sm[i] == y[i] {
      ConstantWindow(y, w, c, i);
    }
    assert sm == y;
    forall i | 0 <= i < |y| ensures Detrended(y, y)[i] == 0.0 {
      assert Detrended(y, y)[i] == Abs(y[i] - y[i]);
    }
    assert Detrended(y, y) == seq(|y|, i => 0.0);
  }
}
