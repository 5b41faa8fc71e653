# AnomalyDetector in Dafny

This project models the `AnomalyDetector` class of
`software/analyze/AnomalyDetector.py`, together with proofs about it. The class
detects anomalies in a time series of satellite methane readings, where a
reading of 0 is a sentinel for a missing sample. `detectAnomalies` runs these
stages in order:

- **blanking filter**: finds the sentinel positions, groups them into maximal
  runs, and overwrites each run in place with the median of its two
  neighbours. It also marks a 0/1 scale mapping over each run, widened by
  `floor(windowSize / 2)`.
- **Hampel filter**: computes a running median over a window of `windowSize`
  samples on each side, and a MAD scale times 1.4826. The scale is forced to 1
  on the mapped span. It also gives the band `median +/- threshold * 100 *
  scale`, the smoothed series and the detrended series.
- **threshold outliers**: flags the samples above the `threshold`-th percentile
  of the non-blanked samples, except at blanked positions.
- **mean-shift filter**: convolves the smoothed series with a +1/-1 step
  kernel. It then finds the peaks of the absolute response (`peakFilter`:
  plateau filling, the peak test, and suppression of peaks closer than
  `minDist`) and drops the index `len(s) - 1`.
- **aggregation**: the severity of a sample is its threshold flag plus 1 when
  the mean shift lists it. The anomaly indices are the positions with a
  positive severity.

Modules:

- `Results` (`results.dfy`): the `Result` type and the error kinds.
  - `DegenerateInput`: `np.max`, `np.percentile` or `np.convolve` reject an
    empty array.
  - `PercentileOutOfRange`: `np.percentile` rejects q outside [0, 100].
  - `PlateauNotResolved`: the plateau loop would never end.
- `Stats` (`stats.dfy`): the numpy reductions the class uses, on exact `real`.
  These are min, max, sort, median and the linear-interpolation percentile.
- `Blanking`, `Hampel`, `Outliers`, `Peaks`, `MeanShift`, `Aggregate`: one
  module per stage. Each stage is a specification function with lemmas about
  it.
- `Pipeline`: `detectAnomalies` as a function of the input, with lemmas about
  how the stages combine.
- `Detector` (`detector.dfy`): the class `AnomalyDetector`.
  - It has the constant fields `windowSize` and `threshold`, and the array
    field `y` that `detectAnomalies` stores.
  - Each method that changes arrays in place is an imperative method, with its
    loops and their invariants. These are the blanking writes, the per-sample
    Hampel loop, the plateau and suppression loops of `peakFilter`, and the
    aggregation loop.
  - Each method is proved equal to the specification function of its stage.

Where the code and its design description disagree, the model follows the
code:

- The constructor does not validate its arguments, so the model accepts any
  natural window size and any threshold.
- The mean-shift kernel is `window` ones and `window` minus-ones, not
  `windowSize` of each.
- The code clears a blanked position above the cutoff only when `np.any` of
  the edge list holds (Finding 2). The model states this as-written rule in
  Outliers.FlagsAsWritten. Outliers.ThresholdOutliers, Pipeline.Detect and
  Detector.AnomalyDetector.DetectAnomalies use the corrected flags, which
  always clear a blanked position.

## Model

| member | source | states |
|---|---|---|
| Stats.Min | software/analyze/AnomalyDetector.py:150 | np.min of a non-empty array is no greater than any element |
| Stats.Max | software/analyze/AnomalyDetector.py:150 | np.max of a non-empty array is no smaller than any element |
| Stats.MinIsElement | software/analyze/AnomalyDetector.py:150 | the minimum is one of the elements |
| Stats.MaxIsElement | software/analyze/AnomalyDetector.py:150 | the maximum is one of the elements |
| Stats.Sort | software/analyze/AnomalyDetector.py:97 | the sorted array is ascending and is a permutation of the input |
| Stats.SortBounds | software/analyze/AnomalyDetector.py:97 | the sorted array starts at the minimum, ends at the maximum, and lies between them |
| Stats.RankMonotone | software/analyze/AnomalyDetector.py:123-124 | a higher percentile reads at a later fractional rank |
| Stats.Median | software/analyze/AnomalyDetector.py:97 | np.median lies between the smallest and the largest element |
| Stats.MedianOfTwo | software/analyze/AnomalyDetector.py:52 | the median of two samples is their mean |
| Stats.Interpolate | software/analyze/AnomalyDetector.py:123-124 | the linear interpolation at a rank lies between the two sorted neighbours of that rank, and within the whole range |
| Stats.Rank | software/analyze/AnomalyDetector.py:123-124 | the fractional position q/100 * (n - 1) lies within [0, n - 1] |
| Stats.Percentile | software/analyze/AnomalyDetector.py:123-124 | np.percentile lies between the minimum and the maximum |
| Stats.InterpolateMonotone | software/analyze/AnomalyDetector.py:123-124 | a higher rank never gives a lower interpolated value |
| Stats.PercentileMonotone | software/analyze/AnomalyDetector.py:123-124 | a higher percentile is never a lower value |
| Stats.PercentileHundredIsMax | software/analyze/AnomalyDetector.py:123-124 | the 100th percentile is the maximum |
| Blanking.ZeroIndices | software/analyze/AnomalyDetector.py:32 | strictly ascending; exactly the positions whose sample is 0, none missed |
| Blanking.Breaks | software/analyze/AnomalyDetector.py:37-38 | strictly ascending; exactly the entries of zeroIndices whose successor is not the next position |
| Blanking.RunAt | software/analyze/AnomalyDetector.py:57-61 | run k's endpoints are entries of zeroIndices, the first at or before the last: zeroIndices[0] or the entry after the previous break, to the next break or the last entry |
| Blanking.RunsOf | software/analyze/AnomalyDetector.py:57-61 | one run per break plus one; each run ends at least two positions before the next one starts, so the runs are in increasing order and never touch |
| Blanking.GapRuns | software/analyze/AnomalyDetector.py:32-38 | every run has start <= end inside the series |
| Blanking.RunIsConsecutive | software/analyze/AnomalyDetector.py:57-61 | the entries of a run are consecutive positions |
| Blanking.RunIsFull | software/analyze/AnomalyDetector.py:57-61 | every position between a run's endpoints is a zero index |
| Blanking.RunStartIsMaximal | software/analyze/AnomalyDetector.py:37-38 | the position before a run is not a zero index |
| Blanking.RunEndIsMaximal | software/analyze/AnomalyDetector.py:37-38 | the position after a run is not a zero index |
| Blanking.RunsAreSeparated | software/analyze/AnomalyDetector.py:57-61 | each run ends at least two positions before any later run starts |
| Blanking.FirstBreakFrom | software/analyze/AnomalyDetector.py:57-61 | the first break at or after an entry: every earlier break is before it |
| Blanking.EntryIsCovered | software/analyze/AnomalyDetector.py:57-61 | every zero index lies in some run |
| Blanking.GapRunsSeparated | software/analyze/AnomalyDetector.py:57-61 | the runs of a series are in order with a non-run position between any two |
| Blanking.RunHoldsZero | software/analyze/AnomalyDetector.py:32-38 | every position of a run is inside the series and holds 0 |
| Blanking.GapRunsHoldZeros | software/analyze/AnomalyDetector.py:32-38 | the runs hold only zeros |
| Blanking.GapRunsBoundedBefore | software/analyze/AnomalyDetector.py:37-38 | the sample before each run is not 0 (the runs are maximal on the left) |
| Blanking.GapRunsBoundedAfter | software/analyze/AnomalyDetector.py:37-38 | the sample after each run is not 0 (the runs are maximal on the right) |
| Blanking.GapRunsCover | software/analyze/AnomalyDetector.py:32-38 | every 0 of the series lies in some run |
| Blanking.FillIsMedian | software/analyze/AnomalyDetector.py:52 | the fill is np.median of the samples at m - 1 and M + 1, so it lies between them |
| Blanking.ImputeRun | software/analyze/AnomalyDetector.py:52 | one run's write keeps the length of the series |
| Blanking.ImputeRuns | software/analyze/AnomalyDetector.py:52 | the writes of the first k runs keep the length of the series |
| Blanking.ImputeRunsKeeps | software/analyze/AnomalyDetector.py:52 | a position no run writes keeps its value |
| Blanking.OutsideOtherRuns | software/analyze/AnomalyDetector.py:52 | the span from one before a run to one after it meets no other run |
| Blanking.NeighboursUntouched | software/analyze/AnomalyDetector.py:52 | no earlier run writes the two samples a run reads |
| Blanking.NeighboursKept | software/analyze/AnomalyDetector.py:48-52 | after the earlier runs, both samples a run reads still hold their original values and lie inside the series |
| Blanking.FillReadsOriginal | software/analyze/AnomalyDetector.py:52 | each run's fill, computed after the earlier runs, equals the fill computed from the original series |
| Blanking.FillDependsOnNeighbours | software/analyze/AnomalyDetector.py:52 | a fill depends only on its two neighbouring samples |
| Blanking.ImputeRunsFills | software/analyze/AnomalyDetector.py:52 | after the later runs, every position run j writes holds run j's fill from the original series |
| Blanking.RunFillsOnce | software/analyze/AnomalyDetector.py:52 | a run writes its original-series fill over its positions |
| Blanking.LaterRunKeeps | software/analyze/AnomalyDetector.py:52 | a later run leaves an earlier run's positions alone |
| Blanking.ImputeRunsLast | software/analyze/AnomalyDetector.py:52 | after k runs, a position holds run k - 1's fill if that run writes it, and otherwise its earlier value |
| Blanking.BlankedSeries | software/analyze/AnomalyDetector.py:45-53 | blanking keeps the length of the series |
| Blanking.BlankingImputes | software/analyze/AnomalyDetector.py:48-52 | each position in [m, M) of a run becomes the mean of the original samples at m - 1 and M + 1; every other position is unchanged |
| Blanking.ImputationInBounds | software/analyze/AnomalyDetector.py:48-52 | after clamping, 1 <= m and M <= size - 2; the writes lie inside the run and the two reads inside the series |
| Blanking.BlankingKeepsSamples | software/analyze/AnomalyDetector.py:52 | a non-zero sample is never changed |
| Blanking.LastSentinelOfRunKept | software/analyze/AnomalyDetector.py:52 | the half-open write y[m:M] leaves the last sentinel of every run at 0 |
| Blanking.MarkRun | software/analyze/AnomalyDetector.py:53 | marking one run keeps the length of the mapping (corrected for the negative start) |
| Blanking.MarkRuns | software/analyze/AnomalyDetector.py:53 | marking the first k runs keeps the length of the mapping |
| Blanking.Zeros | software/analyze/AnomalyDetector.py:39 | np.zeros(y.size): n entries, all 0 |
| Blanking.ScaleMapping | software/analyze/AnomalyDetector.py:39-53 | the mapping has one entry per sample |
| Blanking.MarkRunsSets | software/analyze/AnomalyDetector.py:53 | a position some earlier run marks is 1 |
| Blanking.MarkRunsClears | software/analyze/AnomalyDetector.py:53 | a position no earlier run marks is 0 |
| Blanking.ScaleMappingMarks | software/analyze/AnomalyDetector.py:39-53 | the mapping holds only 0 and 1, and is 1 exactly within [m - buff, M + buff) of some run, with buff = floor(windowSize / 2) |
| Blanking.NoGapsNoBlanking | software/analyze/AnomalyDetector.py:32-34 | a series with no 0 is left unchanged and its mapping is all 0 |
| Blanking.SliceBound | software/analyze/AnomalyDetector.py:53 | numpy's reading of a slice bound lies within [0, n] |
| Blanking.MarkRunAsWritten | software/analyze/AnomalyDetector.py:53 | the slice write as numpy executes it keeps the length of the mapping |
| Blanking.LeadingGapUnmaskedAsWritten | software/analyze/AnomalyDetector.py:53 | as written, a run at the start of a long enough series with buff >= 2 marks nothing, while the clamped slice marks position 0 |
| Hampel.WindowLo | software/analyze/AnomalyDetector.py:92-94 | the window starts at or before i |
| Hampel.WindowHi | software/analyze/AnomalyDetector.py:92-94 | the window ends after i and within the series |
| Hampel.WindowIsExact | software/analyze/AnomalyDetector.py:92-94 | the window is exactly the positions t in [0, n) with abs(t - i) <= windowSize |
| Hampel.Window | software/analyze/AnomalyDetector.py:94 | the window is non-empty, holds at most 2 * windowSize + 1 samples, and contains y[i] |
| Hampel.LocalMedian | software/analyze/AnomalyDetector.py:97 | median[i] lies between the window's minimum and maximum |
| Hampel.Deviations | software/analyze/AnomalyDetector.py:102 | each deviation is the non-negative distance of a sample from the centre |
| Hampel.LocalScale | software/analyze/AnomalyDetector.py:101-102 | the local scale is never negative |
| Hampel.Scale | software/analyze/AnomalyDetector.py:105 | the scale is 1 where the mapping is 1, the local scale elsewhere, and never negative |
| Hampel.HalfWidth | software/analyze/AnomalyDetector.py:106-107 | threshold * 100 * scale is non-negative when both factors are |
| Hampel.BandContainsMedian | software/analyze/AnomalyDetector.py:106-107 | with threshold >= 0, inf[i] <= median[i] <= sup[i], symmetric about the median |
| Hampel.BlankedBandIsFixed | software/analyze/AnomalyDetector.py:105-107 | where the mapping is 1, the band is median +/- threshold * 100 |
| Hampel.Smoothed | software/analyze/AnomalyDetector.py:97 | the running median has one value per sample |
| Hampel.LocalScales | software/analyze/AnomalyDetector.py:101-102 | one local scale per sample, each non-negative |
| Hampel.Detrended | software/analyze/AnomalyDetector.py:111 | one detrended value per sample |
| Hampel.WindowWithinSeries | software/analyze/AnomalyDetector.py:92-97 | the extremes of a window lie within the extremes of the series |
| Hampel.SmoothedWithinRange | software/analyze/AnomalyDetector.py:97 | each smoothed value lies within its window's range, and so within the series' range |
| Hampel.DetrendedIsDistance | software/analyze/AnomalyDetector.py:111 | each sample lies within its detrended value of the smoothed value; the detrended value is 0 exactly where they are equal |
| Hampel.AbsIsDistance | software/analyze/AnomalyDetector.py:111 | abs(a - b) bounds b around a and is 0 exactly when a == b |
| Hampel.MedianOfConstant | software/analyze/AnomalyDetector.py:97 | the median of a constant array is that constant |
| Hampel.ConstantWindow | software/analyze/AnomalyDetector.py:97-102 | when every sample in the window at i equals c, the local median at i is c and the local scale is 0 |
| Hampel.ConstantSeriesIsFixed | software/analyze/AnomalyDetector.py:97-111 | a constant series is its own smoothing, and its detrended series is all 0 |
| Outliers.KeptPositions | software/analyze/AnomalyDetector.py:123 | every position np.delete keeps lies in the series and is not listed |
| Outliers.KeptPositionsIncreasing | software/analyze/AnomalyDetector.py:123 | the kept positions are strictly increasing |
| Outliers.KeptPositionOf | software/analyze/AnomalyDetector.py:123 | a given unlisted position of the series is kept |
| Outliers.KeptPositionsComplete | software/analyze/AnomalyDetector.py:123 | every unlisted position of the series is kept |
| Outliers.KeptBefore | software/analyze/AnomalyDetector.py:123 | np.delete over a prefix keeps no more samples than the prefix holds |
| Outliers.KeptBeforeEmpty | software/analyze/AnomalyDetector.py:123 | np.delete over a prefix is empty exactly when every position of the prefix is listed |
| Outliers.Kept | software/analyze/AnomalyDetector.py:123 | np.delete(y, zeroIndices) has no more samples than y, and is empty exactly when every position is listed |
| Outliers.KeptMembers | software/analyze/AnomalyDetector.py:123 | np.delete(y, zeroIndices) keeps every unlisted sample and invents none |
| Outliers.Select | software/analyze/AnomalyDetector.py:123 | y indexed by a list of positions has one sample per position |
| Outliers.SelectAt | software/analyze/AnomalyDetector.py:123 | entry k of y indexed by a list of positions is the sample at the k-th position |
| Outliers.SelectAppend | software/analyze/AnomalyDetector.py:123 | indexing by one more position appends that sample |
| Outliers.KeptIsSelection | software/analyze/AnomalyDetector.py:123 | np.delete over a prefix is exactly y at the kept positions, in order: no sample repeated, none taken from a listed position |
| Outliers.KeptSelects | software/analyze/AnomalyDetector.py:123 | np.delete(y, zeroIndices) equals y at the kept positions, in increasing order |
| Outliers.Flags | software/analyze/AnomalyDetector.py:127-131 | one flag per sample |
| Outliers.ThresholdOutliers | software/analyze/AnomalyDetector.py:114-137 | fails exactly when q lies outside [0, 100] or every position is blanked; otherwise one flag per sample |
| Outliers.OutlierFlagsExact | software/analyze/AnomalyDetector.py:123-136 | every flag is 0 or 1; a flag is 1 exactly when the sample exceeds the cutoff and its position is not blanked; the cutoff lies within the range of the kept samples |
| Outliers.HigherPercentileFewerFlags | software/analyze/AnomalyDetector.py:123-131 | raising the percentile never adds a flag |
| Outliers.HundredthPercentileFlagsNothing | software/analyze/AnomalyDetector.py:123-131 | at the 100th percentile nothing is flagged |
| Outliers.EdgeIndicesBefore | software/analyze/AnomalyDetector.py:134 | edgeIndices is exactly the blanked positions above the cutoff |
| Outliers.FlagsAsWritten | software/analyze/AnomalyDetector.py:127-136 | the flags as written have one flag per sample |
| Outliers.ExampleCutoff | software/analyze/AnomalyDetector.py:123-124 | for [2, 1, 1] with position 0 blanked, the kept samples are [1, 1] and the median cutoff is 1 |
| Outliers.BlankedStartStaysFlaggedAsWritten | software/analyze/AnomalyDetector.py:134-136 | as written, the blanked position 0 stays flagged, because np.any([0]) is false |
| Outliers.BlankedStartClearedCorrected | software/analyze/AnomalyDetector.py:127-136 | corrected, the same input flags nothing |
| Blanking.BlankingKeepsFirst | software/analyze/AnomalyDetector.py:48-53 | blanking never writes position 0, since every imputation starts at m >= 1 |
| Outliers.AsWrittenAgreesUnlessStartAbove | software/analyze/AnomalyDetector.py:134-136 | when a blanked position 0 is not above the cutoff, the flags as written equal the corrected ones |
| Pipeline.AsWrittenFlagsAgree | software/analyze/AnomalyDetector.py:134-136 | in detectAnomalies, with a cutoff of 0 or more, the as-written flags equal the corrected ones |
| Outliers.AsWrittenDiffersOnlyAtStart | software/analyze/AnomalyDetector.py:134-136 | the flags as written equal the corrected ones when some blanked position other than 0 is above the cutoff, and otherwise they differ at most at position 0 |
| Peaks.Diff | software/analyze/AnomalyDetector.py:154 | np.diff: one slope fewer than samples, each the step to the next sample |
| Peaks.RightPass | software/analyze/AnomalyDetector.py:161-165 | one pass keeps the length of dy |
| Peaks.Passes | software/analyze/AnomalyDetector.py:158-166 | k passes keep the length of dy |
| Peaks.SlopeSaturates | software/analyze/AnomalyDetector.py:158-166 | once a non-zero slope is in reach, one more pass changes nothing |
| Peaks.SlopeSaturatesFrom | software/analyze/AnomalyDetector.py:158-166 | once a non-zero slope is in reach, further passes change nothing |
| Peaks.PassesAreSlopes | software/analyze/AnomalyDetector.py:158-166 | after k passes, slope i is the first non-zero slope among dy[i..i + k], or 0 |
| Peaks.SlopeReachesEnd | software/analyze/AnomalyDetector.py:158-166 | with a non-zero last slope, a slope within k of the end is non-zero after k passes |
| Peaks.SlopeIsNextNonZero | software/analyze/AnomalyDetector.py:158-166 | a zero slope takes the value of the next non-zero slope to its right once that slope is in reach |
| Peaks.TrailingFlatPersists | software/analyze/AnomalyDetector.py:158-166 | a zero last slope is still 0 after any number of passes, so the loop as written never ends |
| Peaks.Resolved | software/analyze/AnomalyDetector.py:158-166 | the resolved slopes have one value per slope |
| Peaks.Resolve | software/analyze/AnomalyDetector.py:157-166 | fails exactly when the last slope is 0; otherwise within len(dy) passes no zero is left, non-zero slopes are unchanged, and the result is the resolved slopes |
| Peaks.StopsAtResolved | software/analyze/AnomalyDetector.py:158-166 | when a pass leaves no zero, the slopes are the resolved ones, so stopping there is right |
| Peaks.PassesResolveAll | software/analyze/AnomalyDetector.py:158-166 | with a non-zero last slope, len(dy) passes leave no zero |
| Peaks.RawPeaksBefore | software/analyze/AnomalyDetector.py:169-171 | over a prefix: strictly ascending; exactly the positions passing the peak test |
| Peaks.RawPeaks | software/analyze/AnomalyDetector.py:169-171 | strictly ascending; exactly the positions 0 < i < n - 1 with a rising slope in, a falling slope out, and the sample above the level |
| Peaks.PeakIsLocalMaximum | software/analyze/AnomalyDetector.py:169-171 | a peak on the filled slopes is above the sample before it and not below the one after it |
| Peaks.UpperBoundKept | software/analyze/AnomalyDetector.py:173 | a height bound on a multiset of peaks holds for any sequence with the same entries |
| Peaks.InsertByHeight | software/analyze/AnomalyDetector.py:173 | inserting a peak keeps the order descending by height and adds exactly that peak |
| Peaks.PrependDescending | software/analyze/AnomalyDetector.py:173 | a peak at least as high as every entry can go first |
| Peaks.ByHeight | software/analyze/AnomalyDetector.py:173 | the peaks are ordered from highest to lowest, as a permutation of the input |
| Peaks.InitialRemoval | software/analyze/AnomalyDetector.py:174-175 | the removal mask has one entry per sample |
| Peaks.SuppressStep | software/analyze/AnomalyDetector.py:177-180 | one iteration keeps the length of the mask |
| Peaks.Suppress | software/analyze/AnomalyDetector.py:176-180 | k iterations keep the length of the mask |
| Peaks.SurvivorsBefore | software/analyze/AnomalyDetector.py:181 | over a prefix: strictly ascending; exactly the unremoved positions |
| Peaks.Survivors | software/analyze/AnomalyDetector.py:181 | strictly ascending; exactly the unremoved positions |
| Peaks.SuppressOnlyKeepsKept | software/analyze/AnomalyDetector.py:176-180 | a position still kept at the end was kept at the start |
| Peaks.SuppressSeparates | software/analyze/AnomalyDetector.py:176-180 | after k iterations, a processed peak that is still kept has nothing else kept within minDist |
| Peaks.SuppressKeepsProcessed | software/analyze/AnomalyDetector.py:176-180 | a kept processed peak stays kept through the next iteration |
| Peaks.FirstStaysKept | software/analyze/AnomalyDetector.py:176-180 | the first peak visited is never removed |
| Peaks.Suppressed | software/analyze/AnomalyDetector.py:172-181 | the survivors are strictly ascending |
| Peaks.SuppressedArePeaks | software/analyze/AnomalyDetector.py:172-181 | every survivor is a raw peak |
| Peaks.SuppressedAreApart | software/analyze/AnomalyDetector.py:172-181 | any two survivors are more than minDist apart |
| Peaks.HighestPeakSurvives | software/analyze/AnomalyDetector.py:172-181 | the highest raw peak survives, and no raw peak is higher |
| Peaks.PeakIndices | software/analyze/AnomalyDetector.py:139-184 | fails exactly on an empty series or equal last two samples (the plateau loop would not end); otherwise strictly ascending |
| Peaks.PeakIndicesArePeaks | software/analyze/AnomalyDetector.py:150-171 | every reported index is inside the series, rising in, falling out, above thres * (max - min) + min, and a local maximum |
| Peaks.ReportedAreCandidates | software/analyze/AnomalyDetector.py:169-181 | every reported index is a raw peak |
| Peaks.CandidateIsPeak | software/analyze/AnomalyDetector.py:169-171 | a raw peak passes the peak test and is a local maximum |
| Peaks.PeakIndicesComplete | software/analyze/AnomalyDetector.py:169-172 | without suppression, every index passing the peak test is reported |
| Peaks.Candidates | software/analyze/AnomalyDetector.py:169-171 | every raw peak passes the peak test on the filled slopes |
| Peaks.PeakIndicesApart | software/analyze/AnomalyDetector.py:172-181 | with minDist > 1, any two reported peaks are more than minDist apart |
| Peaks.PeakIndicesKeepHighest | software/analyze/AnomalyDetector.py:172-181 | the highest raw peak is always reported |
| MeanShift.RoundHundredths | software/analyze/AnomalyDetector.py:195 | np.round(num / 100) is within 1/2 of num / 100, and a tie goes to the even integer |
| MeanShift.KernelWindow | software/analyze/AnomalyDetector.py:195 | the window is at most windowSize, and a non-empty kernel fits in the series |
| MeanShift.StepKernel | software/analyze/AnomalyDetector.py:196 | the kernel has 2 * window entries |
| MeanShift.ConvolveSame | software/analyze/AnomalyDetector.py:200 | the 'same' convolution has one value per sample |
| MeanShift.StepTerms | software/analyze/AnomalyDetector.py:196-200 | the partial convolution sums add the samples under the +1 half and subtract those under the -1 half |
| MeanShift.StepResponse | software/analyze/AnomalyDetector.py:196-200 | each response is the sum of the window samples from i on minus the sum of the window samples before i |
| MeanShift.WindowSumOfStep | software/analyze/AnomalyDetector.py:196-200 | on one side of a step, a window sum is the window length times that side's level |
| MeanShift.StepIsDetected | software/analyze/AnomalyDetector.py:193-201 | a series stepping from a to b at p answers window * abs(b - a) at p |
| MeanShift.StepConvolution | software/analyze/AnomalyDetector.py:196-200 | before the absolute value, the response at the step is window * (b - a) |
| MeanShift.FlatIsQuiet | software/analyze/AnomalyDetector.py:196-201 | a flat stretch of 2 * window samples answers 0 |
| MeanShift.FlatWindowSum | software/analyze/AnomalyDetector.py:196-200 | a window sum over a flat stretch is the length times the level |
| MeanShift.EdgeResponse | software/analyze/AnomalyDetector.py:200-201 | the edge response has len(s) + 1 entries, is non-negative, and ends in 0 |
| MeanShift.Without | software/analyze/AnomalyDetector.py:203-205 | np.delete of a value keeps exactly the other entries, in order |
| MeanShift.WithoutAbsent | software/analyze/AnomalyDetector.py:203 | deleting a value that does not occur changes nothing |
| MeanShift.MeanShiftFilter | software/analyze/AnomalyDetector.py:186-206 | fails exactly when the kernel is empty or the response at len(s) - 1 is 0; otherwise the response has len(s) + 1 entries and the indices are strictly ascending |
| MeanShift.MeanShiftFilterSteps | software/analyze/AnomalyDetector.py:195-206 | with a non-empty kernel, the filter returns the edge peaks of the response, or their failure |
| MeanShift.EdgePeaks | software/analyze/AnomalyDetector.py:202-205 | fails exactly when peakFilter does; otherwise it returns exactly peakFilter's indices other than len(s) - 1 |
| MeanShift.MeanShiftValue | software/analyze/AnomalyDetector.py:195-206 | on success the series has at least 2 samples, and the result is the edge peaks of the response |
| MeanShift.MeanShiftIndices | software/analyze/AnomalyDetector.py:202-206 | every reported index lies in [1, len(s) - 2] and is a peak of the response above 5% of its range |
| MeanShift.EdgePeaksInterior | software/analyze/AnomalyDetector.py:201-205 | the edge peaks lie strictly inside the series and are peaks of the response |
| MeanShift.PeakOfIsInterior | software/analyze/AnomalyDetector.py:169-171 | a peak is never at either end |
| MeanShift.MeanShiftComplete | software/analyze/AnomalyDetector.py:202-205 | every peak of the response other than len(s) - 1 is reported |
| Aggregate.MeanShiftMarks | software/analyze/AnomalyDetector.py:219-220 | msList has one entry per sample |
| Aggregate.Severity | software/analyze/AnomalyDetector.py:219-225 | one severity per sample |
| Aggregate.SeverityCountsMethods | software/analyze/AnomalyDetector.py:219-225 | with 0/1 flags, a severity is 0, 1 or 2; it is positive exactly when some method flags the sample, and 2 exactly when both do |
| Aggregate.PositiveBefore | software/analyze/AnomalyDetector.py:236 | over a prefix: strictly ascending; exactly the positions with a positive severity |
| Aggregate.AnomalyIndices | software/analyze/AnomalyDetector.py:236 | strictly ascending; exactly the positions with a positive severity |
| Aggregate.FlaggedAreListed | software/analyze/AnomalyDetector.py:219-236 | a position is listed exactly when the threshold test or the mean shift flags it |
| Pipeline.Detect | software/analyze/AnomalyDetector.py:239-270 | on success, one severity per sample and an edge response one longer than the input |
| Pipeline.DetectFails | software/analyze/AnomalyDetector.py:239-270 | detection fails exactly when the threshold test or the mean-shift filter fails |
| Pipeline.AllSentinelsFail | software/analyze/AnomalyDetector.py:255-262 | an input of sentinels only fails, since no sample is left for the percentile |
| Pipeline.DetectCombines | software/analyze/AnomalyDetector.py:255-270 | severities are 0, 1 or 2; the indices are strictly ascending and are exactly the positions flagged by the threshold test or the mean shift; severity is 2 exactly when both flag the position |
| Pipeline.SentinelsOnlyShift | software/analyze/AnomalyDetector.py:262-270 | a sentinel position is never a threshold anomaly, so its severity is 1 exactly when the mean shift lists it, and 0 otherwise |
| Detector.AnomalyDetector.constructor | software/analyze/AnomalyDetector.py:16-21 | stores windowSize and threshold |
| Detector.AnomalyDetector.BlankingFilter | software/analyze/AnomalyDetector.py:23-75 | returns zeroIndices and the scale mapping of the original y, and leaves y as its blanked series |
| Detector.AnomalyDetector.ImputeAll | software/analyze/AnomalyDetector.py:52 | writes every run in place, each on the series the earlier runs left |
| Detector.AnomalyDetector.MarkAll | software/analyze/AnomalyDetector.py:39 | marks every run on np.zeros(n) |
| Detector.AnomalyDetector.MarkRunSlice | software/analyze/AnomalyDetector.py:53 | the slice write sets exactly [max(0, m - buff), min(n, M + buff)) to 1 |
| Detector.AnomalyDetector.ImputeRunSlice | software/analyze/AnomalyDetector.py:48-52 | the write y[m:M] = median of the two neighbours, in place |
| Detector.AnomalyDetector.HampelFilter | software/analyze/AnomalyDetector.py:77-112 | the smoothed series is the running median; the detrended series is abs(smoothed - y); sup and inf are the band, with the scale 1 where the mapping is 1 |
| Detector.AnomalyDetector.Band | software/analyze/AnomalyDetector.py:106-107 | sup and inf are median +/- threshold * 100 * scale at each sample |
| Detector.AnomalyDetector.ResetScale | software/analyze/AnomalyDetector.py:105 | the scale becomes 1 where the mapping is 1, and is unchanged elsewhere |
| Detector.AnomalyDetector.RunningMedian | software/analyze/AnomalyDetector.py:88-97 | the per-sample loop fills median with the running median |
| Detector.AnomalyDetector.MedianAt | software/analyze/AnomalyDetector.py:97 | median[i] lies between the smallest and the largest sample of the window at i, so within the range of the series, and is the running median's entry i |
| Detector.AnomalyDetector.RunningScale | software/analyze/AnomalyDetector.py:89-102 | the per-sample loop fills scale with the local scales |
| Detector.AnomalyDetector.ScaleAt | software/analyze/AnomalyDetector.py:101-102 | scale[i] is never negative, is 0 when every sample of the window equals y[i], and is the running scale's entry i |
| Detector.AnomalyDetector.MeanShiftFilter | software/analyze/AnomalyDetector.py:186-206 | returns exactly the result MeanShift.MeanShiftFilter specifies |
| Detector.AnomalyDetector.EdgeOutliers | software/analyze/AnomalyDetector.py:202-205 | peakFilter's result with len(s) - 1 deleted, which is the result EdgePeaks specifies |
| Detector.AnomalyDetector.FindAllAnomalies | software/analyze/AnomalyDetector.py:208-226 | the loop fills anomalies with msList[i] + h[i] |
| Detector.AnomalyDetector.DetectAnomalies | software/analyze/AnomalyDetector.py:239-270 | stores a fresh y holding the blanked input, and returns the result Pipeline.Detect specifies |
| Detector.AnomalyDetector.FillPlateaus | software/analyze/AnomalyDetector.py:157-166 | the while loop ends, bounded by len(dy) passes, with dy as the resolved slopes |
| Detector.AnomalyDetector.FindZeros | software/analyze/AnomalyDetector.py:157 | lists exactly the zero slopes; an empty list means there is none |
| Detector.AnomalyDetector.FillPass | software/analyze/AnomalyDetector.py:161-165 | one pass in place gives each zero slope its right neighbour's old value |
| Detector.AnomalyDetector.SuppressLoop | software/analyze/AnomalyDetector.py:176-180 | the loop over the peaks from the highest leaves the mask the suppression specifies |
| Detector.AnomalyDetector.PeakFilter | software/analyze/AnomalyDetector.py:139-184 | returns exactly the result Peaks.PeakIndices specifies |
| Detector.AnomalyDetector.Slopes | software/analyze/AnomalyDetector.py:154-166 | np.diff with the plateaus filled, or a failure when the last slope is 0 |
| Detector.AnomalyDetector.SuppressPeaks | software/analyze/AnomalyDetector.py:172-181 | sorts the peaks by height, builds the mask, runs the loop and returns the survivors, as Peaks.Suppressed specifies |
| Detector.PassBound | software/analyze/AnomalyDetector.py:158-166 | a zero left after k passes means fewer than len(dy) passes have run |
| Detector.ZerosWitness | software/analyze/AnomalyDetector.py:157 | np.where(dy == 0) lists exactly the zero slopes |

## Left out

- **Floating point.**
  - The model computes on exact `real`. numpy float rounding in the medians,
    the 1.4826 scale, the percentile, the convolution and the comparisons is
    not modelled.
  - MeanShift.KernelWindow rounds the exact 3n/100, not the float
    `0.03 * len(s)`. The two can differ where the float product lands on the
    other side of a tie.
- **Argsort tie order.** Peaks.ByHeight is a deterministic insertion sort,
  descending by height. numpy's argsort order among equal heights is not
  modelled. The suppression lemmas hold for any descending order.
- **No zeros in the input.** The source crashes when there is no zero
  (`tmp` is unbound at line 45, and `scaleMapping` is the integer 0). The model
  blanks nothing and returns an all-0 mapping (Blanking.NoGapsNoBlanking).
- **The single-run branch returns nothing.** It reaches no `return` (line 75
  is only in the `else` branch). The model returns zeroIndices and the mapping
  from both branches.
- **The multi-run branch at lines 56-75 does not run as written.**
  - Line 66 compares with the array `y` instead of `y.size`.
  - Lines 72-73 take the median of a sample and an index, and write from
    position m - 1.
  - The model instead applies the single-run rule of lines 46-53 to each run
    in turn.
  - Runs are paired from the `diff != 1` breaks as in lines 57-61. They are
    clamped as in lines 48-51, written half-open, and marked widened by buff.
- **The undefined `x[i]` at line 92.** The model reads it as `t[i]`, the
  window `|t - i| <= windowSize`.
- **The branch at lines 98-99 cannot run.** `scale` has just been set to zeros,
  so the test `scale[i] == 1` is always false. The model leaves the branch out.
- **The empty `np.median()` at line 110.** The model reads it as the running
  median, so the smoothed series is `median`.
- **The calls at lines 268-269 lack `self.`.** The model calls the class's own
  methods.
- **The float mapping.** `scaleMapping` is a `seq<int>`, not a float array.
- **sup and inf.** Detector.AnomalyDetector.HampelFilter returns `sup` and
  `inf`, which the source computes and discards. It does not return the
  unused `t`.
- **The order of the Hampel loop.** The per-sample loop is split into two loops
  (RunningMedian, RunningScale) over the blanked series. Each element is
  computed by the same expression as in the source.
- **Detrended.** Hampel.Detrended takes the smoothed series as a parameter.
  It is applied to the running median.
- **The zero indices.** The zero indices come from the input before blanking,
  as in the source: `blankingFilter` computes them before it writes. The
  threshold test reads the blanked series.
- **The constructor.** It gives `y` an empty array. In the source `self.y`
  does not exist until `detectAnomalies`.
- **The plateau loop.** Peaks.Resolve and Detector.AnomalyDetector.FillPlateaus
  stop with `PlateauNotResolved` where the loop as written never ends, which
  is when the last slope is 0 (Finding 3).
- **The unused `zerosLeft`.** The model leaves out `zerosLeft` (line 162),
  which is computed and never read.
- **Numpy errors become `Failure` results.**
  - `np.max` of an empty array gives `DegenerateInput` (Peaks.PeakIndices).
  - `np.percentile` outside [0, 100] or of an empty array gives
    `PercentileOutOfRange` or `DegenerateInput`.
  - `np.convolve` with an empty kernel gives `DegenerateInput`.
- **Aggregation size.** Detector.AnomalyDetector.FindAllAnomalies takes the
  size of the result from `h` (which has `y.size` entries) rather than from a
  separate `y` argument.
- **Functions for the pure stages.** `detectThresholdOutliers` and
  `findAnomalyIndices` are functions (Outliers.ThresholdOutliers,
  Aggregate.AnomalyIndices). Neither updates state in place.
- Outliers.ThresholdOutliers: uses the corrected flags, not the `np.any` test
  of line 135 (Finding 2). By Outliers.AsWrittenDiffersOnlyAtStart the two
  differ only at position 0. In detectAnomalies they can differ only when the
  cutoff is negative, because blanking never writes position 0
  (Pipeline.AsWrittenFlagsAgree).
- **Window sizes that are not natural numbers.** The constructor stores
  `windowSize` unchecked, so a negative or non-integer value reaches the
  slices at line 53 and the window test at lines 92-94. The model takes
  `windowSize` as a `nat` and does not model those values.
- **The rest of the repository.** The web service, the command-line entry
  point, data collection, the analyzer stubs and plotting are not part of this
  model. They are I/O and glue around the detector.

## Findings

| source | as written | input that shows it | evidently intended | confidence | as-written member | corrected member |
|---|---|---|---|---|---|---|
| software/analyze/AnomalyDetector.py:53 | the slice start `m - buff` can be negative; numpy counts it back from the end, so the slice is empty | a series of 10 samples starting with one 0, windowSize 4 (buff 2): m = 1 and M = 0, so the slice -1:2 reads as 9:2, and nothing is marked | the mapping covers [max(0, m - buff), M + buff), so it masks position 0 | not executed | Blanking.LeadingGapUnmaskedAsWritten | Blanking.MarkRun |
| software/analyze/AnomalyDetector.py:135 | `np.any(edgeIndices)` is false when the only blanked position above the cutoff is 0, so that flag is kept | y = [2, 1, 1], zeroIndices = [0], threshold 50: the cutoff is 1, and position 0 stays flagged | every blanked position is cleared | not executed | Outliers.BlankedStartStaysFlaggedAsWritten | Outliers.BlankedStartClearedCorrected |
| software/analyze/AnomalyDetector.py:158-166 | each pass copies only the right neighbour, so a zero last slope is never filled and the loop never ends | y = [1, 2, 2]: dy = [1, 0], and dy[1] stays 0 forever | the loop ends with every zero slope holding a non-zero neighbour slope. The comment at lines 159-160 speaks of propagating left and right values, and line 162 builds the unused `zerosLeft`, so a trailing plateau was evidently meant to take its left value. The model fills from the right only and stops with `PlateauNotResolved` on a trailing flat. | not executed | Peaks.TrailingFlatPersists | Peaks.Resolve |
