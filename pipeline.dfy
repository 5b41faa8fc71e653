/** detectAnomalies as a function of the response, windowSize and threshold:
    blanking, the Hampel smoothing, the threshold outliers on the blanked
    response, the mean-shift indices of the smoothed response, and their
    combination into severities and anomaly indices. */
module Pipeline {
  import opened Stats
  import opened Results
  import opened Blanking
  import opened Hampel
  import opened Outliers
  import opened Peaks
  import opened MeanShift
  import opened Aggregate

  /** (anomalies, indexAnomalies, edges), or the first stage that fails:
      np.percentile (a threshold outside [0, 100], or every sample blanked),
      then the mean-shift filter (an empty kernel, or a plateau loop that
      does not end). The zero indices are those of the response as given;
      the threshold test reads the response after blanking. */
  function Detect(input: seq<real>, w: nat, threshold: real): (r: Result<(seq<int>, seq<nat>, seq<real>)>)
    ensures r.Success? ==> |r.value.0| == |input| && |r.value.2| == |input| + 1
  {
    var blanked := BlankedSeries(input);
    var z := ZeroIndices(input);
    var smoothed := Smoothed(blanked, w);
    var h :- ThresholdOutliers(blanked, z, threshold);
    var ms :- MeanShiftFilter(smoothed, w);
    MeanShiftIndices(smoothed, w, ms);
    var anomalies := Severity(h, ms.0);
    Success((anomalies, AnomalyIndices(anomalies), ms.1))
  }

  /** Detect fails exactly when one of its stages does. */
  lemma DetectFails(input: seq<real>, w: nat, threshold: real)
    ensures Detect(input, w, threshold).Failure? <==>
      ThresholdOutliers(BlankedSeries(input), ZeroIndices(input), threshold).Failure? ||
      MeanShiftFilter(Smoothed(BlankedSeries(input), w), w).Failure?
  {
  }

  /** A response of sentinels only (or an empty one) leaves no sample for the
      percentile, so detectAnomalies fails. */
  lemma AllSentinelsFail(input: seq<real>, w: nat, threshold: real)
    requires forall i :: 0 <= i < |input| ==> input[i] == 0.0
    ensures Detect(input, w, threshold).Failure?
  {
    var z := ZeroIndices(input);
    var blanked := BlankedSeries(input);
    assert forall i :: 0 <= i < |blanked| ==> i in z;
    assert ThresholdOutliers(blanked, z, threshold).Failure?;
    DetectFails(input, w, threshold);
  }

  /** In detectAnomalies the as-written edge handling of line 135 gives the
      same flags as the corrected one unless the cutoff is negative: position
      0 is the only place they can differ, and a sentinel there is still 0
      after blanking, so it never exceeds a cutoff of 0 or more. */
  lemma AsWrittenFlagsAgree(input: seq<real>, threshold: real)
    requires ThresholdOutliers(BlankedSeries(input), ZeroIndices(input), threshold).Success?
    requires Cutoff(BlankedSeries(input), ZeroIndices(input), threshold) >= 0.0
    ensures var blanked, z := BlankedSeries(input), ZeroIndices(input);
      FlagsAsWritten(blanked, z, Cutoff(blanked, z, threshold)) == Flags(blanked, z, Cutoff(blanked, z, threshold))
  {
    var blanked, z := BlankedSeries(input), ZeroIndices(input);
    if 0 in z {
      BlankingKeepsFirst(input);
    }
    AsWrittenAgreesUnlessStartAbove(blanked, z, Cutoff(blanked, z, threshold));
  }

  /** The severities are 0, 1 or 2, and the anomaly indices are ascending and
      are exactly the positions flagged by the threshold test or the mean
      shift; a position flagged by both has severity 2. */
  lemma DetectCombines(input: seq<real>, w: nat, threshold: real, i: nat)
    requires Detect(input, w, threshold).Success? && i < |input|
    ensures var blanked := BlankedSeries(input);
      var flagged := blanked[i] > Cutoff(blanked, ZeroIndices(input), threshold) && i !in ZeroIndices(input);
      var shifted := i in MeanShiftFilter(Smoothed(blanked, w), w).value.0;
      var d := Detect(input, w, threshold).value;
      StrictlyIncreasing(d.1) && d.0[i] in {0, 1, 2} &&
      (i in d.1 <==> flagged || shifted) &&
      (d.0[i] == 2 <==> flagged && shifted)
  {
    var blanked := BlankedSeries(input);
    var z := ZeroIndices(input);
    var h := ThresholdOutliers(blanked, z, threshold).value;
    var ms := MeanShiftFilter(Smoothed(blanked, w), w).value.0;
    DetectStages(input, w, threshold);
    OutlierFlagsExact(blanked, z, threshold);
    SeverityCountsMethods(h, ms);
    FlaggedAreListed(h, ms, i);
  }

  /** A successful Detect is the severity of the two stages' flags and the
      positions it marks. */
  lemma DetectStages(input: seq<real>, w: nat, threshold: real)
    requires Detect(input, w, threshold).Success?
    ensures var blanked := BlankedSeries(input);
      var h := ThresholdOutliers(blanked, ZeroIndices(input), threshold).value;
      var ms := MeanShiftFilter(Smoothed(blanked, w), w).value.0;
      |h| == |input| && (forall k :: 0 <= k < |ms| ==> ms[k] < |h|) &&
      Detect(input, w, threshold).value.0 == Severity(h, ms) &&
      Detect(input, w, threshold).value.1 == AnomalyIndices(Severity(h, ms))
  {
    var blanked := BlankedSeries(input);
    MeanShiftIndices(Smoothed(blanked, w), w, MeanShiftFilter(Smoothed(blanked, w), w).value);
  }

  /** A sentinel position is never a threshold anomaly: its severity comes
      from the mean shift alone. */
  lemma SentinelsOnlyShift(input: seq<real>, w: nat, threshold: real, i: nat)
    requires Detect(input, w, threshold).Success? && i < |input| && input[i] == 0.0
    ensures var d := Detect(input, w, threshold).value;
      d.0[i] <= 1 && (d.0[i] == 1 <==> i in MeanShiftFilter(Smoothed(BlankedSeries(input), w), w).value.0)
  {
    var z := ZeroIndices(input);
    assert i in z;
    DetectCombines(input, w, threshold, i);
  }
}
