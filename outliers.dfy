/** Threshold outliers: the samples above the threshold-th percentile of the
    non-blanked samples, excluding the blanked positions themselves. */
module Outliers {
  import opened Stats
  import opened Results

  /** The positions below n not listed in z, in increasing order: the
      positions np.delete keeps. */
  function KeptPositions(z: seq<nat>, n: nat): (idx: seq<nat>)
    ensures forall j :: 0 <= j < |idx| ==> idx[j] < n && idx[j] !in z
  {
    if n == 0 then [] else KeptPositions(z, n - 1) + (if n - 1 in z then [] else [n - 1])
  }

  /** The kept positions are in increasing order. */
  lemma {:induction false} KeptPositionsIncreasing(z: seq<nat>, n: nat)
    ensures StrictlyIncreasing(KeptPositions(z, n))
  {
    if n > 0 {
      KeptPositionsIncreasing(z, n - 1);
      var pos, p := KeptPositions(z, n - 1), KeptPositions(z, n);
      if n - 1 in z {
        assert p == pos + [] == pos;
      } else {
        assert p == pos + [n - 1];
        forall a, b | 0 <= a < b < |p| ensures p[a] < p[b] {
          assert p[a] == pos[a];
          if b < |pos| {
            assert p[b] == pos[b];
          }
        }
      }
    }
  }

  /** A position below n that z does not list is kept. */
  lemma {:induction false} KeptPositionOf(z: seq<nat>, n: nat, i: nat)
    requires i < n && i !in z
    ensures i in KeptPositions(z, n)
  {
    if i < n - 1 {
      KeptPositionOf(z, n - 1, i);
      var pos := KeptPositions(z, n - 1);
      var k :| 0 <= k < |pos| && pos[k] == i;
      assert KeptPositions(z, n)[k] == i;
    } else {
      assert KeptPositions(z, n) == KeptPositions(z, n - 1) + [i];
    }
  }

  /** Every position below n that z does not list is kept. */
  lemma KeptPositionsComplete(z: seq<nat>, n: nat)
    ensures forall i :: 0 <= i < n && i !in z ==> i in KeptPositions(z, n)
  {
    forall i | 0 <= i < n && i !in z ensures i in KeptPositions(z, n) {
      KeptPositionOf(z, n, i);
    }
  }

  /** np.delete(y, zeroIndices) restricted to the first n samples: the samples
      at positions not listed in z, in order (KeptIsSelection). */
  function KeptBefore(y: seq<real>, z: seq<nat>, n: nat): (r: seq<real>)
    requires n <= |y|
    ensures |r| <= n
  {
    if n == 0 then []
    else
      var prev := KeptBefore(y, z, n - 1);
      if n - 1 in z then prev else prev + [y[n - 1]]
  }

  /** np.delete(y, zeroIndices): every sample at a position not listed in z
      (KeptSelects). */
  function Kept(y: seq<real>, z: seq<nat>): (r: seq<real>)
    ensures |r| <= |y|
    ensures |r| == 0 <==> forall i :: 0 <= i < |y| ==> i in z
  {
    KeptBeforeEmpty(y, z, |y|);
    KeptBefore(y, z, |y|)
  }

  /** np.delete over a prefix is empty exactly when every position of the
      prefix is listed. */
  lemma {:induction false} KeptBeforeEmpty(y: seq<real>, z: seq<nat>, n: nat)
    requires n <= |y|
    ensures |KeptBefore(y, z, n)| == 0 <==> forall i :: 0 <= i < n ==> i in z
  {
    if n > 0 {
      KeptBeforeEmpty(y, z, n - 1);
    }
  }

  /** y[p]: the samples at the positions listed in p, in that order. */
  function Select(y: seq<real>, p: seq<nat>): (s: seq<real>)
    requires forall j :: 0 <= j < |p| ==> p[j] < |y|
    ensures |s| == |p|
  {
    if |p| == 0 then [] else Select(y, p[..|p| - 1]) + [y[p[|p| - 1]]]
  }

  /** Entry k of y[p] is the sample at the k-th listed position. */
  lemma {:induction false} SelectAt(y: seq<real>, p: seq<nat>, k: nat)
    requires forall j :: 0 <= j < |p| ==> p[j] < |y|
    requires k < |p|
    ensures Select(y, p)[k] == y[p[k]]
  {
    if k < |p| - 1 {
      SelectAt(y, p[..|p| - 1], k);
    }
  }

  /** Indexing by one more position appends that sample. */
  lemma SelectAppend(y: seq<real>, p: seq<nat>, i: nat)
    requires forall j :: 0 <= j < |p| ==> p[j] < |y|
    requires i < |y|
    ensures Select(y, p + [i]) == Select(y, p) + [y[i]]
  {
    assert (p + [i])[..|p|] == p;
  }

  /** Over the first n samples np.delete keeps exactly the samples at the
      unlisted positions, one each, in order: no repeat, nothing taken from a
      listed position. */
  lemma {:induction false} KeptIsSelection(y: seq<real>, z: seq<nat>, n: nat)
    requires n <= |y|
    ensures KeptBefore(y, z, n) == Select(y, KeptPositions(z, n))
  {
    if n > 0 {
      KeptIsSelection(y, z, n - 1);
      var prev, pos := KeptBefore(y, z, n - 1), KeptPositions(z, n - 1);
      if n - 1 in z {
        assert KeptBefore(y, z, n) == prev;
        assert KeptPositions(z, n) == pos + [] == pos;
      } else {
        assert KeptBefore(y, z, n) == prev + [y[n - 1]];
        assert KeptPositions(z, n) == pos + [n - 1];
        SelectAppend(y, pos, n - 1);
      }
    }
  }

  /** np.delete keeps every sample at an unlisted position and takes every
      sample it keeps from the series. */
  lemma KeptMembers(y: seq<real>, z: seq<nat>)
    ensures forall i :: 0 <= i < |y| && i !in z ==> y[i] in Kept(y, z)
    ensures forall v :: v in Kept(y, z) ==> v in y
  {
    var r, p := Kept(y, z), KeptPositions(z, |y|);
    KeptIsSelection(y, z, |y|);
    forall i | 0 <= i < |y| && i !in z ensures y[i] in r {
      KeptPositionOf(z, |y|, i);
      var k :| 0 <= k < |p| && p[k] == i;
      SelectAt(y, p, k);
    }
    forall v | v in r ensures v in y {
      var k :| 0 <= k < |r| && r[k] == v;
      SelectAt(y, p, k);
    }
  }

  /** np.delete(y, zeroIndices) is y[KeptPositions]: exactly the samples at
      the positions not listed in z, one each, in order. */
  lemma KeptSelects(y: seq<real>, z: seq<nat>)
    ensures Kept(y, z) == Select(y, KeptPositions(z, |y|))
  {
    KeptIsSelection(y, z, |y|);
  }

  /** The flags with the blanked positions cleared: 1 where the sample is above
      the cutoff and its position is not blanked. */
  function Flags(y: seq<real>, z: seq<nat>, cutoff: real): (f: seq<int>)
    ensures |f| == |y|
  {
    seq(|y|, i requires 0 <= i < |y| => if y[i] > cutoff && i !in z then 1 else 0)
  }

  /** detectThresholdOutliers: np.percentile fails on a percentile outside
      [0, 100] and on an empty array (every position blanked); otherwise the
      cutoff is the threshold-th percentile of the non-blanked samples. */
  function ThresholdOutliers(y: seq<real>, z: seq<nat>, q: real): (r: Result<seq<int>>)
    ensures r.Failure? <==> !(0.0 <= q <= 100.0) || forall i :: 0 <= i < |y| ==> i in z
    ensures r.Success? ==> |r.value| == |y|
  {
    if !(0.0 <= q <= 100.0) then Failure(PercentileOutOfRange)
    else
      var kept := Kept(y, z);
      if |kept| == 0 then Failure(DegenerateInput)
      else Success(Flags(y, z, Percentile(kept, q)))
  }

  /** The cutoff ThresholdOutliers compares against. */
  function Cutoff(y: seq<real>, z: seq<nat>, q: real): real
    requires 0.0 <= q <= 100.0 && |Kept(y, z)| > 0
  {
    Percentile(Kept(y, z), q)
  }

  /** Each flag is 0 or 1, and it is 1 exactly where the sample exceeds the
      cutoff and the position is not blanked; the cutoff lies within the range
      of the non-blanked samples. */
  lemma OutlierFlagsExact(y: seq<real>, z: seq<nat>, q: real)
    requires ThresholdOutliers(y, z, q).Success?
    ensures |Kept(y, z)| > 0 && 0.0 <= q <= 100.0
    ensures Min(Kept(y, z)) <= Cutoff(y, z, q) <= Max(Kept(y, z))
    ensures forall i :: 0 <= i < |y| ==> ThresholdOutliers(y, z, q).value[i] in {0, 1}
    ensures forall i :: 0 <= i < |y| ==>
      (ThresholdOutliers(y, z, q).value[i] == 1 <==> y[i] > Cutoff(y, z, q) && i !in z)
  {
  }

  /** Raising the percentile never adds a flag. */
  lemma HigherPercentileFewerFlags(y: seq<real>, z: seq<nat>, q1: real, q2: real)
    requires 0.0 <= q1 <= q2 <= 100.0
    requires ThresholdOutliers(y, z, q1).Success?
    ensures ThresholdOutliers(y, z, q2).Success?
    ensures forall i :: 0 <= i < |y| ==>
      ThresholdOutliers(y, z, q2).value[i] <= ThresholdOutliers(y, z, q1).value[i]
  {
    PercentileMonotone(Kept(y, z), q1, q2);
  }

  /** At the 100th percentile nothing is flagged: every non-blanked sample is
      at most the largest non-blanked sample. */
  lemma HundredthPercentileFlagsNothing(y: seq<real>, z: seq<nat>)
    requires ThresholdOutliers(y, z, 100.0).Success?
    ensures forall i :: 0 <= i < |y| ==> ThresholdOutliers(y, z, 100.0).value[i] == 0
  {
    var kept := Kept(y, z);
    PercentileHundredIsMax(kept);
    KeptMembers(y, z);
    forall i | 0 <= i < |y| && i !in z ensures y[i] <= Max(kept) {
      var k :| 0 <= k < |kept| && kept[k] == y[i];
    }
  }

  /** edgeIndices restricted to the first n positions: the positions above the
      cutoff that are listed in z, in increasing order. */
  function EdgeIndicesBefore(y: seq<real>, z: seq<nat>, cutoff: real, n: nat): (e: seq<nat>)
    requires n <= |y|
    ensures forall k :: 0 <= k < |e| ==> e[k] < n && y[e[k]] > cutoff && e[k] in z
    ensures forall i :: 0 <= i < n && y[i] > cutoff && i in z ==> i in e
  {
    if n == 0 then []
    else EdgeIndicesBefore(y, z, cutoff, n - 1) + (if y[n - 1] > cutoff && n - 1 in z then [n - 1] else [])
  }

  /** np.any(edgeIndices): true when some listed index is non-zero, since the
      index 0 reads as False. */
  predicate AnyNonZero(edges: seq<nat>) {
    exists k :: 0 <= k < |edges| && edges[k] != 0
  }

  /** The flags as written: positions above the cutoff are set, and the blanked
      ones among them are cleared only when np.any(edgeIndices) holds. */
  function FlagsAsWritten(y: seq<real>, z: seq<nat>, cutoff: real): (f: seq<int>)
    ensures |f| == |y|
  {
    var clear := AnyNonZero(EdgeIndicesBefore(y, z, cutoff, |y|));
    seq(|y|, i requires 0 <= i < |y| => if y[i] > cutoff && !(clear && i in z) then 1 else 0)
  }

  /** When a blanked position 0 is not above the cutoff, the as-written flags
      equal the corrected ones everywhere. */
  lemma AsWrittenAgreesUnlessStartAbove(y: seq<real>, z: seq<nat>, cutoff: real)
    requires |y| > 0 && 0 in z ==> y[0] <= cutoff
    ensures FlagsAsWritten(y, z, cutoff) == Flags(y, z, cutoff)
  {
    AsWrittenDiffersOnlyAtStart(y, z, cutoff);
    var asWritten, corrected := FlagsAsWritten(y, z, cutoff), Flags(y, z, cutoff);
    assert forall i :: 0 <= i < |y| ==> asWritten[i] == corrected[i];
  }

  /** The example series: a sample above the rest at the blanked position 0. */
  lemma ExampleCutoff()
    ensures Kept([2.0, 1.0, 1.0], [0]) == [1.0, 1.0]
    ensures Cutoff([2.0, 1.0, 1.0], [0], 50.0) == 1.0
  {
    var y, z := [2.0, 1.0, 1.0], [0];
    assert KeptBefore(y, z, 1) == [];
    assert KeptBefore(y, z, 2) == [1.0];
    var kept := Kept(y, z);
    assert kept == [1.0, 1.0];
    assert Min(kept) == 1.0 && Max(kept) == 1.0;
  }

  /** As written, that sample stays flagged at the example's cutoff 1.0
      (ExampleCutoff): the only blanked position above the cutoff is 0, and
      [0] is falsy to np.any. */
  lemma BlankedStartStaysFlaggedAsWritten()
    ensures FlagsAsWritten([2.0, 1.0, 1.0], [0], 1.0)[0] == 1
  {
    var e := EdgeIndicesBefore([2.0, 1.0, 1.0], [0], 1.0, 3);
    assert forall k :: 0 <= k < |e| ==> e[k] in [0];
  }

  /** The corrected flags clear it, and flag nothing else. */
  lemma BlankedStartClearedCorrected()
    ensures ThresholdOutliers([2.0, 1.0, 1.0], [0], 50.0) == Success([0, 0, 0])
  {
    ExampleCutoff();
    assert Flags([2.0, 1.0, 1.0], [0], 1.0) == [0, 0, 0];
  }

  /** As written, the result agrees with the corrected flags whenever a
      blanked position other than 0 is above the cutoff, and everywhere but at
      position 0 otherwise. */
  lemma AsWrittenDiffersOnlyAtStart(y: seq<real>, z: seq<nat>, cutoff: real)
    ensures (exists i :: 0 < i < |y| && y[i] > cutoff && i in z) ==>
      FlagsAsWritten(y, z, cutoff) == Flags(y, z, cutoff)
    ensures forall i :: 0 < i < |y| ==> FlagsAsWritten(y, z, cutoff)[i] == Flags(y, z, cutoff)[i]
  {
    var e := EdgeIndicesBefore(y, z, cutoff, |y|);
    if exists i :: 0 < i < |y| && y[i] > cutoff && i in z {
      var i :| 0 < i < |y| && y[i] > cutoff && i in z;
      var k :| 0 <= k < |e| && e[k] == i;
      assert AnyNonZero(e);
    }
    forall i | 0 < i < |y| && y[i] > cutoff && i in z ensures AnyNonZero(e) {
      var k :| 0 <= k < |e| && e[k] == i;
    }
  }
}
