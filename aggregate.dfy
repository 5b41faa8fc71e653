/** findAllAnomalies and findAnomalyIndices: the per-sample severity, the
    Hampel flag plus 1 for a mean-shift index, and the positions where it is
    positive. */
module Aggregate {
  import opened Stats

  /** msList after msList[ms] = 1: 1 at the listed indices, 0 elsewhere. */
  function MeanShiftMarks(n: nat, ms: seq<nat>): (m: seq<int>)
    ensures |m| == n
  {
    seq(n, i requires 0 <= i < n => if i in ms then 1 else 0)
  }

  /** anomalies[i] = msList[i] + h[i] for every sample; msList[ms] = 1 raises
      IndexError on an index outside the series. */
  function Severity(h: seq<int>, ms: seq<nat>): (a: seq<int>)
    requires forall k :: 0 <= k < |ms| ==> ms[k] < |h|
    ensures |a| == |h|
  {
    var marks := MeanShiftMarks(|h|, ms);
    seq(|h|, i requires 0 <= i < |h| => marks[i] + h[i])
  }

  /** With 0/1 Hampel flags the severity counts the methods that flag the
      sample: it is 0, 1 or 2, positive exactly when some method flags it,
      and 2 exactly when both do. */
  lemma SeverityCountsMethods(h: seq<int>, ms: seq<nat>)
    requires forall k :: 0 <= k < |ms| ==> ms[k] < |h|
    requires forall i :: 0 <= i < |h| ==> h[i] in {0, 1}
    ensures forall i :: 0 <= i < |h| ==> Severity(h, ms)[i] in {0, 1, 2}
    ensures forall i :: 0 <= i < |h| ==> (Severity(h, ms)[i] > 0 <==> h[i] == 1 || i in ms)
    ensures forall i :: 0 <= i < |h| ==> (Severity(h, ms)[i] == 2 <==> h[i] == 1 && i in ms)
  {
  }

  /** [i for i in range(anomalies.size) if anomalies[i] > 0] over the first n
      samples. */
  function PositiveBefore(a: seq<int>, n: nat): (p: seq<nat>)
    requires n <= |a|
    ensures StrictlyIncreasing(p)
    ensures forall k :: 0 <= k < |p| ==> p[k] < n && a[p[k]] > 0
    ensures forall i :: 0 <= i < n && a[i] > 0 ==> i in p
  {
    if n == 0 then [] else PositiveBefore(a, n - 1) + (if a[n - 1] > 0 then [n - 1] else [])
  }

  /** findAnomalyIndices: the positions with a positive severity, ascending,
      none missed. */
  function AnomalyIndices(a: seq<int>): (p: seq<nat>)
    ensures StrictlyIncreasing(p)
    ensures forall k :: 0 <= k < |p| ==> p[k] < |a| && a[p[k]] > 0
    ensures forall i :: 0 <= i < |a| && a[i] > 0 ==> i in p
  {
    PositiveBefore(a, |a|)
  }

  /** The positions listed are exactly those some method flags. */
  lemma FlaggedAreListed(h: seq<int>, ms: seq<nat>, i: nat)
    requires forall k :: 0 <= k < |ms| ==> ms[k] < |h|
    requires forall i :: 0 <= i < |h| ==> h[i] in {0, 1}
    requires i < |h|
    ensures i in AnomalyIndices(Severity(h, ms)) <==> h[i] == 1 || i in ms
  {
    var p := AnomalyIndices(Severity(h, ms));
    SeverityCountsMethods(h, ms);
    if i in p {
      var k :| 0 <= k < |p| && p[k] == i;
    }
  }
}
