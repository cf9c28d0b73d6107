/** Cluster labels: one non-negative integer per point. */
module Labels {

  /** The labels are exactly 0, 1, ..., k-1: none is out of range and none is missing. */
  predicate Contiguous(labels: seq<nat>, k: nat)
  {
    && (forall i :: 0 <= i < |labels| ==> labels[i] < k)
    && (forall c :: 0 <= c < k ==> c in labels)
  }

  /** `max(labels)` of a non-empty label array. */
  function Max(labels: seq<nat>): (m: nat)
    requires |labels| > 0
    ensures m in labels
    ensures forall i :: 0 <= i < |labels| ==> labels[i] <= m
  {
    if |labels| == 1 then labels[0]
    else
      var m := Max(labels[..|labels| - 1]);
      if labels[|labels| - 1] > m then labels[|labels| - 1] else m
  }

  /** Every label is zero. */
  predicate AllZero(labels: seq<nat>)
  {
    forall i :: 0 <= i < |labels| ==> labels[i] == 0
  }

  function Zeros(n: nat): (r: seq<nat>)
    ensures |r| == n && AllZero(r)
  {
    seq(n, i => 0)
  }

  /** Contiguous labels of a non-empty group have maximum k - 1. */
  lemma ContiguousMax(labels: seq<nat>, k: nat)
    requires Contiguous(labels, k) && |labels| > 0
    ensures k >= 1 && Max(labels) == k - 1
  {
    assert labels[0] < k;
    assert k - 1 in labels;
  }
}
