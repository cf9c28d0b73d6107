/** The orchestration of the clustering run: points are split by the sign of
    y - x, each side is clustered on its own, and the two label arrays are
    written back over the original indices with the negative side's labels
    shifted past the positive side's. */
module Direction {
  import opened Labels

  datatype Point = Point(x: real, y: real)

  /** A point whose y is not below its x (`diff >= 0`) goes to the positive side. */
  predicate Ascending(p: Point)
  {
    p.y - p.x >= 0.0
  }

  predicate StrictlyIncreasing(s: seq<nat>)
  {
    forall i, j :: 0 <= i < j < |s| ==> s[i] < s[j]
  }

  predicate IndicesBelow(s: seq<nat>, n: nat)
  {
    forall k :: 0 <= k < |s| ==> s[k] < n
  }

  /** `pos` and `neg` list every index 0..n-1 exactly once between them, each in ascending order. */
  predicate Partition(pos: seq<nat>, neg: seq<nat>, n: nat)
  {
    && StrictlyIncreasing(pos) && StrictlyIncreasing(neg)
    && IndicesBelow(pos, n) && IndicesBelow(neg, n)
    && (forall i :: 0 <= i < n ==> (i in pos) != (i in neg))
  }

  /** `split_by_direction`: the positive and the negative index lists. */
  function SplitByDirection(pts: seq<Point>): (r: (seq<nat>, seq<nat>))
    ensures Partition(r.0, r.1, |pts|)
    ensures forall i :: 0 <= i < |pts| ==> (i in r.0 <==> Ascending(pts[i]))
    ensures |r.0| + |r.1| == |pts|
  {
    if |pts| == 0 then ([], [])
    else
      var i := |pts| - 1;
      var (pos, neg) := SplitByDirection(pts[..i]);
      if Ascending(pts[i]) then (pos + [i], neg) else (pos, neg + [i])
  }

  /** `all_clusters[idx[k]] = vals[k] + offset` for every k, in order. */
  function Scatter(acc: seq<nat>, idx: seq<nat>, vals: seq<nat>, offset: nat): (r: seq<nat>)
    requires |idx| == |vals| && IndicesBelow(idx, |acc|)
    ensures |r| == |acc|
  {
    if |idx| == 0 then acc
    else
      var m := |idx| - 1;
      Scatter(acc, idx[..m], vals[..m], offset)[idx[m] := vals[m] + offset]
  }

  /** Each listed index receives its value plus the offset. */
  lemma {:induction false} ScatterWrites(acc: seq<nat>, idx: seq<nat>, vals: seq<nat>, offset: nat)
    requires |idx| == |vals| && IndicesBelow(idx, |acc|) && StrictlyIncreasing(idx)
    ensures forall k :: 0 <= k < |idx| ==> Scatter(acc, idx, vals, offset)[idx[k]] == vals[k] + offset
  {
    if |idx| > 0 {
      var m := |idx| - 1;
      ScatterWrites(acc, idx[..m], vals[..m], offset);
      forall k | 0 <= k < m
        ensures Scatter(acc, idx, vals, offset)[idx[k]] == vals[k] + offset
      {
        assert idx[..m][k] == idx[k] && vals[..m][k] == vals[k];
        assert idx[k] != idx[m];
      }
    }
  }

  /** Every index not listed keeps its old value. */
  lemma {:induction false} ScatterKeeps(acc: seq<nat>, idx: seq<nat>, vals: seq<nat>, offset: nat)
    requires |idx| == |vals| && IndicesBelow(idx, |acc|)
    ensures forall i :: 0 <= i < |acc| && i !in idx ==> Scatter(acc, idx, vals, offset)[i] == acc[i]
  {
    if |idx| > 0 {
      var m := |idx| - 1;
      ScatterKeeps(acc, idx[..m], vals[..m], offset);
      forall i | 0 <= i < |acc| && i !in idx
        ensures Scatter(acc, idx, vals, offset)[i] == acc[i]
      {
        assert i !in idx[..m] && i != idx[m];
      }
    }
  }

  /** The shift applied to the negative side: one past the largest positive label. */
  function Offset(posLabels: seq<nat>): nat
  {
    if |posLabels| > 0 then Max(posLabels) + 1 else 0
  }

  /** The label merge of `main`: positive labels are copied as they are and
      negative labels are shifted by `Offset(posLabels)`. */
  function MergeLabels(n: nat, pos: seq<nat>, neg: seq<nat>, posLabels: seq<nat>, negLabels: seq<nat>): (r: seq<nat>)
    requires Partition(pos, neg, n)
    requires |posLabels| == |pos| && |negLabels| == |neg|
    ensures |r| == n
    ensures forall k :: 0 <= k < |pos| ==> r[pos[k]] == posLabels[k]
    ensures forall k :: 0 <= k < |neg| ==> r[neg[k]] >= Offset(posLabels) && r[neg[k]] - Offset(posLabels) == negLabels[k]
    ensures forall k, k' :: 0 <= k < |pos| && 0 <= k' < |neg| ==> r[pos[k]] < r[neg[k']]
  {
    var zeros := Zeros(n);
    var withPos := if |pos| > 0 then Scatter(zeros, pos, posLabels, 0) else zeros;
    ScatterWrites(zeros, pos, posLabels, 0);
    var offset := Offset(posLabels);
    var r := if |neg| > 0 then Scatter(withPos, neg, negLabels, offset) else withPos;
    ScatterWrites(withPos, neg, negLabels, offset);
    ScatterKeeps(withPos, neg, negLabels, offset);
    assert forall k :: 0 <= k < |pos| ==> pos[k] !in neg;
    r
  }

  /** The offset of a contiguous labelling is its number of labels. */
  lemma OffsetIsCount(labels: seq<nat>, k: nat)
    requires Contiguous(labels, k)
    ensures Offset(labels) == k
  {
    if |labels| > 0 {
      ContiguousMax(labels, k);
    } else {
      assert k > 0 ==> 0 in labels;
    }
  }

  /** With contiguous labels on both sides, the merged labels are exactly
      0 .. kPos + kNeg - 1: the reported total is the sum of the two counts. */
  lemma MergedLabelsContiguous(n: nat, pos: seq<nat>, neg: seq<nat>, posLabels: seq<nat>, negLabels: seq<nat>, kPos: nat, kNeg: nat)
    requires Partition(pos, neg, n)
    requires |posLabels| == |pos| && |negLabels| == |neg|
    requires Contiguous(posLabels, kPos) && Contiguous(negLabels, kNeg)
    ensures Contiguous(MergeLabels(n, pos, neg, posLabels, negLabels), kPos + kNeg)
  {
    OffsetIsCount(posLabels, kPos);
    MergedBelow(n, pos, neg, posLabels, negLabels, kPos, kNeg);
    MergedCovers(n, pos, neg, posLabels, negLabels, kPos, kNeg);
  }

  lemma MergedBelow(n: nat, pos: seq<nat>, neg: seq<nat>, posLabels: seq<nat>, negLabels: seq<nat>, kPos: nat, kNeg: nat)
    requires Partition(pos, neg, n)
    requires |posLabels| == |pos| && |negLabels| == |neg|
    requires Contiguous(posLabels, kPos) && Contiguous(negLabels, kNeg) && Offset(posLabels) == kPos
    ensures forall i :: 0 <= i < n ==> MergeLabels(n, pos, neg, posLabels, negLabels)[i] < kPos + kNeg
  {
    var r := MergeLabels(n, pos, neg, posLabels, negLabels);
    forall i | 0 <= i < n
      ensures r[i] < kPos + kNeg
    {
      if i in pos {
        var k :| 0 <= k < |pos| && pos[k] == i;
        assert r[i] == posLabels[k];
      } else {
        var k :| 0 <= k < |neg| && neg[k] == i;
        assert r[i] == negLabels[k] + kPos;
      }
    }
  }

  lemma MergedCovers(n: nat, pos: seq<nat>, neg: seq<nat>, posLabels: seq<nat>, negLabels: seq<nat>, kPos: nat, kNeg: nat)
    requires Partition(pos, neg, n)
    requires |posLabels| == |pos| && |negLabels| == |neg|
    requires Contiguous(posLabels, kPos) && Contiguous(negLabels, kNeg) && Offset(posLabels) == kPos
    ensures forall c :: 0 <= c < kPos + kNeg ==> c in MergeLabels(n, pos, neg, posLabels, negLabels)
  {
    var r := MergeLabels(n, pos, neg, posLabels, negLabels);
    forall c | 0 <= c < kPos + kNeg
      ensures c in r
    {
      if c < kPos {
        assert c in posLabels;
        var k :| 0 <= k < |posLabels| && posLabels[k] == c;
        assert r[pos[k]] == c;
      } else {
        assert c - kPos in negLabels;
        var k :| 0 <= k < |negLabels| && negLabels[k] == c - kPos;
        assert r[neg[k]] == c;
      }
    }
  }
}
