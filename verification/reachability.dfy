/** Core distances and the mutual-reachability transform of a distance matrix
    (`compute_core_distances`, `compute_mutual_reachability_distance`). The
    Euclidean distance matrix itself comes from `squareform(pdist(...))` and is
    an input here. */
module Reachability {
  import opened Sorting

  /** An n-by-n matrix. */
  predicate IsSquare(m: seq<seq<real>>)
  {
    forall i :: 0 <= i < |m| ==> |m[i]| == |m|
  }

  predicate Symmetric(m: seq<seq<real>>)
    requires IsSquare(m)
  {
    forall i, j :: 0 <= i < |m| && 0 <= j < |m| ==> m[i][j] == m[j][i]
  }

  /** What `squareform(pdist(points))` delivers: square, symmetric, non-negative, zero diagonal. */
  predicate IsDistanceMatrix(d: seq<seq<real>>)
  {
    && IsSquare(d)
    && Symmetric(d)
    && (forall i :: 0 <= i < |d| ==> d[i][i] == 0.0)
    && (forall i, j :: 0 <= i < |d| && 0 <= j < |d| ==> d[i][j] >= 0.0)
  }

  /** The core distance of one point: `sorted(row)[min_samples]`, or the last
      (largest) entry when `min_samples` is past the end of the row. */
  function CoreDistance(row: seq<real>, minSamples: nat): (r: real)
    requires |row| > 0
    ensures r in row
    ensures minSamples < |row| ==> IsOrderStatistic(row, false, minSamples, r)
    ensures minSamples >= |row| ==> forall j :: 0 <= j < |row| ==> row[j] <= r
  {
    var s := SortValues(row, false);
    if minSamples < |s| then
      SortedIsOrderStatistic(row, false, minSamples);
      s[minSamples]
    else
      assert forall j :: 0 <= j < |row| ==> row[j] <= s[|s| - 1] by {
        forall j | 0 <= j < |row| ensures row[j] <= s[|s| - 1] {
          assert row[j] in multiset(s);
          var k :| 0 <= k < |s| && s[k] == row[j];
        }
      }
      assert s[|s| - 1] in multiset(row);
      s[|s| - 1]
  }

  /** `compute_core_distances`: one core distance per row. */
  function CoreDistances(d: seq<seq<real>>, minSamples: nat): (core: seq<real>)
    requires IsSquare(d)
    ensures |core| == |d|
    ensures forall i :: 0 <= i < |d| ==> core[i] == CoreDistance(d[i], minSamples)
  {
    seq(|d|, i requires 0 <= i < |d| => CoreDistance(d[i], minSamples))
  }

  /** Core distances of a distance matrix are themselves distances: non-negative
      and bounded by the farthest point of the row. */
  lemma CoreDistanceBounds(d: seq<seq<real>>, minSamples: nat, i: nat)
    requires IsDistanceMatrix(d) && i < |d|
    ensures 0.0 <= CoreDistances(d, minSamples)[i]
    ensures exists j :: 0 <= j < |d| && CoreDistances(d, minSamples)[i] == d[i][j]
  {
    var c := CoreDistance(d[i], minSamples);
    assert c in d[i];
  }

  /** Python's `max(a, b, c)` on reals. */
  function Max3(a: real, b: real, c: real): (r: real)
    ensures r >= a && r >= b && r >= c
    ensures r == a || r == b || r == c
  {
    if a >= b && a >= c then a else if b >= c then b else c
  }

  /** `compute_mutual_reachability_distance`: `M[i][j] = max(core[i], core[j], D[i][j])`. */
  function MutualReachability(d: seq<seq<real>>, core: seq<real>): (m: seq<seq<real>>)
    requires IsSquare(d) && |core| == |d|
    ensures |m| == |d| && IsSquare(m)
    ensures forall i, j :: 0 <= i < |d| && 0 <= j < |d| ==>
      m[i][j] >= core[i] && m[i][j] >= core[j] && m[i][j] >= d[i][j]
    ensures forall i, j :: 0 <= i < |d| && 0 <= j < |d| ==>
      m[i][j] == core[i] || m[i][j] == core[j] || m[i][j] == d[i][j]
  {
    seq(|d|, i requires 0 <= i < |d| =>
      seq(|d|, j requires 0 <= j < |d| => Max3(core[i], core[j], d[i][j])))
  }

  /** The mutual-reachability matrix of a symmetric matrix is symmetric. */
  lemma MutualReachabilitySymmetric(d: seq<seq<real>>, core: seq<real>)
    requires IsSquare(d) && |core| == |d| && Symmetric(d)
    ensures Symmetric(MutualReachability(d, core))
  {
    var m := MutualReachability(d, core);
    forall i, j | 0 <= i < |d| && 0 <= j < |d|
      ensures m[i][j] == m[j][i]
    {
      assert m[i][j] == Max3(core[i], core[j], d[i][j]);
      assert m[j][i] == Max3(core[j], core[i], d[j][i]);
    }
  }
}
