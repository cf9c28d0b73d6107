/** `hdbscan_clustering`: the size cases, the clamping of the two parameters,
    the pipeline core distances -> mutual reachability -> Prim -> condensed
    tree -> excess-of-mass extraction, and the final renumbering of the labels
    through `np.unique`. The Euclidean distance matrix of the data is the
    input. */
module Hdbscan {
  import opened Sorting
  import opened Finite
  import opened Labels
  import opened Reachability
  import opened Prim
  import opened CondensedTree
  import opened Extraction
  import opened Wrappers

  /** `max(2, min(min_cluster_size, n // 2))`: the nearest value to the request
      in the interval from 2 to `max(2, n // 2)`. */
  function ClampMinClusterSize(mcs: int, n: nat): (r: nat)
    ensures 2 <= r && (r == 2 || r <= n / 2)
    ensures 2 <= mcs <= n / 2 ==> r == mcs
    ensures mcs < 2 ==> r == 2
    ensures mcs > n / 2 ==> r == if n / 2 < 2 then 2 else n / 2
  {
    var m := if mcs < n / 2 then mcs else n / 2;
    if m < 2 then 2 else m
  }

  /** `min_samples` defaults to the requested `min_cluster_size` (before its own
      clamping) and is then clamped by `max(1, min(min_samples, n - 1))`. */
  function ClampMinSamples(ms: Option<int>, mcs: int, n: nat): (r: nat)
    ensures 1 <= r && (r == 1 || r <= n - 1)
    ensures var want := if ms.Some? then ms.value else mcs;
      && (1 <= want <= n - 1 ==> r == want)
      && (want < 1 ==> r == 1)
      && (want > n - 1 ==> r == if n - 1 < 1 then 1 else n - 1)
  {
    var want := if ms.Some? then ms.value else mcs;
    var m := if want < n - 1 then want else n - 1;
    if m < 1 then 1 else m
  }

  /** Clamping twice changes nothing. */
  lemma ClampIdempotent(mcs: int, ms: int, n: nat)
    ensures ClampMinClusterSize(ClampMinClusterSize(mcs, n), n) == ClampMinClusterSize(mcs, n)
    ensures ClampMinSamples(Some(ClampMinSamples(Some(ms), mcs, n)), mcs, n) == ClampMinSamples(Some(ms), mcs, n)
  {
  }

  /** `np.unique(labels)`: the distinct labels in ascending order. */
  function Unique(labels: seq<nat>): (u: seq<nat>)
    ensures forall i, j :: 0 <= i < j < |u| ==> u[i] < u[j]
    ensures forall v :: v in u <==> v in labels
  {
    if |labels| == 0 then [] else AscendingUpTo(Elems(labels), Max(labels) + 1)
  }

  /** The position of `x` in a list that contains it. */
  function IndexOf(u: seq<nat>, x: nat): (i: nat)
    requires x in u
    ensures i < |u| && u[i] == x
  {
    if u[0] == x then 0 else 1 + IndexOf(u[1..], x)
  }

  /** In a strictly increasing list, positions compare as their entries do. */
  lemma IncreasingPositions(u: seq<nat>, a: nat, b: nat)
    requires forall i, j :: 0 <= i < j < |u| ==> u[i] < u[j]
    requires a < |u| && b < |u|
    ensures u[a] <= u[b] <==> a <= b
    ensures u[a] == u[b] <==> a == b
  {
  }

  /** `label_map = {old: new for new, old in enumerate(unique_labels)}` applied
      to every label; `n_found` is the number of distinct labels, and an empty
      label array gives `(zeros, 1)`. */
  function Relabel(labels: seq<nat>): (r: (seq<nat>, nat))
    ensures |r.0| == |labels|
    ensures |labels| == 0 ==> r.1 == 1
    ensures |labels| > 0 ==> r.1 == |Elems(labels)|
  {
    var u := Unique(labels);
    if |u| == 0 then (Zeros(|labels|), 1)
    else
      UniqueCard(labels);
      (seq(|labels|, i requires 0 <= i < |labels| => IndexOf(u, labels[i])), |u|)
  }

  /** There are as many unique labels as distinct labels. */
  lemma UniqueCard(labels: seq<nat>)
    ensures |Unique(labels)| == |Elems(labels)|
  {
    var u := Unique(labels);
    assert Distinct(u) by {
      forall i, j | 0 <= i < j < |u| ensures u[i] != u[j] {
        assert u[i] < u[j];
      }
    }
    DistinctCard(u);
    assert Elems(u) == Elems(labels);
  }

  /** The renumbering is order-preserving in both directions and onto
      0 .. n_found-1: labels compare after as they did before, and every new
      label is used. */
  lemma RelabelMonotone(labels: seq<nat>)
    requires |labels| > 0
    ensures var (r, k) := Relabel(labels);
      && Contiguous(r, k)
      && (forall i, j :: 0 <= i < |labels| && 0 <= j < |labels| ==> (labels[i] <= labels[j] <==> r[i] <= r[j]))
      && (forall i, j :: 0 <= i < |labels| && 0 <= j < |labels| ==> (labels[i] == labels[j] <==> r[i] == r[j]))
  {
    var u := Unique(labels);
    assert labels[0] in u;
    var (r, k) := Relabel(labels);
    forall i, j | 0 <= i < |labels| && 0 <= j < |labels|
      ensures (labels[i] <= labels[j] <==> r[i] <= r[j]) && (labels[i] == labels[j] <==> r[i] == r[j])
    {
      IncreasingPositions(u, IndexOf(u, labels[i]), IndexOf(u, labels[j]));
    }
    forall c | 0 <= c < k
      ensures c in r
    {
      assert u[c] in labels;
      var i :| 0 <= i < |labels| && labels[i] == u[c];
      IncreasingPositions(u, IndexOf(u, labels[i]), c);
      assert r[i] == c;
    }
  }

  /** When every label is 0, the renumbering is all zeros with one cluster. */
  lemma RelabelAllZero(labels: seq<nat>)
    requires |labels| > 0 && AllZero(labels)
    ensures AllZero(Relabel(labels).0) && Relabel(labels).1 == 1
  {
    RelabelMonotone(labels);
    assert Elems(labels) == {0} by {
      assert labels[0] in Elems(labels);
    }
  }

  /** `hdbscan_clustering(data, min_cluster_size, min_samples)` on the distance
      matrix `d` of the data, with the stability formula as a parameter: n = 0
      gives no labels and 0 clusters, n = 1 and n = 2 one cluster; otherwise
      the labels are exactly 0 .. k-1 with k >= 1, and with the formula as
      written every point lands in the one cluster 0. From three points on,
      the labels are the renumbered extraction of the condensed tree built
      from Prim's tree `edges` over the mutual-reachability matrix. */
  method HdbscanClustering(d: seq<seq<real>>, mcs: int, ms: Option<int>, formula: Formula)
    returns (labels: seq<nat>, k: nat, ghost edges: seq<Edge>)
    requires IsSquare(d)
    ensures |labels| == |d|
    ensures |d| == 0 ==> k == 0
    ensures |d| >= 1 ==> k >= 1 && Contiguous(labels, k)
    ensures |d| <= 2 ==> AllZero(labels)
    ensures formula == AsWritten ==> AllZero(labels) && k <= 1
    ensures |d| >= 3 ==>
      && PrimTree(MutualReachability(d, CoreDistances(d, ClampMinSamples(ms, mcs, |d|))), edges)
      && EndsBelow(SortByWeight(edges), |d|)
      && (labels, k) == Relabel(Extract(Output(Fold(Start(|d|), SortByWeight(edges), |d|)), |d|, formula, ClampMinClusterSize(mcs, |d|)))
  {
    var n := |d|;
    if n == 0 {
      labels, k, edges := [], 0, [];
      return;
    }
    if n <= 2 {
      labels, k, edges := Zeros(n), 1, [];
      assert labels[0] == 0;
      return;
    }
    var minSize := ClampMinClusterSize(mcs, n);
    var minSamples := ClampMinSamples(ms, mcs, n);
    var core := CoreDistances(d, minSamples);
    var reach := MutualReachability(d, core);
    var tree := MinimumSpanningTree(reach);
    edges := tree;
    PrimTreeSpanning(reach, tree);
    EndsBelowMembers(tree, SortByWeight(tree), n);
    var c := BuildCondensedTree(tree, n);
    var raw := Extract(c, n, formula, minSize);
    labels, k := Relabel(raw).0, Relabel(raw).1;
    RelabelMonotone(raw);
    if formula == AsWritten {
      AsWrittenAllZero(c, n, minSize);
      RelabelAllZero(raw);
    }
  }
}
