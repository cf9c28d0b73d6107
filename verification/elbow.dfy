/** The elbow rule of `find_optimal_k_elbow` and the size cases of
    `hierarchical_clustering`. Ward linkage and `fcluster` are outside the
    model: the within-cluster sum of squares for k clusters is the parameter
    `wssAt`, the flat cut into k clusters is the parameter `cut`, and
    `atan(y)` stands for `np.arctan2(y, 1)`. */
module Elbow {

  function Abs(x: real): real
  {
    if x < 0.0 then -x else x
  }

  function Min(a: int, b: int): int
  {
    if a < b then a else b
  }

  /** `i` is where `a` first reaches its largest value: numpy's `argmax`. */
  predicate FirstArgMax(a: seq<real>, i: nat)
  {
    && i < |a|
    && (forall j :: 0 <= j < |a| ==> a[j] <= a[i])
    && (forall j :: 0 <= j < i ==> a[j] < a[i])
  }

  /** At most one position is the first largest one. */
  lemma FirstArgMaxUnique(a: seq<real>, i: nat, j: nat)
    requires FirstArgMax(a, i) && FirstArgMax(a, j)
    ensures i == j
  {
    assert a[i] == a[j];
  }

  /** `np.argmax`: scans left to right and moves only on a strictly larger
      value. */
  function ArgMax(a: seq<real>): (i: nat)
    requires |a| > 0
    ensures FirstArgMax(a, i)
  {
    if |a| == 1 then 0
    else
      var p := a[..|a| - 1];
      var i := ArgMax(p);
      assert forall j :: 0 <= j < |p| ==> a[j] == p[j];
      if a[|a| - 1] > a[i] then |a| - 1 else i
  }

  /** `wss_list`: the sums of squares for k = 1 .. max_k, where max_k has
      already been lowered to n. */
  function WssList(wssAt: nat -> real, maxK: int): (w: seq<real>)
    ensures |w| == if maxK < 0 then 0 else maxK
    ensures forall i :: 0 <= i < |w| ==> w[i] == wssAt(i + 1)
  {
    if maxK <= 0 then [] else WssList(wssAt, maxK - 1) + [wssAt(maxK)]
  }

  /** The turn at each inner point of the WSS curve: the absolute difference
      of the angles of the segments before and after it. */
  function Angles(w: seq<real>, atan: real -> real): (a: seq<real>)
    requires |w| >= 2
    ensures |a| == |w| - 2
  {
    seq(|w| - 2, i requires 0 <= i < |w| - 2 => Abs(atan(w[i] - w[i + 1]) - atan(w[i + 1] - w[i + 2])))
  }

  /** `find_optimal_k_elbow(data, max_k)` for n points. */
  function FindOptimalK(n: nat, maxK: int, wssAt: nat -> real, atan: real -> real): (k: nat)
    ensures n <= 3 ==> k == 1
    ensures n > 3 ==> 2 <= k
    ensures n > 3 && Min(maxK, n) < 3 ==> k == 2
    ensures n > 3 && Min(maxK, n) >= 3 ==>
      k <= Min(maxK, n) - 1 && FirstArgMax(Angles(WssList(wssAt, Min(maxK, n)), atan), k - 2)
  {
    if n <= 3 then 1
    else
      var m := Min(maxK, n);
      if m < 3 then 2
      else
        var angles := Angles(WssList(wssAt, m), atan);
        ArgMax(angles) + 2
  }

  /** The elbow is the k whose turn is first largest, and no other k: if the
      turn at k - 1 is the first largest one, the rule picks k. */
  lemma OptimalKIsElbow(n: nat, maxK: int, wssAt: nat -> real, atan: real -> real, k: nat)
    requires n > 3 && Min(maxK, n) >= 3 && k >= 2
    requires FirstArgMax(Angles(WssList(wssAt, Min(maxK, n)), atan), k - 2)
    ensures FindOptimalK(n, maxK, wssAt, atan) == k
  {
    var r := FindOptimalK(n, maxK, wssAt, atan);
    FirstArgMaxUnique(Angles(WssList(wssAt, Min(maxK, n)), atan), r - 2, k - 2);
  }

  /** `hierarchical_clustering(data, max_k)`: no points give no labels and 0
      clusters, one point gives the label 0 and one cluster; otherwise k is the
      elbow and the labels are `fcluster`'s 1-based labels minus one. */
  function HierarchicalClustering(n: nat, maxK: int, wssAt: nat -> real, atan: real -> real,
                                  cut: nat -> seq<int>): (r: (seq<int>, nat))
    ensures n == 0 ==> r == ([], 0)
    ensures n == 1 ==> r == ([0], 1)
    ensures n >= 2 ==> r.1 == FindOptimalK(n, maxK, wssAt, atan) && |r.0| == |cut(r.1)|
    ensures n >= 2 ==> forall i :: 0 <= i < |r.0| ==> r.0[i] == cut(r.1)[i] - 1
    ensures n >= 2 && (forall i :: 0 <= i < |cut(r.1)| ==> 1 <= cut(r.1)[i] <= r.1) ==>
      forall i :: 0 <= i < |r.0| ==> 0 <= r.0[i] < r.1
  {
    if n == 0 then ([], 0)
    else if n == 1 then ([0], 1)
    else
      var k := FindOptimalK(n, maxK, wssAt, atan);
      var c := cut(k);
      (seq(|c|, i requires 0 <= i < |c| => c[i] - 1), k)
  }
}
