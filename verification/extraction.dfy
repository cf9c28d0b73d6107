/** `extract_clusters_eom`: the excess-of-mass selection over the condensed
    tree, followed by the labelling of every point with the rank of the
    lowest-id selected cluster containing it. */
module Extraction {
  import opened ExtReal
  import opened Sorting
  import opened Labels
  import opened CondensedTree
  import opened Finite
  import opened Wrappers

  /** `cluster_children.get(id, [])`: the children recorded for `id`, in entry order. */
  function ChildrenOf(tree: seq<Entry>, id: nat): (cs: seq<nat>)
    ensures |cs| <= |tree|
  {
    if |tree| == 0 then []
    else
      var last := tree[|tree| - 1];
      var prev := ChildrenOf(tree[..|tree| - 1], id);
      if last.parent == id then prev + [last.child] else prev
  }

  /** The children of merge k's id are the two clusters it absorbed; every other id has none. */
  lemma {:induction false} ChildrenOfEntries(ms: seq<Merge>, n: nat, id: nat)
    ensures ChildrenOf(Entries(ms, n), id) ==
      if n <= id < n + |ms| then [ms[id - n].left, ms[id - n].right] else []
  {
    if |ms| > 0 {
      var k := |ms| - 1;
      var m := ms[k];
      var t := Entries(ms[..k], n);
      var a, b := Entry(n + k, m.left, m.leftSize, m.lambda), Entry(n + k, m.right, m.rightSize, m.lambda);
      assert Entries(ms, n) == t + [a, b];
      assert (t + [a, b])[..|t| + 1] == t + [a];
      assert (t + [a])[..|t|] == t;
      ChildrenOfEntries(ms[..k], n, id);
    }
  }

  /** The children of `id` in a condensed tree. */
  function Children(c: Condensed, n: nat, id: nat): (cs: seq<nat>)
    requires Structure(c, n)
    ensures cs == if n <= id < n + |c.merges| then [c.merges[id - n].left, c.merges[id - n].right] else []
    ensures forall i :: 0 <= i < |cs| ==> cs[i] < id
  {
    var cs := ChildrenOf(Entries(c.merges, n), id);
    ChildrenOfEntries(c.merges, n, id);
    if n <= id < n + |c.merges| then
      var m := c.merges[id - n];
      assert m.left < id && m.right < id;
      assert cs == [m.left, m.right];
      cs
    else
      cs
  }

  /** `cluster_lambda_max.get(id)`: the largest lambda of an entry whose child is
      `id`, folded in entry order with Python's `max`. */
  function LambdaMax(tree: seq<Entry>, id: nat): (r: Option<Float>)
    ensures r.None? <==> forall j :: 0 <= j < |tree| ==> tree[j].child != id
    ensures r.Some? ==> exists j :: 0 <= j < |tree| && tree[j].child == id && r.value == tree[j].lambda
  {
    if |tree| == 0 then None
    else
      var last := tree[|tree| - 1];
      var prev := LambdaMax(tree[..|tree| - 1], id);
      if last.child != id then prev
      else match prev
        case None => Some(last.lambda)
        case Some(m) => Some(PyMax(m, last.lambda))
  }

  /** A bound on every lambda at which `id` joins a parent bounds their maximum. */
  lemma {:induction false} LambdaMaxBound(tree: seq<Entry>, id: nat, b: Float)
    requires forall j :: 0 <= j < |tree| && tree[j].child == id ==> Le(tree[j].lambda, b)
    ensures LambdaMax(tree, id).Some? ==> Le(LambdaMax(tree, id).value, b)
  {
    if |tree| > 0 {
      LambdaMaxBound(tree[..|tree| - 1], id, b);
    }
  }

  /** The lambda at which `id` dies: `cluster_lambda_max.get(id, birth)`. */
  function Death(c: Condensed, n: nat, id: nat): Float
    requires Structure(c, n) && id < |c.sizes|
  {
    match LambdaMax(Entries(c.merges, n), id)
    case None => c.births[id]
    case Some(d) => d
  }

  /** A cluster dies no later than it is born: the merges come in ascending
      distance order, so the lambda of the merge that absorbs a cluster is at
      most the lambda of the merge that created it. */
  lemma DeathBeforeBirth(c: Condensed, n: nat, id: nat)
    requires WellFormed(c, n) && n <= id < |c.sizes|
    ensures Le(Death(c, n, id), c.births[id])
  {
    var tree := Entries(c.merges, n);
    forall j | 0 <= j < |tree| && tree[j].child == id
      ensures Le(tree[j].lambda, c.births[id])
    {
      var k := j / 2;
      assert id < n + k;
      assert c.births[n + k] == c.merges[k].lambda;
    }
    LambdaMaxBound(tree, id, c.births[id]);
  }

  /** The stability formula: as written, `(death - birth) * size`; corrected,
      `(birth - death) * size`, the lambda span the cluster lives for. */
  datatype Formula = AsWritten | Corrected

  /** `cluster_stability[id]`: zero for a point, the formula for a cluster. */
  function Stability(c: Condensed, n: nat, formula: Formula, id: nat): Float
    requires Structure(c, n) && id < |c.sizes|
  {
    if id < n then Num(0.0)
    else
      var birth, death := c.births[id], Death(c, n, id);
      match formula
      case AsWritten => MulNat(Sub(death, birth), c.sizes[id])
      case Corrected => MulNat(Sub(birth, death), c.sizes[id])
  }

  /** The sign of a lambda span times a size, when death is at most birth. */
  lemma SpanSign(death: Float, birth: Float, size: nat)
    requires Le(death, birth)
    ensures !Gt(MulNat(Sub(death, birth), size), Num(0.0))
    ensures !Lt(MulNat(Sub(birth, death), size), Num(0.0))
  {
  }

  /** As written, no cluster has positive stability. */
  lemma AsWrittenNotPositive(c: Condensed, n: nat, id: nat)
    requires WellFormed(c, n) && id < |c.sizes|
    ensures !Gt(Stability(c, n, AsWritten, id), Num(0.0))
  {
    if id >= n {
      DeathBeforeBirth(c, n, id);
      SpanSign(Death(c, n, id), c.births[id], c.sizes[id]);
    }
  }

  /** With the corrected formula, no cluster has negative stability. */
  lemma CorrectedNotNegative(c: Condensed, n: nat, id: nat)
    requires WellFormed(c, n) && id < |c.sizes|
    ensures !Lt(Stability(c, n, Corrected, id), Num(0.0))
  {
    if id >= n {
      DeathBeforeBirth(c, n, id);
      SpanSign(Death(c, n, id), c.births[id], c.sizes[id]);
    }
  }

  /** `select_clusters(id)` with the set `selected_clusters` threaded through:
      a cluster without children returns its stability; otherwise, when its own
      stability beats the sum returned by its children, its children (and only
      its direct children) leave the selection, it joins the selection if it
      holds at least `minSize` points, and it returns its own stability;
      otherwise it returns the children's sum. */
  function Select(c: Condensed, n: nat, formula: Formula, minSize: int, id: nat, sel: set<nat>): (r: (Float, set<nat>))
    requires Structure(c, n) && id < |c.sizes|
    decreases id, 1, 0
  {
    var children := Children(c, n, id);
    if |children| == 0 then (Stability(c, n, formula, id), sel)
    else
      var (sum, sel') := SelectSum(c, n, formula, minSize, children, id, sel);
      var own := Stability(c, n, formula, id);
      if Gt(own, sum) then
        (own, (sel' - set x | x in children) + (if c.sizes[id] >= minSize then {id} else {}))
      else (sum, sel')
  }

  /** `sum(select_clusters(x) for x in ids)`: left to right, starting from 0. */
  function SelectSum(c: Condensed, n: nat, formula: Formula, minSize: int, ids: seq<nat>, bound: nat, sel: set<nat>): (r: (Float, set<nat>))
    requires Structure(c, n) && bound <= |c.sizes| && forall i :: 0 <= i < |ids| ==> ids[i] < bound
    decreases bound, 0, |ids|
  {
    if |ids| == 0 then (Num(0.0), sel)
    else
      var (sum, sel1) := SelectSum(c, n, formula, minSize, ids[..|ids| - 1], bound, sel);
      var (x, sel2) := Select(c, n, formula, minSize, ids[|ids| - 1], sel1);
      (Add(sum, x), sel2)
  }

  /** Every selected id is a cluster (not a point) with at least `minSize` points. */
  predicate Large(c: Condensed, n: nat, sel: set<nat>, minSize: int)
  {
    forall x :: x in sel ==> n <= x < |c.sizes| && c.sizes[x] >= minSize
  }

  /** Selection only ever adds clusters of at least `minSize` points. */
  lemma {:induction false} SelectLarge(c: Condensed, n: nat, formula: Formula, minSize: int, id: nat, sel: set<nat>)
    requires Structure(c, n) && id < |c.sizes| && Large(c, n, sel, minSize)
    ensures Large(c, n, Select(c, n, formula, minSize, id, sel).1, minSize)
    decreases id, 1, 0
  {
    var children := Children(c, n, id);
    if |children| > 0 {
      SelectSumLarge(c, n, formula, minSize, children, id, sel);
    }
  }

  lemma {:induction false} SelectSumLarge(c: Condensed, n: nat, formula: Formula, minSize: int, ids: seq<nat>, bound: nat, sel: set<nat>)
    requires Structure(c, n) && bound <= |c.sizes| && forall i :: 0 <= i < |ids| ==> ids[i] < bound
    requires Large(c, n, sel, minSize)
    ensures Large(c, n, SelectSum(c, n, formula, minSize, ids, bound, sel).1, minSize)
    decreases bound, 0, |ids|
  {
    if |ids| > 0 {
      SelectSumLarge(c, n, formula, minSize, ids[..|ids| - 1], bound, sel);
      var sel1 := SelectSum(c, n, formula, minSize, ids[..|ids| - 1], bound, sel).1;
      SelectLarge(c, n, formula, minSize, ids[|ids| - 1], sel1);
    }
  }

  /** As written, every call returns stability 0 and leaves the selection as it was. */
  lemma {:induction false} AsWrittenSelectsNothing(c: Condensed, n: nat, minSize: int, id: nat, sel: set<nat>)
    requires WellFormed(c, n) && id < |c.sizes|
    ensures Select(c, n, AsWritten, minSize, id, sel) == (Num(0.0), sel)
    decreases id, 1, 0
  {
    var children := Children(c, n, id);
    AsWrittenNotPositive(c, n, id);
    if |children| > 0 {
      AsWrittenSumZero(c, n, minSize, children, id, sel);
    }
  }

  lemma {:induction false} AsWrittenSumZero(c: Condensed, n: nat, minSize: int, ids: seq<nat>, bound: nat, sel: set<nat>)
    requires WellFormed(c, n) && bound <= |c.sizes| && forall i :: 0 <= i < |ids| ==> ids[i] < bound
    ensures SelectSum(c, n, AsWritten, minSize, ids, bound, sel) == (Num(0.0), sel)
    decreases bound, 0, |ids|
  {
    if |ids| > 0 {
      AsWrittenSumZero(c, n, minSize, ids[..|ids| - 1], bound, sel);
      AsWrittenSelectsNothing(c, n, minSize, ids[|ids| - 1], sel);
    }
  }

  /** `get_points_in_cluster(id)`: the points below `id`. */
  function PointsIn(c: Condensed, n: nat, id: nat): (ps: set<nat>)
    requires Structure(c, n) && id < |c.sizes|
    ensures forall p :: p in ps ==> p < n
    ensures id < n ==> ps == {id}
    decreases id, 1, 0
  {
    if id < n then {id} else PointsInAll(c, n, Children(c, n, id), id)
  }

  /** The union of `PointsIn` over a list of ids. */
  function PointsInAll(c: Condensed, n: nat, ids: seq<nat>, bound: nat): (ps: set<nat>)
    requires Structure(c, n) && bound <= |c.sizes| && forall i :: 0 <= i < |ids| ==> ids[i] < bound
    ensures forall p :: p in ps ==> p < n
    decreases bound, 0, |ids|
  {
    if |ids| == 0 then {}
    else PointsInAll(c, n, ids[..|ids| - 1], bound) + PointsIn(c, n, ids[|ids| - 1])
  }

  /** The labels after the first k clusters of `order` have been handed out:
      a point not yet labelled (-1) that lies in the k-th cluster gets k - 1. */
  function Assign(c: Condensed, n: nat, order: seq<nat>, k: nat): (labels: seq<int>)
    requires Structure(c, n) && k <= |order| && forall i :: 0 <= i < |order| ==> order[i] < |c.sizes|
    ensures |labels| == n
    ensures forall p :: 0 <= p < n ==>
      (labels[p] == -1 <==> forall i :: 0 <= i < k ==> p !in PointsIn(c, n, order[i]))
    ensures forall p :: 0 <= p < n && labels[p] != -1 ==>
      && 0 <= labels[p] < k
      && p in PointsIn(c, n, order[labels[p]])
      && forall i :: 0 <= i < labels[p] ==> p !in PointsIn(c, n, order[i])
  {
    if k == 0 then seq(n, p => -1)
    else
      var prev := Assign(c, n, order, k - 1);
      var pts := PointsIn(c, n, order[k - 1]);
      seq(n, p requires 0 <= p < n => if prev[p] == -1 && p in pts then k - 1 else prev[p])
  }

  /** `labels[labels == -1] = 0`. */
  function Unlabelled(labels: seq<int>): (r: seq<nat>)
    ensures |r| == |labels|
    ensures forall p :: 0 <= p < |labels| ==> r[p] == if labels[p] < 0 then 0 else labels[p]
  {
    seq(|labels|, p requires 0 <= p < |labels| => if labels[p] < 0 then 0 else labels[p])
  }

  /** `all_clusters`: every id that occurs in the tree, as a parent or as a child. */
  function AllClusters(tree: seq<Entry>): set<nat>
  {
    (set j | 0 <= j < |tree| :: tree[j].parent) + (set j | 0 <= j < |tree| :: tree[j].child)
  }

  /** `max(all_clusters)` is the id of the last merge. */
  lemma RootIsMax(c: Condensed, n: nat)
    requires Structure(c, n) && |c.merges| > 0
    ensures n + |c.merges| - 1 in AllClusters(Entries(c.merges, n))
    ensures forall x :: x in AllClusters(Entries(c.merges, n)) ==> x <= n + |c.merges| - 1
  {
    var tree := Entries(c.merges, n);
    assert tree[|tree| - 1].parent == n + |c.merges| - 1;
    forall x | x in AllClusters(tree) ensures x <= n + |c.merges| - 1 {
      var j :| 0 <= j < |tree| && (tree[j].parent == x || tree[j].child == x);
      assert tree[j].parent == n + j / 2;
    }
  }

  /** `selected_clusters` after `select_clusters(root_cluster)`; empty for an empty tree. */
  function Selected(c: Condensed, n: nat, formula: Formula, minSize: int): (sel: set<nat>)
    requires Structure(c, n)
    ensures Large(c, n, sel, minSize)
  {
    if |c.merges| == 0 then {}
    else
      var root := n + |c.merges| - 1;
      RootIsMax(c, n);
      SelectLarge(c, n, formula, minSize, root, {});
      Select(c, n, formula, minSize, root, {}).1
  }

  /** Each point is labelled with the position in `order` of the first
      cluster containing it, or 0 when no listed cluster contains it. */
  predicate FirstContaining(c: Condensed, n: nat, order: seq<nat>, labels: seq<nat>)
    requires Structure(c, n) && |labels| == n
    requires forall i :: 0 <= i < |order| ==> order[i] < |c.sizes|
  {
    forall p :: 0 <= p < n ==>
      if exists i :: 0 <= i < |order| && p in PointsIn(c, n, order[i]) then
        && labels[p] < |order| && p in PointsIn(c, n, order[labels[p]])
        && forall i :: 0 <= i < labels[p] ==> p !in PointsIn(c, n, order[i])
      else labels[p] == 0
  }

  /** `extract_clusters_eom`: all zeros for an empty tree or an empty selection;
      otherwise each point gets the position, in ascending id order, of the
      first selected cluster containing it, and 0 if there is none. */
  function Extract(c: Condensed, n: nat, formula: Formula, minSize: int): (labels: seq<nat>)
    requires Structure(c, n)
    ensures |labels| == n
    ensures Selected(c, n, formula, minSize) == {} ==> AllZero(labels)
    ensures forall p :: 0 <= p < n ==> labels[p] == 0 || labels[p] < |Selected(c, n, formula, minSize)|
    ensures FirstContaining(c, n, AscendingUpTo(Selected(c, n, formula, minSize), |c.sizes|), labels)
  {
    var sel := Selected(c, n, formula, minSize);
    var order := AscendingUpTo(sel, |c.sizes|);
    CardAscending(sel, |c.sizes|);
    if sel == {} then
      Zeros(n)
    else
      AssignFirst(c, n, order);
      Unlabelled(Assign(c, n, order, |order|))
  }

  /** Assigning over the whole list labels each point with its first containing cluster. */
  lemma AssignFirst(c: Condensed, n: nat, order: seq<nat>)
    requires Structure(c, n) && forall i :: 0 <= i < |order| ==> order[i] < |c.sizes|
    ensures FirstContaining(c, n, order, Unlabelled(Assign(c, n, order, |order|)))
  {
    var a := Assign(c, n, order, |order|);
    var labels := Unlabelled(a);
    forall p | 0 <= p < n
      ensures if exists i :: 0 <= i < |order| && p in PointsIn(c, n, order[i]) then
          && labels[p] < |order| && p in PointsIn(c, n, order[labels[p]])
          && forall i :: 0 <= i < labels[p] ==> p !in PointsIn(c, n, order[i])
        else labels[p] == 0
    {
      if a[p] == -1 {
        assert labels[p] == 0;
      } else {
        assert labels[p] == a[p];
      }
    }
  }

  /** Listing the members of a set below a bound that holds all of them lists each once. */
  lemma CardAscending(s: set<nat>, bound: nat)
    requires forall x :: x in s ==> x < bound
    ensures |AscendingUpTo(s, bound)| == |s|
  {
    var r := AscendingUpTo(s, bound);
    DistinctCard(r);
    assert Elems(r) == s;
  }

  /** As written, nothing is ever selected, so every point gets label 0. */
  lemma AsWrittenAllZero(c: Condensed, n: nat, minSize: int)
    requires WellFormed(c, n)
    ensures Selected(c, n, AsWritten, minSize) == {}
    ensures AllZero(Extract(c, n, AsWritten, minSize))
  {
    AsWrittenSelectsNone(c, n, minSize);
  }

  lemma AsWrittenSelectsNone(c: Condensed, n: nat, minSize: int)
    requires WellFormed(c, n)
    ensures Selected(c, n, AsWritten, minSize) == {}
  {
    if |c.merges| > 0 {
      AsWrittenSelectsNothing(c, n, minSize, n + |c.merges| - 1, {});
    }
  }

  /** Four points in two tight pairs: {0, 1} and {2, 3} merge at distance 1
      (lambda 1) into clusters 4 and 5, which merge at distance 10 (lambda 0.1)
      into the root 6. */
  predicate TwoPairsTree(c: Condensed)
  {
    && Structure(c, 4)
    && c.merges == [Merge(0, 1, 1, 1, Num(1.0)), Merge(2, 1, 3, 1, Num(1.0)), Merge(4, 2, 5, 2, Num(0.1))]
  }

  /** The condensed tree of the two pairs exists. */
  function TwoPairs(): (c: Condensed)
    ensures TwoPairsTree(c) && WellFormed(c, 4)
  {
    Condensed([Merge(0, 1, 1, 1, Num(1.0)), Merge(2, 1, 3, 1, Num(1.0)), Merge(4, 2, 5, 2, Num(0.1))],
              [1, 1, 1, 1, 2, 2, 4],
              [Num(0.0), Num(0.0), Num(0.0), Num(0.0), Num(1.0), Num(1.0), Num(0.1)])
  }

  /** Clusters 4 and 5 die at lambda 0.1, where the root absorbs them; the
      root is never absorbed and dies where it is born. */
  lemma TwoPairsDeaths(c: Condensed)
    requires TwoPairsTree(c)
    ensures Death(c, 4, 4) == Num(0.1) && Death(c, 4, 5) == Num(0.1) && Death(c, 4, 6) == Num(0.1)
  {
    var tree := Entries(c.merges, 4);
    assert tree[4].child == 4 && tree[5].child == 5;
    assert forall j :: 0 <= j < |tree| && j != 4 ==> tree[j].child != 4;
    assert forall j :: 0 <= j < |tree| && j != 5 ==> tree[j].child != 5;
    assert forall j :: 0 <= j < |tree| ==> tree[j].child != 6;
    assert c.births[6] == Num(0.1);
  }

  /** The corrected stabilities: 1.8 for each pair, 0 for the root. */
  lemma TwoPairsStability(c: Condensed)
    requires TwoPairsTree(c)
    ensures Stability(c, 4, Corrected, 4) == Num(1.8) && Stability(c, 4, Corrected, 5) == Num(1.8)
    ensures Stability(c, 4, Corrected, 6) == Num(0.0)
  {
    TwoPairsDeaths(c);
    assert c.births[4] == c.merges[0].lambda && c.births[5] == c.merges[1].lambda;
    assert c.sizes[4] == c.merges[0].leftSize + c.merges[0].rightSize;
    assert c.sizes[5] == c.merges[1].leftSize + c.merges[1].rightSize;
  }

  /** The children on the two pairs. */
  lemma TwoPairsChildren(c: Condensed)
    requires TwoPairsTree(c)
    ensures Children(c, 4, 4) == [0, 1] && Children(c, 4, 5) == [2, 3] && Children(c, 4, 6) == [4, 5]
  {
  }

  /** A cluster whose two children are points, with positive corrected
      stability and at least `minSize` points, is selected in place of its points. */
  lemma PairSelected(c: Condensed, n: nat, minSize: int, id: nat, sel: set<nat>)
    requires Structure(c, n) && n <= id < |c.sizes|
    requires |Children(c, n, id)| == 2 && Children(c, n, id)[0] < n && Children(c, n, id)[1] < n
    requires Gt(Stability(c, n, Corrected, id), Num(0.0)) && c.sizes[id] >= minSize
    ensures Select(c, n, Corrected, minSize, id, sel)
         == (Stability(c, n, Corrected, id), (sel - {Children(c, n, id)[0], Children(c, n, id)[1]}) + {id})
  {
    var ch := Children(c, n, id);
    assert ch == [ch[0], ch[1]];
    assert ch[..1] == [ch[0]];
    assert SelectSum(c, n, Corrected, minSize, ch[..1], id, sel) == (Add(Num(0.0), Num(0.0)), sel);
    assert SelectSum(c, n, Corrected, minSize, ch, id, sel) == (Add(Num(0.0), Num(0.0)), sel);
    var r := Select(c, n, Corrected, minSize, id, sel);
    assert r.1 == (sel - set x | x in ch) + {id};
    assert (sel - set x | x in ch) + {id} == (sel - {ch[0], ch[1]}) + {id};
  }

  /** Each pair beats its two points and is selected. */
  lemma TwoPairsSelectLeft(c: Condensed)
    requires TwoPairsTree(c)
    ensures Select(c, 4, Corrected, 2, 4, {}) == (Num(1.8), {4})
  {
    TwoPairsStability(c);
    TwoPairsChildren(c);
    assert c.sizes[4] == c.merges[0].leftSize + c.merges[0].rightSize;
    PairSelected(c, 4, 2, 4, {});
    assert ({} - {0, 1}) + {4} == {4};
  }

  lemma TwoPairsSelectRight(c: Condensed)
    requires TwoPairsTree(c)
    ensures Select(c, 4, Corrected, 2, 5, {4}) == (Num(1.8), {4, 5})
  {
    TwoPairsStability(c);
    TwoPairsChildren(c);
    assert c.sizes[5] == c.merges[1].leftSize + c.merges[1].rightSize;
    PairSelected(c, 4, 2, 5, {4});
    assert ({4} - {2, 3}) + {5} == {4, 5};
  }

  /** Selection on the two pairs: the root's empty span does not beat the pairs. */
  lemma TwoPairsSelected(c: Condensed)
    requires TwoPairsTree(c)
    ensures Selected(c, 4, Corrected, 2) == {4, 5}
  {
    TwoPairsStability(c);
    TwoPairsChildren(c);
    TwoPairsSelectLeft(c);
    TwoPairsSelectRight(c);
    var ch := Children(c, 4, 6);
    assert ch[..1] == [4];
    assert SelectSum(c, 4, Corrected, 2, ch[..1], 6, {}) == (Add(Num(0.0), Num(1.8)), {4});
    assert SelectSum(c, 4, Corrected, 2, ch, 6, {}) == (Add(Num(1.8), Num(1.8)), {4, 5});
  }

  /** The points under each pair. */
  lemma TwoPairsPoints(c: Condensed)
    requires TwoPairsTree(c)
    ensures PointsIn(c, 4, 4) == {0, 1} && PointsIn(c, 4, 5) == {2, 3}
  {
    TwoPairsChildren(c);
    var ch4, ch5 := Children(c, 4, 4), Children(c, 4, 5);
    assert ch4[..1] == [0] && ch5[..1] == [2];
    assert PointsInAll(c, 4, ch4[..1], 4) == {} + {0};
    assert PointsInAll(c, 4, ch5[..1], 5) == {} + {2};
  }

  /** The two selected pairs in ascending id order. */
  lemma TwoPairsOrder(bound: nat)
    requires bound > 5
    ensures AscendingUpTo({4, 5}, bound) == [4, 5]
  {
    var order := AscendingUpTo({4, 5}, bound);
    CardAscending({4, 5}, bound);
    assert order[0] in {4, 5} && order[1] in {4, 5};
  }

  /** On the two pairs, the corrected formula labels the pairs 0 and 1. */
  lemma CorrectedTwoPairs(c: Condensed)
    requires TwoPairsTree(c)
    ensures Extract(c, 4, Corrected, 2) == [0, 0, 1, 1]
  {
    TwoPairsSelected(c);
    TwoPairsPoints(c);
    TwoPairsOrder(|c.sizes|);
    TwoPairsLabels(c, Extract(c, 4, Corrected, 2));
  }

  /** Labelling by first containing cluster, with the clusters {0, 1} and
      {2, 3} in that order, gives the pairs the labels 0 and 1. */
  lemma TwoPairsLabels(c: Condensed, labels: seq<nat>)
    requires TwoPairsTree(c) && |labels| == 4
    requires PointsIn(c, 4, 4) == {0, 1} && PointsIn(c, 4, 5) == {2, 3}
    requires FirstContaining(c, 4, [4, 5], labels)
    ensures labels == [0, 0, 1, 1]
  {
    var order := [4, 5];
    assert 0 in PointsIn(c, 4, order[0]) && 1 in PointsIn(c, 4, order[0]);
    assert 2 in PointsIn(c, 4, order[1]) && 3 in PointsIn(c, 4, order[1]);
  }

  /** On the two pairs, the formula as written labels all four points 0. */
  lemma AsWrittenTwoPairs(c: Condensed)
    requires TwoPairsTree(c)
    ensures Extract(c, 4, AsWritten, 2) == [0, 0, 0, 0]
  {
    assert c.births[4] == c.merges[0].lambda && c.births[5] == c.merges[1].lambda;
    assert c.births[6] == c.merges[2].lambda;
    assert WellFormed(c, 4);
    AsWrittenAllZero(c, 4, 2);
  }
}
