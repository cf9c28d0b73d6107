/** `minimum_spanning_tree_prim`: the O(n^2) Prim's algorithm over a dense
    weight matrix, started at vertex 0. `min_dist` starts at +inf for every
    vertex but 0, so it is a sequence of `Float`s. */
module Prim {
  import opened ExtReal
  import opened Reachability
  import opened Finite

  /** A tree edge `(parent, vertex, weight)` as `minimum_spanning_tree_prim` appends it. */
  datatype Edge = Edge(u: nat, v: nat, w: real)

  /** The vertices in the order the algorithm adds them: 0 first, then the
      second component of each edge. */
  function TreeOrder(edges: seq<Edge>): (order: seq<nat>)
    ensures |order| == |edges| + 1 && order[0] == 0
    ensures forall k :: 0 <= k < |edges| ==> order[k + 1] == edges[k].v
  {
    [0] + seq(|edges|, k requires 0 <= k < |edges| => edges[k].v)
  }

  /** Each edge joins a vertex already in the tree (its first component) to the
      next vertex added, with the weight of that matrix entry; and each edge is
      a lightest edge leaving the tree built so far (the cut property that makes
      the result a minimum spanning tree). */
  predicate GrowsTree(m: seq<seq<real>>, edges: seq<Edge>, order: seq<nat>)
    requires IsSquare(m)
  {
    && |order| == |edges| + 1
    && (forall i :: 0 <= i < |order| ==> order[i] < |m|)
    && (forall k :: 0 <= k < |edges| ==> edges[k].v == order[k + 1])
    && (forall k :: 0 <= k < |edges| ==> edges[k].u in order[..k + 1])
    && (forall k :: 0 <= k < |edges| ==> edges[k].u < |m| && edges[k].w == m[edges[k].u][edges[k].v])
    && (forall k, i, b :: 0 <= k < |edges| && 0 <= i <= k && 0 <= b < |m| && b !in order[..k + 1] ==>
          edges[k].w <= m[order[i]][b])
  }

  /** `edges` is a spanning tree of the n vertices rooted at 0, grown as Prim grows it. */
  predicate PrimTree(m: seq<seq<real>>, edges: seq<Edge>)
    requires IsSquare(m)
  {
    && |m| >= 1
    && |edges| == |m| - 1
    && Distinct(TreeOrder(edges))
    && GrowsTree(m, edges, TreeOrder(edges))
  }

  /** Vertex `v` is outside the tree and its `min_dist` is the lightest edge
      from the tree to it, through `parent[v]`. */
  predicate FrontierEntry(m: seq<seq<real>>, order: seq<nat>, minDist: seq<Float>, parent: seq<int>, v: nat)
    requires IsSquare(m) && |minDist| == |m| && |parent| == |m| && v < |m|
    requires forall i :: 0 <= i < |order| ==> order[i] < |m|
  {
    && 0 <= parent[v] < |m|
    && parent[v] in order
    && minDist[v] == Num(m[parent[v]][v])
    && forall i :: 0 <= i < |order| ==> m[parent[v]][v] <= m[order[i]][v]
  }

  /** The unvisited vertex with the smallest `min_dist`, the first such in index order. */
  method SelectVertex(inTree: seq<bool>, minDist: seq<Float>) returns (u: nat)
    requires |inTree| == |minDist|
    requires exists i :: 0 <= i < |inTree| && !inTree[i]
    requires forall i :: 0 <= i < |minDist| ==> minDist[i].Num? || minDist[i].PosInf?
    ensures u < |inTree| && !inTree[u]
    ensures forall i :: 0 <= i < |inTree| && !inTree[i] ==> !Lt(minDist[i], minDist[u])
    ensures forall i :: 0 <= i < u && !inTree[i] ==> Lt(minDist[u], minDist[i])
  {
    var best: int := -1;
    var i := 0;
    while i < |inTree|
      invariant 0 <= i <= |inTree|
      invariant -1 <= best < i
      invariant best == -1 ==> forall j :: 0 <= j < i ==> inTree[j]
      invariant best >= 0 ==> !inTree[best]
      invariant best >= 0 ==> forall j :: 0 <= j < i && !inTree[j] ==> !Lt(minDist[j], minDist[best])
      invariant best >= 0 ==> forall j :: 0 <= j < best && !inTree[j] ==> Lt(minDist[best], minDist[j])
    {
      if !inTree[i] && (best == -1 || Lt(minDist[i], minDist[best])) {
        best := i;
      }
      i := i + 1;
    }
    u := best;
  }

  /** Lowers `min_dist[v]` (and sets `parent[v] := u`) for every unvisited `v`
      that `u` reaches with a strictly lighter edge. */
  method Relax(m: seq<seq<real>>, u: nat, inTree: seq<bool>, minDist: seq<Float>, parent: seq<int>)
    returns (minDist': seq<Float>, parent': seq<int>)
    requires IsSquare(m) && u < |m|
    requires |inTree| == |m| && |minDist| == |m| && |parent| == |m|
    ensures |minDist'| == |m| && |parent'| == |m|
    ensures forall v :: 0 <= v < |m| && !inTree[v] && Lt(Num(m[u][v]), minDist[v]) ==>
      minDist'[v] == Num(m[u][v]) && parent'[v] == u
    ensures forall v :: 0 <= v < |m| && !(!inTree[v] && Lt(Num(m[u][v]), minDist[v])) ==>
      minDist'[v] == minDist[v] && parent'[v] == parent[v]
  {
    minDist', parent' := minDist, parent;
    var v := 0;
    while v < |m|
      invariant 0 <= v <= |m|
      invariant |minDist'| == |m| && |parent'| == |m|
      invariant forall j :: 0 <= j < v && !inTree[j] && Lt(Num(m[u][j]), minDist[j]) ==>
        minDist'[j] == Num(m[u][j]) && parent'[j] == u
      invariant forall j :: 0 <= j < |m| && !(j < v && !inTree[j] && Lt(Num(m[u][j]), minDist[j])) ==>
        minDist'[j] == minDist[j] && parent'[j] == parent[j]
    {
      if !inTree[v] && Lt(Num(m[u][v]), minDist'[v]) {
        minDist' := minDist'[v := Num(m[u][v])];
        parent' := parent'[v := u];
      }
      v := v + 1;
    }
  }

  /** Fewer than n distinct vertices below n leave one out. */
  lemma PigeonholeMissing(s: seq<nat>, n: nat)
    requires Distinct(s) && |s| < n
    requires forall i :: 0 <= i < |s| ==> s[i] < n
    ensures exists i :: 0 <= i < n && i !in s
  {
    DistinctCard(s);
    BelowCard(n);
    if Below(n) <= Elems(s) {
      SubsetCard(Below(n), Elems(s));
      assert false;
    }
    var i :| i in Below(n) && i !in Elems(s);
    assert i < n && i !in s;
  }

  /** n distinct vertices below n are all of them. */
  lemma PigeonholeAll(s: seq<nat>, n: nat)
    requires Distinct(s) && |s| == n
    requires forall i :: 0 <= i < |s| ==> s[i] < n
    ensures forall i :: 0 <= i < n ==> i in s
  {
    DistinctCard(s);
    BelowCard(n);
    assert Elems(s) <= Below(n);
    forall i | 0 <= i < n
      ensures i in s
    {
      if i !in s {
        SubsetCard(Elems(s), Below(n) - {i});
      }
    }
  }

  /** Appending the edge to the selected vertex keeps the tree growing by lightest edges. */
  lemma ExtendTree(m: seq<seq<real>>, edges: seq<Edge>, order: seq<nat>, inTree: seq<bool>,
                   minDist: seq<Float>, parent: seq<int>, u: nat)
    requires IsSquare(m) && |inTree| == |m| && |minDist| == |m| && |parent| == |m|
    requires GrowsTree(m, edges, order)
    requires forall i :: 0 <= i < |m| ==> (inTree[i] <==> i in order)
    requires forall v :: 0 <= v < |m| && !inTree[v] ==> FrontierEntry(m, order, minDist, parent, v)
    requires u < |m| && !inTree[u]
    requires forall i :: 0 <= i < |m| && !inTree[i] ==> !Lt(minDist[i], minDist[u])
    ensures 0 <= parent[u] < |m| && minDist[u] == Num(m[parent[u]][u])
    ensures GrowsTree(m, edges + [Edge(parent[u], u, m[parent[u]][u])], order + [u])
  {
    assert FrontierEntry(m, order, minDist, parent, u);
    var e := Edge(parent[u], u, m[parent[u]][u]);
    var edges', order' := edges + [e], order + [u];
    var k := |edges|;
    assert order'[..k + 1] == order;
    forall j | 0 <= j < |edges'|
      ensures edges'[j].u in order'[..j + 1]
    {
      if j < k {
        assert order'[..j + 1] == order[..j + 1];
      }
    }
    forall j, i, b | 0 <= j < |edges'| && 0 <= i <= j && 0 <= b < |m| && b !in order'[..j + 1]
      ensures edges'[j].w <= m[order'[i]][b]
    {
      if j < k {
        assert order'[..j + 1] == order[..j + 1];
      } else if b != u {
        assert !inTree[b];
        assert FrontierEntry(m, order, minDist, parent, b);
        assert !Lt(minDist[b], minDist[u]);
      }
    }
  }

  /** Relaxing from the newly added vertex `u` restores the frontier invariant. */
  lemma RelaxFrontier(m: seq<seq<real>>, order: seq<nat>, u: nat, inTree: seq<bool>,
                      minDist: seq<Float>, parent: seq<int>, minDist': seq<Float>, parent': seq<int>)
    requires IsSquare(m) && u < |m|
    requires |inTree| == |m| && |minDist| == |m| && |parent| == |m| && |minDist'| == |m| && |parent'| == |m|
    requires forall i :: 0 <= i < |order| ==> order[i] < |m|
    requires forall v :: 0 <= v < |m| && !inTree[v] ==>
      (|order| == 0 && minDist[v] == PosInf) || FrontierEntry(m, order, minDist, parent, v)
    requires forall v :: 0 <= v < |m| && !inTree[v] && Lt(Num(m[u][v]), minDist[v]) ==>
      minDist'[v] == Num(m[u][v]) && parent'[v] == u
    requires forall v :: 0 <= v < |m| && !(!inTree[v] && Lt(Num(m[u][v]), minDist[v])) ==>
      minDist'[v] == minDist[v] && parent'[v] == parent[v]
    ensures forall v :: 0 <= v < |m| && !inTree[v] ==> FrontierEntry(m, order + [u], minDist', parent', v)
  {
    forall v | 0 <= v < |m| && !inTree[v]
      ensures FrontierEntry(m, order + [u], minDist', parent', v)
    {
      var order' := order + [u];
      if Lt(Num(m[u][v]), minDist[v]) {
        assert order'[|order|] == u;
        forall i | 0 <= i < |order'|
          ensures m[parent'[v]][v] <= m[order'[i]][v]
        {
          if i < |order| {
            assert FrontierEntry(m, order, minDist, parent, v);
            assert order'[i] == order[i];
          }
        }
      } else {
        assert FrontierEntry(m, order, minDist, parent, v);
        assert parent[v] in order';
      }
    }
  }

  /** The bookkeeping part of the loop invariant: `in_tree` marks exactly the
      vertices of `order`, which are distinct, and `min_dist` is never -inf or NaN. */
  predicate Bookkeeping(m: seq<seq<real>>, order: seq<nat>, inTree: seq<bool>, minDist: seq<Float>, parent: seq<int>)
  {
    && 1 <= |m| && |order| <= |m|
    && |inTree| == |m| && |minDist| == |m| && |parent| == |m|
    && (forall i :: 0 <= i < |order| ==> order[i] < |m|)
    && Distinct(order)
    && (forall i :: 0 <= i < |m| ==> (inTree[i] <==> i in order))
    && (forall i :: 0 <= i < |m| ==> minDist[i].Num? || minDist[i].PosInf?)
  }

  /** Before the first round: only vertex 0 has a finite `min_dist`. */
  predicate Initial(m: seq<seq<real>>, minDist: seq<Float>, parent: seq<int>, edges: seq<Edge>)
    requires 1 <= |m| && |minDist| == |m| && |parent| == |m|
  {
    && edges == [] && minDist[0] == Num(0.0) && parent[0] == -1
    && (forall i :: 0 < i < |m| ==> minDist[i] == PosInf)
  }

  /** After a round: the tree grown so far and the frontier around it. */
  predicate Grown(m: seq<seq<real>>, order: seq<nat>, inTree: seq<bool>, minDist: seq<Float>,
                  parent: seq<int>, edges: seq<Edge>)
    requires IsSquare(m) && Bookkeeping(m, order, inTree, minDist, parent) && |order| > 0
  {
    && order[0] == 0 && |edges| == |order| - 1 && GrowsTree(m, edges, order)
    && (forall v :: 0 <= v < |m| && !inTree[v] ==> FrontierEntry(m, order, minDist, parent, v))
  }

  /** The loop invariant of `minimum_spanning_tree_prim` after `|order|` rounds. */
  predicate PrimState(m: seq<seq<real>>, order: seq<nat>, inTree: seq<bool>, minDist: seq<Float>,
                      parent: seq<int>, edges: seq<Edge>)
    requires IsSquare(m)
  {
    && Bookkeeping(m, order, inTree, minDist, parent)
    && (|order| == 0 ==> Initial(m, minDist, parent, edges))
    && (|order| > 0 ==> Grown(m, order, inTree, minDist, parent, edges))
  }

  /** Adding an unvisited vertex keeps `order` distinct and `in_tree` in step with it. */
  lemma StepBookkeeping(m: seq<seq<real>>, order: seq<nat>, inTree: seq<bool>, minDist: seq<Float>,
                        parent: seq<int>, u: nat, minDist': seq<Float>, parent': seq<int>)
    requires Bookkeeping(m, order, inTree, minDist, parent) && |order| < |m|
    requires u < |m| && !inTree[u]
    requires |minDist'| == |m| && |parent'| == |m|
    requires forall i :: 0 <= i < |m| ==> minDist'[i].Num? || minDist'[i].PosInf?
    ensures Bookkeeping(m, order + [u], inTree[u := true], minDist', parent')
  {
    var order', inTree' := order + [u], inTree[u := true];
    forall i | 0 <= i < |m|
      ensures inTree'[i] <==> i in order'
    {
      assert i in order' <==> i in order || i == u;
    }
  }

  /** The edge a round appends, if any. */
  function StepEdges(m: seq<seq<real>>, edges: seq<Edge>, parent: seq<int>, u: nat): seq<Edge>
    requires IsSquare(m) && |parent| == |m| && u < |m|
  {
    if 0 <= parent[u] < |m| then edges + [Edge(parent[u], u, m[parent[u]][u])] else edges
  }

  /** One round keeps the tree part of the invariant. */
  lemma StepTree(m: seq<seq<real>>, order: seq<nat>, inTree: seq<bool>, minDist: seq<Float>,
                 parent: seq<int>, edges: seq<Edge>, u: nat)
    requires IsSquare(m)
    requires PrimState(m, order, inTree, minDist, parent, edges)
    requires u < |m| && !inTree[u]
    requires forall i :: 0 <= i < |m| && !inTree[i] ==> !Lt(minDist[i], minDist[u])
    ensures |order| == 0 ==> u == 0 && parent[u] == -1
    ensures |order| > 0 ==> 0 <= parent[u] < |m| && minDist[u] == Num(m[parent[u]][u])
    ensures Distinct(order + [u]) && (order + [u])[0] == 0
    ensures |StepEdges(m, edges, parent, u)| == |order|
    ensures GrowsTree(m, StepEdges(m, edges, parent, u), order + [u])
  {
    if |order| == 0 {
      assert u == 0 by {
        assert !Lt(minDist[0], minDist[u]);
      }
      assert StepEdges(m, edges, parent, u) == [];
    } else {
      assert FrontierEntry(m, order, minDist, parent, u);
      ExtendTree(m, edges, order, inTree, minDist, parent, u);
    }
  }

  /** One round keeps the frontier part of the invariant. */
  lemma StepFrontier(m: seq<seq<real>>, order: seq<nat>, inTree: seq<bool>, minDist: seq<Float>,
                     parent: seq<int>, edges: seq<Edge>, u: nat, minDist': seq<Float>, parent': seq<int>)
    requires IsSquare(m)
    requires PrimState(m, order, inTree, minDist, parent, edges)
    requires u < |m| && !inTree[u] && (|order| == 0 ==> u == 0)
    requires |minDist'| == |m| && |parent'| == |m|
    requires forall v :: 0 <= v < |m| && !inTree[u := true][v] && Lt(Num(m[u][v]), minDist[v]) ==>
      minDist'[v] == Num(m[u][v]) && parent'[v] == u
    requires forall v :: 0 <= v < |m| && !(!inTree[u := true][v] && Lt(Num(m[u][v]), minDist[v])) ==>
      minDist'[v] == minDist[v] && parent'[v] == parent[v]
    ensures forall i :: 0 <= i < |m| ==> minDist'[i].Num? || minDist'[i].PosInf?
    ensures forall v :: 0 <= v < |m| && !inTree[u := true][v] ==> FrontierEntry(m, order + [u], minDist', parent', v)
  {
    var inTree' := inTree[u := true];
    forall v | 0 <= v < |m| && !inTree'[v]
      ensures (|order| == 0 && minDist[v] == PosInf) || FrontierEntry(m, order, minDist, parent, v)
    {
    }
    RelaxFrontier(m, order, u, inTree', minDist, parent, minDist', parent');
  }

  /** One round: select `u`, record its edge, add it to the tree, relax from it. */
  lemma PrimStep(m: seq<seq<real>>, order: seq<nat>, inTree: seq<bool>, minDist: seq<Float>,
                 parent: seq<int>, edges: seq<Edge>, u: nat, minDist': seq<Float>, parent': seq<int>)
    requires IsSquare(m)
    requires PrimState(m, order, inTree, minDist, parent, edges) && |order| < |m|
    requires u < |m| && !inTree[u]
    requires forall i :: 0 <= i < |m| && !inTree[i] ==> !Lt(minDist[i], minDist[u])
    requires |minDist'| == |m| && |parent'| == |m|
    requires forall v :: 0 <= v < |m| && !inTree[u := true][v] && Lt(Num(m[u][v]), minDist[v]) ==>
      minDist'[v] == Num(m[u][v]) && parent'[v] == u
    requires forall v :: 0 <= v < |m| && !(!inTree[u := true][v] && Lt(Num(m[u][v]), minDist[v])) ==>
      minDist'[v] == minDist[v] && parent'[v] == parent[v]
    ensures parent[u] != -1 ==> 0 <= parent[u] < |m| && minDist[u] == Num(m[parent[u]][u])
    ensures PrimState(m, order + [u], inTree[u := true], minDist', parent', StepEdges(m, edges, parent, u))
  {
    StepTree(m, order, inTree, minDist, parent, edges, u);
    StepFrontier(m, order, inTree, minDist, parent, edges, u, minDist', parent');
    StepBookkeeping(m, order, inTree, minDist, parent, u, minDist', parent');
    assert Grown(m, order + [u], inTree[u := true], minDist', parent', StepEdges(m, edges, parent, u));
  }

  /** `minimum_spanning_tree_prim`: exactly n - 1 edges forming a spanning tree
      rooted at 0, each a lightest edge leaving the part of the tree built
      before it. `minimum_spanning_tree_prim` indexes `min_dist[0]`, so it needs n >= 1. */
  method MinimumSpanningTree(m: seq<seq<real>>) returns (edges: seq<Edge>)
    requires IsSquare(m) && |m| >= 1
    ensures PrimTree(m, edges)
  {
    var n := |m|;
    var inTree := seq(n, i => false);
    var minDist := seq(n, i => if i == 0 then Num(0.0) else PosInf);
    var parent: seq<int> := seq(n, i => -1);
    edges := [];
    ghost var order: seq<nat> := [];
    var t := 0;
    while t < n
      invariant t == |order|
      invariant PrimState(m, order, inTree, minDist, parent, edges)
      decreases n - t
    {
      PigeonholeMissing(order, n);
      var u := SelectVertex(inTree, minDist);
      var inTree' := inTree[u := true];
      var minDist', parent' := Relax(m, u, inTree', minDist, parent);
      PrimStep(m, order, inTree, minDist, parent, edges, u, minDist', parent');
      ghost var edges0 := edges;
      if parent[u] != -1 {
        edges := edges + [Edge(parent[u], u, minDist[u].v)];
      }
      assert edges == StepEdges(m, edges0, parent, u);
      inTree, order := inTree', order + [u];
      minDist, parent := minDist', parent';
      t := t + 1;
    }
    PrimDone(m, order, inTree, minDist, parent, edges);
  }

  /** Once every vertex is in the tree, the edges form the spanning tree. */
  lemma PrimDone(m: seq<seq<real>>, order: seq<nat>, inTree: seq<bool>, minDist: seq<Float>,
                 parent: seq<int>, edges: seq<Edge>)
    requires IsSquare(m) && |m| >= 1
    requires PrimState(m, order, inTree, minDist, parent, edges) && |order| == |m|
    ensures PrimTree(m, edges)
  {
    PigeonholeAll(order, |m|);
    assert order == TreeOrder(edges);
  }
}
