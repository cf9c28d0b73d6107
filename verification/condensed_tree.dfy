/** `build_condensed_tree`: the minimum spanning tree's edges are merged in
    ascending weight order with a union-find. Every merge of two different
    sets allocates the next cluster id (n, n+1, ...) and records one entry for
    each of the two clusters it absorbs, at lambda = 1 / distance. */
module CondensedTree {
  import opened ExtReal
  import opened Sorting
  import opened Finite
  import opened UnionFind
  import opened Prim
  import opened Reachability

  /** One row of the condensed tree: `child` (a point or an earlier cluster)
      joins the new cluster `parent` at `lambda`. */
  datatype Entry = Entry(parent: nat, child: nat, childSize: nat, lambda: Float)

  /** One merge: the two clusters it absorbs (with their sizes) and its lambda.
      The k-th merge creates cluster id n + k and appends two entries. */
  datatype Merge = Merge(left: nat, leftSize: nat, right: nat, rightSize: nat, lambda: Float)

  /** The entry list the merges append, two per merge, in merge order. */
  function Entries(ms: seq<Merge>, n: nat): (tree: seq<Entry>)
    ensures |tree| == 2 * |ms|
    ensures forall j :: 0 <= j < |tree| ==> tree[j].parent == n + j / 2 && tree[j].lambda == ms[j / 2].lambda
    ensures forall j :: 0 <= j < |tree| ==>
      (tree[j].child, tree[j].childSize) == if j % 2 == 0 then (ms[j / 2].left, ms[j / 2].leftSize)
                                            else (ms[j / 2].right, ms[j / 2].rightSize)
  {
    if |ms| == 0 then []
    else
      var k := |ms| - 1;
      var m := ms[k];
      Entries(ms[..k], n) + [Entry(n + k, m.left, m.leftSize, m.lambda), Entry(n + k, m.right, m.rightSize, m.lambda)]
  }

  /** What `build_condensed_tree` returns: the merges (whose `Entries` are the
      tree), and `cluster_sizes` and `cluster_birth` indexed by cluster id,
      0 .. n-1 being the points. The number of clusters is `|merges|`. */
  datatype Condensed = Condensed(merges: seq<Merge>, sizes: seq<nat>, births: seq<Float>)

  /** The shape every condensed tree over n points has: merge k creates id
      n + k from two older ids, records their sizes, is as large as both
      together, and is born at its lambda. */
  predicate Structure(c: Condensed, n: nat)
  {
    && |c.sizes| == n + |c.merges| && |c.births| == |c.sizes|
    && (forall x :: 0 <= x < n ==> c.sizes[x] == 1 && c.births[x] == Num(0.0))
    && (forall id :: 0 <= id < |c.births| ==> c.births[id].Num? || c.births[id].PosInf?)
    && (forall k :: 0 <= k < |c.merges| ==> c.merges[k].left < n + k && c.merges[k].right < n + k)
    && (forall k :: 0 <= k < |c.merges| ==>
          c.merges[k].leftSize == c.sizes[c.merges[k].left] && c.merges[k].rightSize == c.sizes[c.merges[k].right])
    && (forall k :: 0 <= k < |c.merges| ==> c.sizes[n + k] == c.merges[k].leftSize + c.merges[k].rightSize)
    && (forall k :: 0 <= k < |c.merges| ==> c.births[n + k] == c.merges[k].lambda)
  }

  /** Later clusters are born at no larger lambda. */
  predicate BirthsNonIncreasing(births: seq<Float>, n: nat)
  {
    forall a, b :: n <= a < b < |births| ==> Le(births[b], births[a])
  }

  predicate WellFormed(c: Condensed, n: nat)
  {
    Structure(c, n) && BirthsNonIncreasing(c.births, n)
  }

  /** The loop state of `build_condensed_tree`: the union-find, `cluster_labels`
      (the cluster id currently standing for each root), and the output so far.
      The next free id is `|sizes|`. */
  datatype Build = Build(uf: Forest, labels: seq<nat>, merges: seq<Merge>, sizes: seq<nat>, births: seq<Float>)

  function Output(s: Build): Condensed
  {
    Condensed(s.merges, s.sizes, s.births)
  }

  /** The union-find half of the loop invariant: a valid forest over the n
      points whose sizes count its sets. */
  predicate ForestOk(s: Build, n: nat)
  {
    Valid(s.uf) && |s.uf.parent| == n && SizesCounted(s.uf) && |s.labels| == n && |s.sizes| >= n
  }

  /** Every merge so far removed one root. */
  predicate MergesCounted(s: Build, n: nat)
  {
    |s.sizes| >= n && |Roots(s.uf)| + (|s.sizes| - n) == n
  }

  /** Each root's cluster id exists and has the size of the root's set. */
  predicate RootLabels(s: Build, n: nat)
    requires ForestOk(s, n)
  {
    forall r :: 0 <= r < n && s.uf.parent[r] == r ==>
      s.labels[r] < |s.sizes| && s.sizes[s.labels[r]] == |Class(s.uf, r)|
  }

  /** The loop invariant of `build_condensed_tree`. */
  predicate Inv(s: Build, n: nat)
  {
    && ForestOk(s, n)
    && Structure(Output(s), n)
    && MergesCounted(s, n)
    && RootLabels(s, n)
  }

  lemma StartInv(s: Build, n: nat)
    requires s == Build(Init(n), Iota(n), [], seq(n, i => 1), seq(n, i => Num(0.0)))
    ensures Inv(s, n)
  {
    assert ForestOk(s, n);
    assert Structure(Output(s), n);
    assert MergesCounted(s, n);
    forall r | 0 <= r < n && s.uf.parent[r] == r
      ensures s.labels[r] < |s.sizes| && s.sizes[s.labels[r]] == |Class(s.uf, r)|
    {
      assert Class(s.uf, r) == {r};
    }
  }

  /** The state before the first edge. */
  function Start(n: nat): (s: Build)
    ensures Inv(s, n)
    ensures forall x :: 0 <= x < n ==> Root(s.uf, x) == x
  {
    var s := Build(Init(n), Iota(n), [], seq(n, i => 1), seq(n, i => Num(0.0)));
    StartInv(s, n);
    s
  }

  /** The merge `build_condensed_tree` records for edge `e` when its ends lie in different sets. */
  function MergeOf(s: Build, e: Edge, n: nat): Merge
    requires ForestOk(s, n) && e.u < n && e.v < n
  {
    var cu, cv := Root(s.uf, e.u), Root(s.uf, e.v);
    Merge(s.labels[cu], |Class(s.uf, cu)|, s.labels[cv], |Class(s.uf, cv)|, Recip(e.w))
  }

  /** Replacing the forest by one with the same roots everywhere (what path
      compression does) keeps the invariant. */
  lemma CompressKeepsInv(s: Build, f: Forest, n: nat)
    requires Inv(s, n) && Valid(f) && |f.parent| == n && f.size == s.uf.size
    requires forall z :: 0 <= z < n ==> Root(f, z) == Root(s.uf, z)
    ensures Inv(s.(uf := f), n)
  {
    SameRootsSameClasses(s.uf, f);
    var s' := s.(uf := f);
    assert ForestOk(s', n);
    assert MergesCounted(s', n);
    assert RootLabels(s', n);
  }

  /** What the merging branch does to the union-find: the two `get_size`
      calls, the `union`, and the `find` of the surviving root. */
  datatype Joined = Joined(sizeU: nat, sizeV: nat, root: nat, uf: Forest)

  /** The two `get_size` calls: path compression only. */
  function SizesOf(f: Forest, u: nat, v: nat): (r: (nat, nat, Forest))
    requires Valid(f) && SizesCounted(f) && u < |f.parent| && v < |f.parent|
    ensures Valid(r.2) && |r.2.parent| == |f.parent| && SizesCounted(r.2) && r.2.size == f.size
    ensures forall z :: 0 <= z < |f.parent| ==> Root(r.2, z) == Root(f, z)
    ensures r.0 == |Class(f, Root(f, u))| && r.1 == |Class(f, Root(f, v))|
  {
    var (su, f3) := GetSize(f, u);
    SameRootsSameClasses(f, f3);
    var (sv, f4) := GetSize(f3, v);
    (su, sv, f4)
  }

  /** The `union` of two different sets and the `find` of the surviving root. */
  function UniteFind(f: Forest, u: nat, v: nat): (r: (nat, Forest))
    requires Valid(f) && SizesCounted(f) && u < |f.parent| && v < |f.parent| && Root(f, u) != Root(f, v)
    ensures Valid(r.1) && |r.1.parent| == |f.parent| && SizesCounted(r.1)
    ensures r.0 == Root(r.1, u) && r.1.parent[r.0] == r.0
    ensures r.0 == Root(f, u) || r.0 == Root(f, v)
    ensures SetsJoined(f, r.1, u, v)
    ensures Class(r.1, r.0) == Class(f, Root(f, u)) + Class(f, Root(f, v))
    ensures |Roots(r.1)| == |Roots(f)| - 1
  {
    var (_, f5) := Union(f, u, v);
    UnionSets(f, u, v);
    UnionRootCount(f, u, v);
    var (root, f6) := Find(f5, u);
    SameRootsSameClasses(f5, f6);
    SetsJoinedCompress(f, f5, f6, u, v);
    (root, f6)
  }

  /** The merging branch on the union-find: sizes of both sets, then their union. */
  function JoinForest(f: Forest, u: nat, v: nat): (j: Joined)
    requires Valid(f) && SizesCounted(f) && u < |f.parent| && v < |f.parent| && Root(f, u) != Root(f, v)
    ensures Valid(j.uf) && |j.uf.parent| == |f.parent| && SizesCounted(j.uf)
    ensures j.sizeU == |Class(f, Root(f, u))| && j.sizeV == |Class(f, Root(f, v))|
    ensures j.root == Root(j.uf, u) && j.uf.parent[j.root] == j.root
    ensures j.root == Root(f, u) || j.root == Root(f, v)
    ensures SetsJoined(f, j.uf, u, v)
  {
    var (su, sv, f4) := SizesOf(f, u, v);
    var (root, f6) := UniteFind(f4, u, v);
    SetsJoinedFrom(f, f4, f6, u, v);
    Joined(su, sv, root, f6)
  }

  /** The merged set is the union of the two, and one set fewer remains. */
  lemma JoinForestSets(f: Forest, u: nat, v: nat)
    requires Valid(f) && SizesCounted(f) && u < |f.parent| && v < |f.parent| && Root(f, u) != Root(f, v)
    ensures var j := JoinForest(f, u, v);
      && Class(j.uf, j.root) == Class(f, Root(f, u)) + Class(f, Root(f, v))
      && |Roots(j.uf)| == |Roots(f)| - 1
  {
    var (su, sv, f4) := SizesOf(f, u, v);
    SameRootsSameClasses(f, f4);
    var (root, f6) := UniteFind(f4, u, v);
  }

  /** The state after the merging branch: the root of the joined set now
      stands for the next id, whose size is the sum of the two `get_size` results. */
  function AfterJoin(s: Build, e: Edge, n: nat, j: Joined): (s': Build)
    requires |s.labels| == n && e.u < n && e.v < n && j.root < n
    requires Valid(s.uf) && |s.uf.parent| == n
    ensures |s'.sizes| == |s.sizes| + 1 && s'.uf == j.uf && s'.labels == s.labels[j.root := |s.sizes|]
  {
    var m := Merge(s.labels[Root(s.uf, e.u)], j.sizeU, s.labels[Root(s.uf, e.v)], j.sizeV, Recip(e.w));
    var total: nat := j.sizeU + j.sizeV;
    Build(j.uf, s.labels[j.root := |s.sizes|], s.merges + [m], s.sizes + [total], s.births + [Recip(e.w)])
  }

  /** `AfterJoin` spelled out for a given merge record. */
  lemma AfterJoinIs(s: Build, e: Edge, n: nat, j: Joined, m: Merge)
    requires |s.labels| == n && e.u < n && e.v < n && j.root < n
    requires Valid(s.uf) && |s.uf.parent| == n
    requires m == Merge(s.labels[Root(s.uf, e.u)], j.sizeU, s.labels[Root(s.uf, e.v)], j.sizeV, Recip(e.w))
    ensures var s' := AfterJoin(s, e, n, j);
      && s'.uf == j.uf && s'.labels == s.labels[j.root := |s.sizes|]
      && s'.merges == s.merges + [m] && Appended(s'.sizes, s.sizes, m.leftSize + m.rightSize)
      && s'.births == s.births + [Recip(e.w)]
  {
  }

  /** The merging branch keeps the invariant. */
  lemma JoinKeepsInv(s: Build, e: Edge, n: nat)
    requires Inv(s, n) && e.u < n && e.v < n
    requires Root(s.uf, e.u) != Root(s.uf, e.v)
    ensures Inv(AfterJoin(s, e, n, JoinForest(s.uf, e.u, e.v)), n)
  {
    var j := JoinForest(s.uf, e.u, e.v);
    JoinForestSets(s.uf, e.u, e.v);
    var m := MergeOf(s, e, n);
    assert m == Merge(s.labels[Root(s.uf, e.u)], j.sizeU, s.labels[Root(s.uf, e.v)], j.sizeV, Recip(e.w));
    AfterJoinIs(s, e, n, j, m);
    AbsorbMerge(s, e, n, m, AfterJoin(s, e, n, j));
  }

  /** The merging branch records the merge and its birth. */
  lemma JoinRecords(s: Build, e: Edge, n: nat)
    requires ForestOk(s, n) && e.u < n && e.v < n
    requires Root(s.uf, e.u) != Root(s.uf, e.v)
    ensures var s' := AfterJoin(s, e, n, JoinForest(s.uf, e.u, e.v));
      s'.merges == s.merges + [MergeOf(s, e, n)] && s'.births == s.births + [Recip(e.w)]
  {
  }

  /** The merging branch of the loop body. */
  function Join(s: Build, e: Edge, n: nat): (s': Build)
    requires Inv(s, n) && e.u < n && e.v < n
    requires Root(s.uf, e.u) != Root(s.uf, e.v)
    ensures Inv(s', n)
    ensures SetsJoined(s.uf, s'.uf, e.u, e.v)
    ensures Root(s'.uf, e.u) == Root(s.uf, e.u) || Root(s'.uf, e.u) == Root(s.uf, e.v)
    ensures s'.merges == s.merges + [MergeOf(s, e, n)]
    ensures s'.births == s.births + [Recip(e.w)]
    ensures |s'.sizes| == |s.sizes| + 1
    ensures s'.labels == s.labels[Root(s'.uf, e.u) := |s.sizes|]
  {
    JoinKeepsInv(s, e, n);
    JoinRecords(s, e, n);
    AfterJoin(s, e, n, JoinForest(s.uf, e.u, e.v))
  }

  /** Path compression leaves the merge an edge records unchanged. */
  lemma CompressSameMerge(s: Build, f: Forest, e: Edge, n: nat)
    requires Inv(s, n) && e.u < n && e.v < n && Valid(f) && |f.parent| == n && f.size == s.uf.size
    requires forall z :: 0 <= z < n ==> Root(f, z) == Root(s.uf, z)
    ensures Inv(s.(uf := f), n)
    ensures MergeOf(s.(uf := f), e, n) == MergeOf(s, e, n)
  {
    CompressKeepsInv(s, f, n);
    SameRootsSameClasses(s.uf, f);
  }

  /** One iteration of the loop over the sorted edges: nothing but path
      compression when both ends already share a root; otherwise a merge into
      the next id, which then stands for the joined set's root. */
  function Absorb(s: Build, e: Edge, n: nat): (s': Build)
    requires Inv(s, n) && e.u < n && e.v < n
    ensures Inv(s', n)
    ensures SetsJoined(s.uf, s'.uf, e.u, e.v)
    ensures Root(s'.uf, e.u) == Root(s.uf, e.u) || Root(s'.uf, e.u) == Root(s.uf, e.v)
    ensures Root(s.uf, e.u) == Root(s.uf, e.v) ==>
      s'.labels == s.labels && s'.merges == s.merges && s'.sizes == s.sizes && s'.births == s.births
    ensures Root(s.uf, e.u) != Root(s.uf, e.v) ==>
      && s'.merges == s.merges + [MergeOf(s, e, n)]
      && s'.births == s.births + [Recip(e.w)]
      && |s'.sizes| == |s.sizes| + 1
      && s'.labels == s.labels[Root(s'.uf, e.u) := |s.sizes|]
  {
    var (cu, f1) := Find(s.uf, e.u);
    var (cv, f2) := Find(f1, e.v);
    CompressSameMerge(s, f2, e, n);
    var s1 := s.(uf := f2);
    if cu == cv then s1 else Join(s1, e, n)
  }

  /** Both ends of an absorbed edge end up in one set. */
  lemma AbsorbJoins(s: Build, e: Edge, n: nat)
    requires Inv(s, n) && e.u < n && e.v < n
    ensures Root(Absorb(s, e, n).uf, e.u) == Root(Absorb(s, e, n).uf, e.v)
  {
  }

  /** `t` is `s` with `x` appended (stated element by element). */
  predicate Appended(t: seq<nat>, s: seq<nat>, x: nat)
  {
    |t| == |s| + 1 && t[|s|] == x && forall i :: 0 <= i < |s| ==> t[i] == s[i]
  }

  /** Appending a merge of two existing ids keeps the shape of the tree. */
  lemma StructureAppend(c: Condensed, n: nat, m: Merge, sizes: seq<nat>)
    requires Structure(c, n) && m.left < |c.sizes| && m.right < |c.sizes|
    requires m.leftSize == c.sizes[m.left] && m.rightSize == c.sizes[m.right]
    requires m.lambda.Num? || m.lambda.PosInf?
    requires Appended(sizes, c.sizes, m.leftSize + m.rightSize)
    ensures Structure(Condensed(c.merges + [m], sizes, c.births + [m.lambda]), n)
  {
  }

  /** A merge keeps the union-find half of the invariant: the new root's id
      has the size of the joined set and every other root keeps its id. */
  lemma RootLabelsAfterMerge(s: Build, n: nat, cu: nat, cv: nat, s': Build, top: nat)
    requires ForestOk(s, n) && RootLabels(s, n) && cu < n && cv < n && cu != cv
    requires s.uf.parent[cu] == cu && s.uf.parent[cv] == cv
    requires Valid(s'.uf) && |s'.uf.parent| == n && top < n && s'.uf.parent[top] == top
    requires forall z :: 0 <= z < n ==>
      Root(s'.uf, z) == if Root(s.uf, z) == cu || Root(s.uf, z) == cv then top else Root(s.uf, z)
    requires Class(s'.uf, top) == Class(s.uf, cu) + Class(s.uf, cv)
    requires |s'.labels| == n && s'.labels == s.labels[top := |s.sizes|]
    requires |s'.sizes| == |s.sizes| + 1 && s'.sizes[|s.sizes|] == |Class(s.uf, cu)| + |Class(s.uf, cv)|
    requires forall i :: 0 <= i < |s.sizes| ==> s'.sizes[i] == s.sizes[i]
    requires SizesCounted(s'.uf)
    ensures ForestOk(s', n) && RootLabels(s', n)
  {
    assert Class(s.uf, cu) * Class(s.uf, cv) == {};
    forall r | 0 <= r < n && s'.uf.parent[r] == r
      ensures s'.labels[r] < |s'.sizes| && s'.sizes[s'.labels[r]] == |Class(s'.uf, r)|
    {
      if r != top {
        assert Root(s'.uf, r) == r;
        assert Root(s.uf, r) == r;
        assert Class(s'.uf, r) == Class(s.uf, r);
      }
    }
  }

  /** A merge keeps the tree half of the invariant. */
  lemma AbsorbStructure(s: Build, e: Edge, n: nat, m: Merge, s': Build)
    requires ForestOk(s, n) && RootLabels(s, n) && Structure(Output(s), n) && e.u < n && e.v < n
    requires m == MergeOf(s, e, n)
    requires s'.merges == s.merges + [m] && Appended(s'.sizes, s.sizes, m.leftSize + m.rightSize)
    requires s'.births == s.births + [Recip(e.w)]
    ensures Structure(Output(s'), n)
  {
    var cu, cv := Root(s.uf, e.u), Root(s.uf, e.v);
    assert s.labels[cu] < |s.sizes| && s.sizes[s.labels[cu]] == |Class(s.uf, cu)|;
    assert s.labels[cv] < |s.sizes| && s.sizes[s.labels[cv]] == |Class(s.uf, cv)|;
    StructureAppend(Output(s), n, m, s'.sizes);
  }

  lemma AbsorbMerge(s: Build, e: Edge, n: nat, m: Merge, s': Build)
    requires Inv(s, n) && e.u < n && e.v < n
    requires Valid(s'.uf) && |s'.uf.parent| == n && SizesCounted(s'.uf)
    requires Root(s.uf, e.u) != Root(s.uf, e.v)
    requires SetsJoined(s.uf, s'.uf, e.u, e.v)
    requires Class(s'.uf, Root(s'.uf, e.u)) == Class(s.uf, Root(s.uf, e.u)) + Class(s.uf, Root(s.uf, e.v))
    requires |Roots(s'.uf)| == |Roots(s.uf)| - 1
    requires s'.labels == s.labels[Root(s'.uf, e.u) := |s.sizes|]
    requires m == MergeOf(s, e, n)
    requires s'.merges == s.merges + [m] && Appended(s'.sizes, s.sizes, m.leftSize + m.rightSize)
    requires s'.births == s.births + [Recip(e.w)]
    ensures Inv(s', n)
  {
    var cu, cv := Root(s.uf, e.u), Root(s.uf, e.v);
    AbsorbStructure(s, e, n, m, s');
    RootLabelsAfterMerge(s, n, cu, cv, s', Root(s'.uf, e.u));
  }

  /** The weights of the edges, the sort key of `build_condensed_tree`. */
  function Weights(edges: seq<Edge>): (keys: seq<real>)
    ensures |keys| == |edges| && forall k :: 0 <= k < |edges| ==> keys[k] == edges[k].w
  {
    seq(|edges|, k requires 0 <= k < |edges| => edges[k].w)
  }

  /** `sorted(mst_edges, key=lambda x: x[2])`: the edges rearranged by a
      stable ascending sort on the weight. */
  function SortByWeight(edges: seq<Edge>): (sorted: seq<Edge>)
    ensures |sorted| == |edges| && multiset(sorted) == multiset(edges)
    ensures forall a, b :: 0 <= a < b < |sorted| ==> sorted[a].w <= sorted[b].w
    ensures forall k :: 0 <= k < |sorted| ==> sorted[k] in edges
    ensures exists p: seq<nat> :: SortedBy(Weights(edges), false, p) && multiset(p) == multiset(Iota(|edges|))
                        && sorted == Apply(edges, p)
  {
    var keys := Weights(edges);
    var p := SortIndices(keys, false);
    ApplyPermutation(edges, p);
    var sorted := Apply(edges, p);
    forall a, b | 0 <= a < b < |sorted|
      ensures sorted[a].w <= sorted[b].w
    {
      assert Precedes(keys, false, p[a], p[b]);
    }
    sorted
  }

  /** Both ends of every edge are among the n points. */
  predicate EndsBelow(es: seq<Edge>, n: nat)
  {
    forall k :: 0 <= k < |es| ==> es[k].u < n && es[k].v < n
  }

  /** The edges of a spanning tree grown from vertex 0: n - 1 edges, each
      adding a new vertex (`TreeOrder` has no repeats) to one already reached. */
  predicate Spanning(edges: seq<Edge>, n: nat)
  {
    && n >= 1 && |edges| == n - 1
    && Distinct(TreeOrder(edges))
    && EndsBelow(edges, n)
    && (forall k :: 0 <= k < |edges| ==> edges[k].u in TreeOrder(edges)[..k + 1])
  }

  /** What `minimum_spanning_tree_prim` returns is a spanning tree. */
  lemma PrimTreeSpanning(m: seq<seq<real>>, edges: seq<Edge>)
    requires IsSquare(m) && PrimTree(m, edges)
    ensures Spanning(edges, |m|)
  {
    var order := TreeOrder(edges);
    forall k | 0 <= k < |edges|
      ensures edges[k].u < |m| && edges[k].v < |m|
    {
      assert edges[k].v == order[k + 1];
    }
  }

  /** A forest in which the ends of every edge of a spanning tree share a root
      has a single set. */
  lemma SpanningJoined(f: Forest, edges: seq<Edge>, n: nat)
    requires Valid(f) && |f.parent| == n && Spanning(edges, n)
    requires forall k :: 0 <= k < |edges| ==> Root(f, edges[k].u) == Root(f, edges[k].v)
    ensures forall x :: 0 <= x < n ==> Root(f, x) == Root(f, 0)
  {
    var order := TreeOrder(edges);
    assert forall i :: 0 <= i < |order| ==> order[i] < n by {
      forall i | 0 <= i < |order| ensures order[i] < n {
        if i > 0 { assert order[i] == edges[i - 1].v; }
      }
    }
    ReachedFromZero(f, edges, n, |edges|);
    PigeonholeAll(order, n);
    Covered(f, order, n, Root(f, 0));
  }

  /** If a list covering all n elements has one root throughout, every element has that root. */
  lemma Covered(f: Forest, order: seq<nat>, n: nat, r: nat)
    requires Valid(f) && |f.parent| == n
    requires forall i :: 0 <= i < |order| ==> order[i] < n && Root(f, order[i]) == r
    requires forall x :: 0 <= x < n ==> x in order
    ensures forall x :: 0 <= x < n ==> Root(f, x) == r
  {
    forall x | 0 <= x < n ensures Root(f, x) == r {
      assert x in order;
      var i :| 0 <= i < |order| && order[i] == x;
    }
  }

  /** The first k + 1 vertices of the tree order all share vertex 0's root. */
  lemma {:induction false} ReachedFromZero(f: Forest, edges: seq<Edge>, n: nat, k: nat)
    requires Valid(f) && |f.parent| == n && Spanning(edges, n) && k <= |edges|
    requires forall j :: 0 <= j < |edges| ==> Root(f, edges[j].u) == Root(f, edges[j].v)
    ensures forall i :: 0 <= i <= k ==> TreeOrder(edges)[i] < n && Root(f, TreeOrder(edges)[i]) == Root(f, 0)
  {
    var order := TreeOrder(edges);
    if k > 0 {
      ReachedFromZero(f, edges, n, k - 1);
      var e := edges[k - 1];
      assert e.u in order[..k];
      var i :| 0 <= i < k && order[i] == e.u;
      assert order[k] == e.v;
    }
  }

  /** The processed edges have both ends in one set. */
  predicate JoinsPrefix(f: Forest, sorted: seq<Edge>, i: nat, n: nat)
    requires Valid(f) && |f.parent| == n && i <= |sorted|
    requires EndsBelow(sorted, n)
  {
    forall j :: 0 <= j < i ==> Root(f, sorted[j].u) == Root(f, sorted[j].v)
  }

  /** Every cluster born so far is born at a lambda no smaller than any edge still to come. */
  predicate BornAbove(births: seq<Float>, n: nat, sorted: seq<Edge>, i: nat)
  {
    forall b, j :: n <= b < |births| && i <= j < |sorted| ==> Le(Recip(sorted[j].w), births[b])
  }

  /** The id of the last merge stands for a current root. */
  predicate TopLabelled(s: Build, n: nat, top: nat)
    requires ForestOk(s, n)
  {
    |s.sizes| > n ==> top < n && Root(s.uf, top) == top && s.labels[top] == |s.sizes| - 1
  }

  /** A step appends at most the lambda of the edge it absorbs, which is no
      larger than any earlier birth and no smaller than any later edge's. */
  lemma StepBirths(births: seq<Float>, births': seq<Float>, n: nat, sorted: seq<Edge>, i: nat)
    requires forall a, b :: 0 <= a < b < |sorted| ==> sorted[a].w <= sorted[b].w
    requires i < |sorted| && BirthsNonIncreasing(births, n) && BornAbove(births, n, sorted, i)
    requires births' == births || births' == births + [Recip(sorted[i].w)]
    ensures BirthsNonIncreasing(births', n) && BornAbove(births', n, sorted, i + 1)
  {
    forall j | i + 1 <= j < |sorted|
      ensures Le(Recip(sorted[j].w), Recip(sorted[i].w))
    {
      RecipAntitone(sorted[i].w, sorted[j].w);
    }
  }

  /** A step keeps earlier edges joined and joins its own. */
  lemma StepJoins(f: Forest, f': Forest, sorted: seq<Edge>, i: nat, n: nat)
    requires EndsBelow(sorted, n)
    requires Valid(f) && |f.parent| == n && Valid(f') && |f'.parent| == n && i < |sorted|
    requires JoinsPrefix(f, sorted, i, n)
    requires SetsJoined(f, f', sorted[i].u, sorted[i].v)
    ensures JoinsPrefix(f', sorted, i + 1, n)
  {
    forall j | 0 <= j < i + 1
      ensures Root(f', sorted[j].u) == Root(f', sorted[j].v)
    {
      assert Root(f, sorted[j].u) == Root(f, sorted[j].v) || j == i;
    }
  }

  /** A step leaves the last id with a root standing for it. */
  lemma StepTop(s: Build, s': Build, e: Edge, n: nat, top: nat) returns (top': nat)
    requires ForestOk(s, n) && ForestOk(s', n) && e.u < n && e.v < n && TopLabelled(s, n, top)
    requires SetsJoined(s.uf, s'.uf, e.u, e.v)
    requires Root(s'.uf, e.u) == Root(s.uf, e.u) || Root(s'.uf, e.u) == Root(s.uf, e.v)
    requires Root(s.uf, e.u) == Root(s.uf, e.v) ==> s'.labels == s.labels && s'.sizes == s.sizes
    requires Root(s.uf, e.u) != Root(s.uf, e.v) ==>
      |s'.sizes| == |s.sizes| + 1 && s'.labels == s.labels[Root(s'.uf, e.u) := |s.sizes|]
    ensures TopLabelled(s', n, top')
  {
    if Root(s.uf, e.u) == Root(s.uf, e.v) {
      top' := top;
      if |s.sizes| > n {
        assert Root(s.uf, top) == top;
        assert Root(s'.uf, top) == top;
      }
    } else {
      top' := Root(s'.uf, e.u);
    }
  }

  /** Every merge absorbs two clusters that already exist. */
  predicate ChildrenOlder(ms: seq<Merge>, n: nat)
  {
    forall k :: 0 <= k < |ms| ==> ms[k].left < n + k && ms[k].right < n + k
  }

  /** The points below cluster `id` once the merges `ms` are done: a point is
      its own cluster, and cluster n + k holds the points of both clusters
      merge k absorbed. */
  function Under(ms: seq<Merge>, n: nat, id: nat): (ps: set<nat>)
    requires ChildrenOlder(ms, n)
    ensures forall p :: p in ps ==> p < n
    ensures id < n ==> ps == {id}
    decreases id
  {
    if id < n then {id}
    else if id < n + |ms| then Under(ms, n, ms[id - n].left) + Under(ms, n, ms[id - n].right)
    else {}
  }

  /** A later merge does not change the points below an earlier cluster. */
  lemma {:induction false} UnderPrefix(ms: seq<Merge>, m: Merge, n: nat, id: nat)
    requires ChildrenOlder(ms + [m], n) && id < n + |ms|
    ensures ChildrenOlder(ms, n) && Under(ms + [m], n, id) == Under(ms, n, id)
    decreases id
  {
    forall k | 0 <= k < |ms| ensures ms[k].left < n + k && ms[k].right < n + k {
      assert (ms + [m])[k] == ms[k];
    }
    if id >= n {
      var k := id - n;
      assert (ms + [m])[k] == ms[k];
      UnderPrefix(ms, m, n, ms[k].left);
      UnderPrefix(ms, m, n, ms[k].right);
    }
  }

  /** The cluster a merge creates holds the points of the two it absorbs. */
  lemma UnderNew(ms: seq<Merge>, m: Merge, n: nat)
    requires ChildrenOlder(ms + [m], n)
    ensures ChildrenOlder(ms, n) && m.left < n + |ms| && m.right < n + |ms|
    ensures Under(ms + [m], n, n + |ms|) == Under(ms, n, m.left) + Under(ms, n, m.right)
  {
    assert (ms + [m])[|ms|] == m;
    UnderPrefix(ms, m, n, m.left);
    UnderPrefix(ms, m, n, m.right);
  }

  /** No cluster is absorbed twice: the two children of a merge differ, and
      no two merges share a child. */
  predicate AbsorbedOnce(ms: seq<Merge>)
  {
    && (forall k :: 0 <= k < |ms| ==> ms[k].left != ms[k].right)
    && (forall a, b :: 0 <= a < b < |ms| ==>
          && ms[a].left != ms[b].left && ms[a].left != ms[b].right
          && ms[a].right != ms[b].left && ms[a].right != ms[b].right)
  }

  /** Merge k was made by the edge `sorted[src[k]]`: the merges follow the
      order of the edges, each is born at one over its edge's weight, and the
      edge's two ends lie in the two clusters it absorbs. */
  predicate MergedBy(ms: seq<Merge>, n: nat, sorted: seq<Edge>, src: seq<nat>)
    requires ChildrenOlder(ms, n)
  {
    && |src| == |ms|
    && (forall k :: 0 <= k < |src| ==> src[k] < |sorted|)
    && (forall a, b :: 0 <= a < b < |src| ==> src[a] < src[b])
    && (forall k :: 0 <= k < |src| ==>
          && ms[k].lambda == Recip(sorted[src[k]].w)
          && sorted[src[k]].u in Under(ms, n, ms[k].left)
          && sorted[src[k]].v in Under(ms, n, ms[k].right))
  }

  /** Each root's cluster holds exactly the root's set. */
  predicate RootPoints(s: Build, n: nat)
    requires ForestOk(s, n) && ChildrenOlder(s.merges, n)
  {
    forall r :: 0 <= r < n && s.uf.parent[r] == r ==>
      s.labels[r] < n + |s.merges| && Under(s.merges, n, s.labels[r]) == Class(s.uf, r)
  }

  /** No root's cluster has been absorbed yet. */
  predicate RootsOpen(s: Build, n: nat)
    requires ForestOk(s, n)
  {
    forall r, k :: 0 <= r < n && s.uf.parent[r] == r && 0 <= k < |s.merges| ==>
      s.labels[r] != s.merges[k].left && s.labels[r] != s.merges[k].right
  }

  /** What the loop has recorded after the first i sorted edges, `src` being
      the positions of the edges that merged. */
  predicate Traced(s: Build, n: nat, sorted: seq<Edge>, i: nat, src: seq<nat>)
    requires ForestOk(s, n) && ChildrenOlder(s.merges, n)
  {
    && RootPoints(s, n) && RootsOpen(s, n) && AbsorbedOnce(s.merges)
    && MergedBy(s.merges, n, sorted, src)
    && (forall k :: 0 <= k < |src| ==> src[k] < i)
  }

  /** Before the first edge every point is a root standing for itself. */
  lemma StartTraced(n: nat, sorted: seq<Edge>)
    ensures ChildrenOlder(Start(n).merges, n) && Traced(Start(n), n, sorted, 0, [])
  {
    var s := Start(n);
    forall r | 0 <= r < n && s.uf.parent[r] == r
      ensures s.labels[r] < n + |s.merges| && Under(s.merges, n, s.labels[r]) == Class(s.uf, r)
    {
      assert s.labels[r] == r;
      assert Class(s.uf, r) == {r};
    }
  }

  /** Joining the sets of x and y: the surviving root's set is the union of
      the two, and every other root keeps its set. */
  lemma JoinedClasses(f: Forest, g: Forest, x: nat, y: nat, n: nat)
    requires Valid(f) && Valid(g) && |f.parent| == n && |g.parent| == n && x < n && y < n
    requires SetsJoined(f, g, x, y) && Root(f, x) != Root(f, y)
    requires Root(g, x) == Root(f, x) || Root(g, x) == Root(f, y)
    ensures Class(g, Root(g, x)) == Class(f, Root(f, x)) + Class(f, Root(f, y))
    ensures forall r :: 0 <= r < n && g.parent[r] == r && r != Root(g, x) ==>
      f.parent[r] == r && r != Root(f, x) && r != Root(f, y) && Class(g, r) == Class(f, r)
  {
    var top := Root(g, x);
    forall r | 0 <= r < n && g.parent[r] == r && r != top
      ensures f.parent[r] == r && r != Root(f, x) && r != Root(f, y) && Class(g, r) == Class(f, r)
    {
      assert Root(g, r) == r;
      assert Root(f, r) == r;
      forall z | 0 <= z < n ensures Root(g, z) == r <==> Root(f, z) == r {
      }
    }
  }

  /** Absorbing an edge whose ends already share a root changes no root. */
  lemma SameRootsAfter(f: Forest, g: Forest, x: nat, y: nat, n: nat)
    requires Valid(f) && Valid(g) && |f.parent| == n && |g.parent| == n && x < n && y < n
    requires SetsJoined(f, g, x, y) && Root(f, x) == Root(f, y) && Root(g, x) == Root(f, x)
    ensures forall z :: 0 <= z < n ==> Root(g, z) == Root(f, z)
  {
  }

  /** An edge that merges nothing keeps the record. */
  lemma TraceSame(s: Build, s': Build, e: Edge, n: nat, sorted: seq<Edge>, i: nat, src: seq<nat>)
    requires ForestOk(s, n) && ForestOk(s', n) && ChildrenOlder(s.merges, n) && e.u < n && e.v < n
    requires SetsJoined(s.uf, s'.uf, e.u, e.v) && Root(s.uf, e.u) == Root(s.uf, e.v)
    requires Root(s'.uf, e.u) == Root(s.uf, e.u)
    requires s'.labels == s.labels && s'.merges == s.merges
    requires Traced(s, n, sorted, i, src)
    ensures Traced(s', n, sorted, i + 1, src)
  {
    SameRootsAfter(s.uf, s'.uf, e.u, e.v, n);
    SameRootsSameClasses(s.uf, s'.uf);
  }

  /** After a merge, every root's cluster still holds its set, and no root's
      cluster has been absorbed. */
  lemma TraceMergeRoots(s: Build, s': Build, e: Edge, n: nat)
    requires ForestOk(s, n) && ForestOk(s', n) && e.u < n && e.v < n
    requires ChildrenOlder(s'.merges, n) && ChildrenOlder(s.merges, n)
    requires SetsJoined(s.uf, s'.uf, e.u, e.v) && Root(s.uf, e.u) != Root(s.uf, e.v)
    requires Root(s'.uf, e.u) == Root(s.uf, e.u) || Root(s'.uf, e.u) == Root(s.uf, e.v)
    requires s'.merges == s.merges + [MergeOf(s, e, n)]
    requires |s.sizes| == n + |s.merges| && s'.labels == s.labels[Root(s'.uf, e.u) := |s.sizes|]
    requires RootPoints(s, n) && RootsOpen(s, n)
    ensures RootPoints(s', n) && RootsOpen(s', n)
  {
    var ms, m := s.merges, MergeOf(s, e, n);
    var cu, cv, top := Root(s.uf, e.u), Root(s.uf, e.v), Root(s'.uf, e.u);
    JoinedClasses(s.uf, s'.uf, e.u, e.v, n);
    UnderNew(ms, m, n);
    forall r | 0 <= r < n && s'.uf.parent[r] == r
      ensures s'.labels[r] < n + |s'.merges| && Under(s'.merges, n, s'.labels[r]) == Class(s'.uf, r)
    {
      if r != top {
        UnderPrefix(ms, m, n, s.labels[r]);
      }
    }
    forall r, k | 0 <= r < n && s'.uf.parent[r] == r && 0 <= k < |s'.merges|
      ensures s'.labels[r] != s'.merges[k].left && s'.labels[r] != s'.merges[k].right
    {
      if r != top && k == |ms| {
        assert r in Class(s.uf, r) && r !in Class(s.uf, cu) && r !in Class(s.uf, cv);
      }
    }
  }

  /** A merge of two open clusters keeps every cluster absorbed at most once. */
  lemma TraceMergeOnce(s: Build, e: Edge, n: nat)
    requires ForestOk(s, n) && ChildrenOlder(s.merges, n) && e.u < n && e.v < n
    requires Root(s.uf, e.u) != Root(s.uf, e.v)
    requires RootPoints(s, n) && RootsOpen(s, n) && AbsorbedOnce(s.merges)
    ensures AbsorbedOnce(s.merges + [MergeOf(s, e, n)])
  {
    var cu, cv := Root(s.uf, e.u), Root(s.uf, e.v);
    assert cu in Class(s.uf, cu) && cu !in Class(s.uf, cv);
    var ms := s.merges + [MergeOf(s, e, n)];
    forall a, b | 0 <= a < b < |ms|
      ensures ms[a].left != ms[b].left && ms[a].left != ms[b].right
      ensures ms[a].right != ms[b].left && ms[a].right != ms[b].right
    {
      assert ms[a] == s.merges[a];
    }
  }

  /** A merge by the i-th sorted edge, with its ends in the two clusters the
      merge absorbs, extends the record of merging edges by i. */
  lemma TraceMergeBy(ms: seq<Merge>, m: Merge, n: nat, sorted: seq<Edge>, i: nat, src: seq<nat>)
    requires ChildrenOlder(ms + [m], n) && ChildrenOlder(ms, n) && i < |sorted|
    requires m.lambda == Recip(sorted[i].w)
    requires m.left < n + |ms| && sorted[i].u in Under(ms, n, m.left)
    requires m.right < n + |ms| && sorted[i].v in Under(ms, n, m.right)
    requires MergedBy(ms, n, sorted, src) && forall k :: 0 <= k < |src| ==> src[k] < i
    ensures MergedBy(ms + [m], n, sorted, src + [i])
  {
    var ms', src' := ms + [m], src + [i];
    UnderPrefix(ms, m, n, m.left);
    UnderPrefix(ms, m, n, m.right);
    forall k | 0 <= k < |src'|
      ensures src'[k] < |sorted| && ms'[k].lambda == Recip(sorted[src'[k]].w)
      ensures sorted[src'[k]].u in Under(ms', n, ms'[k].left) && sorted[src'[k]].v in Under(ms', n, ms'[k].right)
    {
      if k < |ms| {
        assert ms'[k] == ms[k] && src'[k] == src[k];
        UnderPrefix(ms, m, n, ms[k].left);
        UnderPrefix(ms, m, n, ms[k].right);
      } else {
        assert ms'[k] == m && src'[k] == i;
      }
    }
  }

  /** A merging edge keeps the record, adding its position i. */
  lemma TraceMerge(s: Build, s': Build, n: nat, sorted: seq<Edge>, i: nat, src: seq<nat>)
    requires ForestOk(s, n) && ForestOk(s', n) && i < |sorted| && sorted[i].u < n && sorted[i].v < n
    requires ChildrenOlder(s.merges, n) && ChildrenOlder(s'.merges, n) && |s.sizes| == n + |s.merges|
    requires SetsJoined(s.uf, s'.uf, sorted[i].u, sorted[i].v)
    requires Root(s'.uf, sorted[i].u) == Root(s.uf, sorted[i].u) || Root(s'.uf, sorted[i].u) == Root(s.uf, sorted[i].v)
    requires Root(s.uf, sorted[i].u) != Root(s.uf, sorted[i].v)
    requires s'.merges == s.merges + [MergeOf(s, sorted[i], n)]
    requires s'.labels == s.labels[Root(s'.uf, sorted[i].u) := |s.sizes|]
    requires Traced(s, n, sorted, i, src)
    ensures Traced(s', n, sorted, i + 1, src + [i])
  {
    var e := sorted[i];
    TraceMergeRoots(s, s', e, n);
    TraceMergeOnce(s, e, n);
    assert e.u in Class(s.uf, Root(s.uf, e.u)) && e.v in Class(s.uf, Root(s.uf, e.v));
    TraceMergeBy(s.merges, MergeOf(s, e, n), n, sorted, i, src);
  }

  /** The loop invariant of `build_condensed_tree` after the first i sorted
      edges, with `top` the root standing for the last id and `src` the
      positions of the edges that merged. */
  predicate Loop(s: Build, n: nat, sorted: seq<Edge>, i: nat, top: nat, src: seq<nat>)
  {
    && i <= |sorted| && EndsBelow(sorted, n)
    && Inv(s, n) && Ordered(s, n, sorted, i, top)
    && ChildrenOlder(s.merges, n) && Traced(s, n, sorted, i, src)
  }

  /** The births so far fall, lie above the edges to come, the processed
      edges are joined, and `top` stands for the last id. */
  predicate Ordered(s: Build, n: nat, sorted: seq<Edge>, i: nat, top: nat)
    requires ForestOk(s, n) && i <= |sorted|
    requires EndsBelow(sorted, n)
  {
    && BirthsNonIncreasing(s.births, n) && BornAbove(s.births, n, sorted, i)
    && JoinsPrefix(s.uf, sorted, i, n) && TopLabelled(s, n, top)
  }

  lemma LoopStart(n: nat, sorted: seq<Edge>)
    requires EndsBelow(sorted, n)
    ensures Loop(Start(n), n, sorted, 0, 0, [])
  {
    StartTraced(n, sorted);
  }

  /** Absorbing the i-th sorted edge keeps the loop invariant. */
  lemma LoopStep(s: Build, n: nat, sorted: seq<Edge>, i: nat, top: nat, src: seq<nat>) returns (top': nat, src': seq<nat>)
    requires forall a, b :: 0 <= a < b < |sorted| ==> sorted[a].w <= sorted[b].w
    requires i < |sorted| && Loop(s, n, sorted, i, top, src)
    ensures Loop(Absorb(s, sorted[i], n), n, sorted, i + 1, top', src')
  {
    top' := StepOrdered(s, n, sorted, i, top);
    src' := StepTraced(s, n, sorted, i, src);
  }

  lemma StepOrdered(s: Build, n: nat, sorted: seq<Edge>, i: nat, top: nat) returns (top': nat)
    requires forall a, b :: 0 <= a < b < |sorted| ==> sorted[a].w <= sorted[b].w
    requires EndsBelow(sorted, n)
    requires i < |sorted| && Inv(s, n) && Ordered(s, n, sorted, i, top)
    ensures Ordered(Absorb(s, sorted[i], n), n, sorted, i + 1, top')
  {
    var e := sorted[i];
    var s' := Absorb(s, e, n);
    StepBirths(s.births, s'.births, n, sorted, i);
    StepJoins(s.uf, s'.uf, sorted, i, n);
    top' := StepTop(s, s', e, n, top);
  }

  lemma StepTraced(s: Build, n: nat, sorted: seq<Edge>, i: nat, src: seq<nat>) returns (src': seq<nat>)
    requires EndsBelow(sorted, n)
    requires i < |sorted| && Inv(s, n) && ChildrenOlder(s.merges, n) && Traced(s, n, sorted, i, src)
    ensures ChildrenOlder(Absorb(s, sorted[i], n).merges, n) && Traced(Absorb(s, sorted[i], n), n, sorted, i + 1, src')
  {
    var e := sorted[i];
    var s' := Absorb(s, e, n);
    if Root(s.uf, e.u) == Root(s.uf, e.v) {
      src' := src;
      TraceSame(s, s', e, n, sorted, i, src);
    } else {
      src' := src + [i];
      TraceMerge(s, s', n, sorted, i, src);
    }
  }

  /** The state after absorbing the edges `es` one by one, starting from `s`. */
  function Fold(s: Build, es: seq<Edge>, n: nat): (r: Build)
    requires Inv(s, n) && EndsBelow(es, n)
    ensures Inv(r, n)
    decreases |es|
  {
    if |es| == 0 then s
    else
      EndsBelowTail(es, n);
      Fold(Absorb(s, es[0], n), es[1..], n)
  }

  lemma EndsBelowMembers(edges: seq<Edge>, sorted: seq<Edge>, n: nat)
    requires EndsBelow(edges, n) && forall k :: 0 <= k < |sorted| ==> sorted[k] in edges
    ensures EndsBelow(sorted, n)
  {
  }

  lemma EndsBelowTail(es: seq<Edge>, n: nat)
    requires EndsBelow(es, n) && |es| > 0
    ensures es[0].u < n && es[0].v < n && EndsBelow(es[1..], n)
  {
    assert forall k :: 0 <= k < |es| - 1 ==> es[1..][k] == es[k + 1];
  }

  /** Positions rising strictly through 0 .. m-1, m of them, are 0 .. m-1. */
  lemma {:induction false} RisingFull(src: seq<nat>, m: nat)
    requires |src| == m && forall k :: 0 <= k < |src| ==> src[k] < m
    requires forall a, b :: 0 <= a < b < |src| ==> src[a] < src[b]
    ensures src == Iota(m)
  {
    forall k | 0 <= k < m ensures src[k] == k {
      RisingBounds(src, m, k);
    }
  }

  lemma {:induction false} RisingBounds(src: seq<nat>, m: nat, k: nat)
    requires |src| == m && forall j :: 0 <= j < |src| ==> src[j] < m
    requires forall a, b :: 0 <= a < b < |src| ==> src[a] < src[b]
    requires k < m
    ensures k <= src[k] && src[k] <= k
    decreases m - k
  {
    if k + 1 < m {
      RisingBounds(src, m, k + 1);
    }
    RisingBelow(src, k);
  }

  lemma {:induction false} RisingBelow(src: seq<nat>, k: nat)
    requires k < |src| && forall a, b :: 0 <= a < b < |src| ==> src[a] < src[b]
    ensures k <= src[k]
  {
    if k > 0 {
      RisingBelow(src, k - 1);
    }
  }

  /** A tree over all n points: n - 1 merges, the last of which holds all n points. */
  predicate Complete(c: Condensed, n: nat)
  {
    |c.merges| == n - 1 && |c.sizes| >= 1 && c.sizes[|c.sizes| - 1] == n
  }

  /** `build_condensed_tree`: merge the edges in ascending weight order. The
      tree is what absorbing the sorted edges one by one yields; each merge
      is made by one sorted edge (in order, at one over its weight, with its
      ends in the two absorbed clusters), and no cluster is absorbed twice.
      For a spanning tree, merge k is made by the k-th sorted edge. */
  method BuildCondensedTree(edges: seq<Edge>, n: nat) returns (c: Condensed)
    requires EndsBelow(edges, n)
    ensures c == Output(Fold(Start(n), SortByWeight(edges), n))
    ensures WellFormed(c, n)
    ensures n >= 1 ==> |c.merges| <= n - 1
    ensures ChildrenOlder(c.merges, n) && AbsorbedOnce(c.merges)
    ensures exists src :: MergedBy(c.merges, n, SortByWeight(edges), src)
    ensures Spanning(edges, n) ==> Complete(c, n) && MergedBy(c.merges, n, SortByWeight(edges), Iota(n - 1))
  {
    var sorted := SortByWeight(edges);
    EndsBelowMembers(edges, sorted, n);
    var s := AbsorbAll(sorted, n);
    ghost var top, src := Traversed(n, sorted, s);
    c := Output(s);
    Finish(s, sorted, n, top, src);
    if Spanning(edges, n) {
      FinishSpanning(s, edges, sorted, n, top, src);
    }
  }

  /** The loop invariant holds once all sorted edges are absorbed. */
  lemma Traversed(n: nat, sorted: seq<Edge>, last: Build) returns (top: nat, src: seq<nat>)
    requires forall a, b :: 0 <= a < b < |sorted| ==> sorted[a].w <= sorted[b].w
    requires EndsBelow(sorted, n) && last == Fold(Start(n), sorted, n)
    ensures Loop(last, n, sorted, |sorted|, top, src)
  {
    LoopStart(n, sorted);
    assert sorted[0..] == sorted;
    top, src := FoldLoop(Start(n), last, n, sorted, 0, 0, []);
  }

  /** The loop of `build_condensed_tree` over the sorted edges, one `Absorb`
      per edge. */
  method AbsorbAll(sorted: seq<Edge>, n: nat) returns (s: Build)
    requires EndsBelow(sorted, n)
    ensures s == Fold(Start(n), sorted, n)
  {
    s := Start(n);
    var i := 0;
    while i < |sorted|
      invariant 0 <= i <= |sorted| && Inv(s, n)
      invariant Fold(s, sorted[i..], n) == Fold(Start(n), sorted, n)
    {
      assert sorted[i..][1..] == sorted[i + 1..];
      s := Absorb(s, sorted[i], n);
      i := i + 1;
    }
  }

  /** The loop invariant, holding after the first i sorted edges, still holds
      once the rest are absorbed. */
  lemma {:induction false} FoldLoop(s: Build, last: Build, n: nat, sorted: seq<Edge>, i: nat, top: nat, src: seq<nat>)
    returns (top': nat, src': seq<nat>)
    requires forall a, b :: 0 <= a < b < |sorted| ==> sorted[a].w <= sorted[b].w
    requires Loop(s, n, sorted, i, top, src) && last == Fold(s, sorted[i..], n)
    ensures Loop(last, n, sorted, |sorted|, top', src')
    decreases |sorted| - i
  {
    if i == |sorted| {
      top', src' := top, src;
    } else {
      var t, r := LoopStep(s, n, sorted, i, top, src);
      assert sorted[i..][1..] == sorted[i + 1..];
      top', src' := FoldLoop(Absorb(s, sorted[i], n), last, n, sorted, i + 1, t, r);
    }
  }

  /** What the finished loop delivers. */
  lemma Finish(s: Build, sorted: seq<Edge>, n: nat, top: nat, src: seq<nat>)
    requires Loop(s, n, sorted, |sorted|, top, src)
    ensures WellFormed(Output(s), n)
    ensures n >= 1 ==> |s.merges| <= n - 1
    ensures ChildrenOlder(s.merges, n) && AbsorbedOnce(s.merges)
    ensures exists src' :: MergedBy(s.merges, n, sorted, src')
  {
    assert MergedBy(s.merges, n, sorted, src);
    if n >= 1 {
      assert Root(s.uf, 0) in Roots(s.uf);
    }
  }

  /** What the finished loop delivers on a spanning tree: one set of all n
      points, and every edge merged, in order. */
  lemma FinishSpanning(s: Build, edges: seq<Edge>, sorted: seq<Edge>, n: nat, top: nat, src: seq<nat>)
    requires multiset(sorted) == multiset(edges) && |sorted| == |edges| && Spanning(edges, n)
    requires Loop(s, n, sorted, |sorted|, top, src)
    ensures Complete(Output(s), n) && MergedBy(s.merges, n, sorted, Iota(n - 1))
  {
    forall k | 0 <= k < |edges|
      ensures Root(s.uf, edges[k].u) == Root(s.uf, edges[k].v)
    {
      assert edges[k] in multiset(sorted);
      var j :| 0 <= j < |sorted| && sorted[j] == edges[k];
    }
    SpanningJoined(s.uf, edges, n);
    OneSet(s, n, top);
    RisingFull(src, n - 1);
  }

  /** A forest in which every element has root r consists of the one set of all elements. */
  lemma SingleClass(f: Forest, n: nat, r: nat)
    requires Valid(f) && |f.parent| == n && 0 < n
    requires forall x :: 0 <= x < n ==> Root(f, x) == r
    ensures Roots(f) == {r} && |Class(f, r)| == n
  {
    assert Root(f, 0) == r;
    forall x | x in Roots(f) ensures x == r {
      assert Root(f, x) == x;
    }
    assert Class(f, r) == Below(n);
    BelowCard(n);
  }

  /** When every element has vertex 0's root, one set of all n elements remains
      and the last id counts all of them. */
  lemma OneSet(s: Build, n: nat, top: nat)
    requires Inv(s, n) && TopLabelled(s, n, top) && n >= 1
    requires forall x :: 0 <= x < n ==> Root(s.uf, x) == Root(s.uf, 0)
    ensures Complete(Output(s), n)
  {
    var r := Root(s.uf, 0);
    SingleClass(s.uf, n, r);
    assert |s.merges| == n - 1;
    if |s.sizes| > n {
      assert s.uf.parent[top] == top;
      assert s.sizes[s.labels[top]] == |Class(s.uf, top)|;
    } else {
      assert s.sizes[0] == 1;
    }
  }
}
