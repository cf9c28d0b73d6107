/** `UnionFind`: a disjoint-set forest with path compression (`find`), union by
    rank (`union`) and a size counter kept at each root (`get_size`). The
    object's three arrays become a `Forest` value, and each operation returns
    the updated forest along with its result. */
module UnionFind {
  import opened Sorting
  import opened Finite
  import Labels

  datatype Forest = Forest(parent: seq<nat>, rank: seq<nat>, size: seq<nat>)

  /** Three arrays of one length, parents in range, and ranks strictly rising
      towards the roots. Rising ranks are what make `find` terminate. */
  predicate Valid(f: Forest)
  {
    && |f.rank| == |f.parent| && |f.size| == |f.parent|
    && (forall i :: 0 <= i < |f.parent| ==> f.parent[i] < |f.parent|)
    && (forall i :: 0 <= i < |f.parent| && f.parent[i] != i ==> f.rank[i] < f.rank[f.parent[i]])
  }

  /** An upper bound on every rank: the distance to it measures how far a node is from its root. */
  function MaxRank(rank: seq<nat>): (m: nat)
    ensures forall i :: 0 <= i < |rank| ==> rank[i] <= m
  {
    if |rank| == 0 then 0 else Labels.Max(rank)
  }

  /** The root that following `parent` from `x` reaches. */
  function Root(f: Forest, x: nat): (r: nat)
    requires Valid(f) && x < |f.parent|
    ensures r < |f.parent| && f.parent[r] == r
    ensures f.parent[x] == x ==> r == x
    ensures f.parent[x] != x ==> f.rank[x] < f.rank[r]
    decreases MaxRank(f.rank) - f.rank[x]
  {
    if f.parent[x] == x then x else Root(f, f.parent[x])
  }

  /** The elements whose root is `r`. */
  function Class(f: Forest, r: nat): set<nat>
    requires Valid(f)
  {
    set z: nat | z < |f.parent| && Root(f, z) == r
  }

  /** The roots of the forest: one per disjoint set. */
  function Roots(f: Forest): set<nat>
  {
    set r: nat | r < |f.parent| && f.parent[r] == r
  }

  /** Every root's `size` counts the elements of its set. */
  predicate SizesCounted(f: Forest)
    requires Valid(f)
  {
    forall r :: 0 <= r < |f.parent| && f.parent[r] == r ==> f.size[r] == |Class(f, r)|
  }

  /** `g` has the sets of `x` and `y` joined into one, rooted at `x`'s new
      root; every other element keeps its root. */
  predicate SetsJoined(f: Forest, g: Forest, x: nat, y: nat)
    requires Valid(f) && Valid(g) && |g.parent| == |f.parent| && x < |f.parent| && y < |f.parent|
  {
    forall z :: 0 <= z < |f.parent| ==>
      Root(g, z) == if Root(f, z) == Root(f, x) || Root(f, z) == Root(f, y) then Root(g, x) else Root(f, z)
  }

  /** Path compression before a join keeps the join. */
  lemma SetsJoinedFrom(f: Forest, g: Forest, h: Forest, x: nat, y: nat)
    requires Valid(f) && Valid(g) && Valid(h) && |g.parent| == |f.parent| && |h.parent| == |f.parent|
    requires x < |f.parent| && y < |f.parent| && SetsJoined(g, h, x, y)
    requires forall z :: 0 <= z < |f.parent| ==> Root(g, z) == Root(f, z)
    ensures SetsJoined(f, h, x, y)
  {
  }

  /** Path compression after a join keeps the join. */
  lemma SetsJoinedCompress(f: Forest, g: Forest, h: Forest, x: nat, y: nat)
    requires Valid(f) && Valid(g) && Valid(h) && |g.parent| == |f.parent| && |h.parent| == |f.parent|
    requires x < |f.parent| && y < |f.parent| && SetsJoined(f, g, x, y)
    requires forall z :: 0 <= z < |f.parent| ==> Root(h, z) == Root(g, z)
    ensures SetsJoined(f, h, x, y)
  {
  }

  /** `UnionFind(n)`: every element its own root, with rank 0 and size 1. */
  function Init(n: nat): (f: Forest)
    ensures Valid(f) && |f.parent| == n && SizesCounted(f)
    ensures forall x :: 0 <= x < n ==> Root(f, x) == x
    ensures Roots(f) == Below(n) && |Roots(f)| == n
  {
    var f := Forest(Iota(n), seq(n, i => 0), seq(n, i => 1));
    InitCounted(f);
    assert Roots(f) == Below(n);
    BelowCard(n);
    f
  }

  /** A forest of singletons, each of size 1, counts its sets. */
  lemma InitCounted(f: Forest)
    requires |f.rank| == |f.parent| && |f.size| == |f.parent|
    requires forall i :: 0 <= i < |f.parent| ==> f.parent[i] == i && f.size[i] == 1
    ensures Valid(f) && SizesCounted(f)
  {
    forall r | 0 <= r < |f.parent|
      ensures f.size[r] == |Class(f, r)|
    {
      assert Class(f, r) == {r};
    }
  }

  /** Pointing `x` straight at its root changes no element's root. */
  lemma {:induction false} RedirectRoots(f: Forest, x: nat, y: nat)
    requires Valid(f) && x < |f.parent| && y < |f.parent|
    ensures Valid(f.(parent := f.parent[x := Root(f, x)]))
    ensures Root(f.(parent := f.parent[x := Root(f, x)]), y) == Root(f, y)
    decreases MaxRank(f.rank) - f.rank[y]
  {
    var g := f.(parent := f.parent[x := Root(f, x)]);
    assert Valid(g);
    if y != x && f.parent[y] != y {
      RedirectRoots(f, x, f.parent[y]);
    }
  }

  /** Pointing `x` straight at its root changes no root at all. */
  lemma RedirectAll(f: Forest, x: nat)
    requires Valid(f) && x < |f.parent|
    ensures Valid(f.(parent := f.parent[x := Root(f, x)]))
    ensures forall y :: 0 <= y < |f.parent| ==> Root(f.(parent := f.parent[x := Root(f, x)]), y) == Root(f, y)
  {
    RedirectRoots(f, x, x);
    forall y | 0 <= y < |f.parent|
      ensures Root(f.(parent := f.parent[x := Root(f, x)]), y) == Root(f, y)
    {
      RedirectRoots(f, x, y);
    }
  }

  /** Two forests over the same elements with the same root everywhere have the same sets. */
  lemma SameRootsSameClasses(f: Forest, g: Forest)
    requires Valid(f) && Valid(g) && |g.parent| == |f.parent|
    requires forall y :: 0 <= y < |f.parent| ==> Root(g, y) == Root(f, y)
    ensures forall r :: Class(g, r) == Class(f, r)
    ensures forall r :: 0 <= r < |f.parent| ==> (g.parent[r] == r <==> f.parent[r] == r)
    ensures Roots(g) == Roots(f)
    ensures g.size == f.size && SizesCounted(f) ==> SizesCounted(g)
  {
    forall r: nat | r < |f.parent|
      ensures g.parent[r] == r <==> f.parent[r] == r
    {
      assert Root(g, r) == Root(f, r);
    }
  }

  /** `find(x)`: the root of `x`, with every node on the path re-pointed at it.
      No element changes its root, so no set changes. */
  function Find(f: Forest, x: nat): (res: (nat, Forest))
    requires Valid(f) && x < |f.parent|
    ensures res.0 == Root(f, x)
    ensures Valid(res.1) && |res.1.parent| == |f.parent|
    ensures res.1.rank == f.rank && res.1.size == f.size
    ensures forall y :: 0 <= y < |f.parent| ==> Root(res.1, y) == Root(f, y)
    ensures res.1.parent[x] == res.0
    decreases MaxRank(f.rank) - f.rank[x]
  {
    if f.parent[x] == x then (x, f)
    else
      var (r, g) := Find(f, f.parent[x]);
      RedirectAll(g, x);
      (r, g.(parent := g.parent[x := r]))
  }

  /** Hanging root `b` under root `a` (raising `a`'s rank on a tie) sends
      every element of `b`'s set to `a` and leaves every other root alone. */
  lemma {:induction false} LinkRoots(f: Forest, a: nat, b: nat, z: nat)
    requires Valid(f) && a < |f.parent| && b < |f.parent| && z < |f.parent|
    requires a != b && f.parent[a] == a && f.parent[b] == b && f.rank[b] <= f.rank[a]
    ensures Valid(Link(f, a, b))
    ensures Root(Link(f, a, b), z) == if Root(f, z) == b then a else Root(f, z)
    decreases MaxRank(f.rank) - f.rank[z]
  {
    var g := Link(f, a, b);
    assert Valid(g);
    if f.parent[z] != z {
      LinkRoots(f, a, b, f.parent[z]);
    }
  }

  /** The update `union` makes once it has two distinct roots. */
  function Link(f: Forest, a: nat, b: nat): Forest
    requires a < |f.parent| && b < |f.parent| && |f.rank| == |f.parent| && |f.size| == |f.parent|
  {
    Forest(f.parent[b := a],
           if f.rank[a] == f.rank[b] then f.rank[a := f.rank[a] + 1] else f.rank,
           f.size[a := f.size[a] + f.size[b]])
  }

  /** A link's effect on every element's root at once. */
  lemma LinkRootsAll(f: Forest, a: nat, b: nat)
    requires Valid(f) && a < |f.parent| && b < |f.parent|
    requires a != b && f.parent[a] == a && f.parent[b] == b && f.rank[b] <= f.rank[a]
    ensures Valid(Link(f, a, b))
    ensures forall z :: 0 <= z < |f.parent| ==> Root(Link(f, a, b), z) == if Root(f, z) == b then a else Root(f, z)
  {
    LinkRoots(f, a, b, a);
    forall z | 0 <= z < |f.parent|
      ensures Root(Link(f, a, b), z) == if Root(f, z) == b then a else Root(f, z)
    {
      LinkRoots(f, a, b, z);
    }
  }

  /** After a link the set of `a` is the union of the two old sets, every other
      set is kept, `b` stops being a root and the sizes still count the sets. */
  lemma LinkClasses(f: Forest, a: nat, b: nat)
    requires Valid(f) && a < |f.parent| && b < |f.parent|
    requires a != b && f.parent[a] == a && f.parent[b] == b && f.rank[b] <= f.rank[a]
    ensures Valid(Link(f, a, b))
    ensures Class(Link(f, a, b), a) == Class(f, a) + Class(f, b)
    ensures Roots(Link(f, a, b)) == Roots(f) - {b}
    ensures SizesCounted(f) ==> SizesCounted(Link(f, a, b))
  {
    LinkRootsAll(f, a, b);
    LinkUnion(f, a, b);
    LinkRootSet(f, a, b);
    if SizesCounted(f) {
      LinkSizes(f, a, b);
    }
  }

  lemma LinkRootSet(f: Forest, a: nat, b: nat)
    requires a < |f.parent| && b < |f.parent| && |f.rank| == |f.parent| && |f.size| == |f.parent|
    requires a != b && f.parent[a] == a && f.parent[b] == b
    ensures Roots(Link(f, a, b)) == Roots(f) - {b}
  {
  }

  lemma LinkUnion(f: Forest, a: nat, b: nat)
    requires Valid(f) && a < |f.parent| && b < |f.parent|
    requires a != b && f.parent[a] == a && f.parent[b] == b && f.rank[b] <= f.rank[a]
    requires Valid(Link(f, a, b))
    requires forall z :: 0 <= z < |f.parent| ==> Root(Link(f, a, b), z) == if Root(f, z) == b then a else Root(f, z)
    ensures Class(Link(f, a, b), a) == Class(f, a) + Class(f, b)
  {
  }

  lemma LinkSizes(f: Forest, a: nat, b: nat)
    requires Valid(f) && a < |f.parent| && b < |f.parent| && SizesCounted(f)
    requires a != b && f.parent[a] == a && f.parent[b] == b && f.rank[b] <= f.rank[a]
    requires Valid(Link(f, a, b))
    requires forall z :: 0 <= z < |f.parent| ==> Root(Link(f, a, b), z) == if Root(f, z) == b then a else Root(f, z)
    requires Class(Link(f, a, b), a) == Class(f, a) + Class(f, b)
    ensures SizesCounted(Link(f, a, b))
  {
    var g := Link(f, a, b);
    assert Class(f, a) * Class(f, b) == {};
    forall r | 0 <= r < |g.parent| && g.parent[r] == r
      ensures g.size[r] == |Class(g, r)|
    {
      if r != a {
        assert Class(g, r) == Class(f, r);
      }
    }
  }

  /** The linking half of `union` on two distinct roots: the lower-ranked one
      (`py` on a tie) is hung under the other. */
  function Merge(f: Forest, px: nat, py: nat): (g: Forest)
    requires Valid(f) && px < |f.parent| && py < |f.parent|
    requires px != py && f.parent[px] == px && f.parent[py] == py
    ensures Valid(g) && |g.parent| == |f.parent|
    ensures Root(g, px) == Root(g, py)
    ensures Root(g, px) == if f.rank[px] < f.rank[py] then py else px
    ensures forall z :: 0 <= z < |f.parent| ==>
      Root(g, z) == if Root(f, z) == px || Root(f, z) == py then Root(g, px) else Root(f, z)
    ensures Class(g, Root(g, px)) == Class(f, px) + Class(f, py)
    ensures g.size[Root(g, px)] == f.size[px] + f.size[py]
    ensures Roots(g) == Roots(f) - {if Root(g, px) == px then py else px}
    ensures SizesCounted(f) ==> SizesCounted(g)
  {
    var (a, b) := if f.rank[px] < f.rank[py] then (py, px) else (px, py);
    LinkClasses(f, a, b);
    LinkRootsAll(f, a, b);
    Link(f, a, b)
  }

  /** `union(x, y)`: finds both roots; reports False when they agree, and
      otherwise merges the two sets, adding their sizes at the surviving root.
      Every other set is left as it was. */
  function Union(f: Forest, x: nat, y: nat): (res: (bool, Forest))
    requires Valid(f) && x < |f.parent| && y < |f.parent|
    ensures res.0 <==> Root(f, x) != Root(f, y)
    ensures Valid(res.1) && |res.1.parent| == |f.parent|
    ensures Root(res.1, x) == Root(res.1, y)
    ensures Root(res.1, x) == Root(f, x) || Root(res.1, x) == Root(f, y)
    ensures res.0 ==> res.1.size[Root(res.1, x)] == f.size[Root(f, x)] + f.size[Root(f, y)]
    ensures SizesCounted(f) ==> SizesCounted(res.1)
  {
    var (px, f1) := Find(f, x);
    var (py, f2) := Find(f1, y);
    SameRootsSameClasses(f, f1);
    SameRootsSameClasses(f1, f2);
    if px == py then (false, f2)
    else
      var g := Merge(f2, px, py);
      assert Root(g, x) == Root(g, px);
      (true, g)
  }

  /** The sets after `union(x, y)`: the sets of `x` and `y` become one, every
      other set is kept, and the root count drops by one exactly when `union`
      reports a merge. */
  lemma UnionSets(f: Forest, x: nat, y: nat)
    requires Valid(f) && x < |f.parent| && y < |f.parent|
    ensures var (merged, g) := Union(f, x, y);
      && SetsJoined(f, g, x, y)
      && (merged ==> Class(g, Root(g, x)) == Class(f, Root(f, x)) + Class(f, Root(f, y)))
      && (merged ==> Roots(g) == Roots(f) - {if Root(g, x) == Root(f, x) then Root(f, y) else Root(f, x)})
      && (!merged ==> Roots(g) == Roots(f))
  {
    var (px, f1) := Find(f, x);
    var (py, f2) := Find(f1, y);
    SameRootsSameClasses(f, f1);
    SameRootsSameClasses(f1, f2);
    if px != py {
      var g := Merge(f2, px, py);
      assert Root(g, x) == Root(g, px);
    }
  }

  /** `get_size(x)`: the size stored at `x`'s root, which counts `x`'s set. */
  function GetSize(f: Forest, x: nat): (res: (nat, Forest))
    requires Valid(f) && x < |f.parent|
    ensures Valid(res.1) && |res.1.parent| == |f.parent|
    ensures forall y :: 0 <= y < |f.parent| ==> Root(res.1, y) == Root(f, y)
    ensures res.1.size == f.size && Roots(res.1) == Roots(f)
    ensures SizesCounted(f) ==> SizesCounted(res.1) && res.0 == |Class(f, Root(f, x))|
  {
    var (r, g) := Find(f, x);
    SameRootsSameClasses(f, g);
    (g.size[r], g)
  }

  /** Each successful union removes exactly one root. */
  lemma UnionRootCount(f: Forest, x: nat, y: nat)
    requires Valid(f) && x < |f.parent| && y < |f.parent|
    ensures |Roots(Union(f, x, y).1)| == if Union(f, x, y).0 then |Roots(f)| - 1 else |Roots(f)|
  {
    var (merged, g) := Union(f, x, y);
    UnionSets(f, x, y);
    if merged {
      var gone := if Root(g, x) == Root(f, x) then Root(f, y) else Root(f, x);
      assert gone in Roots(f);
      RemoveCard(Roots(f), gone);
    }
  }
}
