/** The `[x, y, diff]` records the plot and statistics scripts build from
    each (X, Y) pair, and the sorts applied to lists of them. */
module Entries {
  import opened Sorting

  /** A record `[x, y, y - x]`. */
  datatype Entry = Entry(x: real, y: real, diff: real)

  function MakeEntry(x: real, y: real): (e: Entry)
    ensures e.x == x && e.y == y && e.x + e.diff == e.y
  {
    Entry(x, y, y - x)
  }

  /** `[p[0] for p in es]`. */
  function Xs(es: seq<Entry>): (r: seq<real>)
    ensures |r| == |es| && forall i :: 0 <= i < |es| ==> r[i] == es[i].x
  {
    seq(|es|, i requires 0 <= i < |es| => es[i].x)
  }

  /** `[p[1] for p in es]`. */
  function Ys(es: seq<Entry>): (r: seq<real>)
    ensures |r| == |es| && forall i :: 0 <= i < |es| ==> r[i] == es[i].y
  {
    seq(|es|, i requires 0 <= i < |es| => es[i].y)
  }

  /** `[p[2] for p in es]`. */
  function Diffs(es: seq<Entry>): (r: seq<real>)
    ensures |r| == |es| && forall i :: 0 <= i < |es| ==> r[i] == es[i].diff
  {
    seq(|es|, i requires 0 <= i < |es| => es[i].diff)
  }

  /** `sorted(es, key=lambda item: item[0], reverse=True)`: the records
      rearranged by the stable descending order of their x values. */
  function SortByXDescending(es: seq<Entry>): (r: seq<Entry>)
    ensures multiset(r) == multiset(es)
    ensures multiset(Xs(r)) == multiset(Xs(es))
    ensures Monotone(Xs(r), true)
    ensures exists p: seq<nat> :: SortedBy(Xs(es), true, p) && multiset(p) == multiset(Iota(|es|))
                        && r == Apply(es, p)
  {
    var p := SortIndices(Xs(es), true);
    ApplyPermutation(es, p);
    ApplyPermutation(Xs(es), p);
    SortedMonotone(Xs(es), p);
    assert Xs(Apply(es, p)) == Apply(Xs(es), p);
    Apply(es, p)
  }

  /** `sorted(es, key=lambda item: item[2], reverse=True)`: the records
      rearranged by the stable descending order of their differences. */
  function SortByDiffDescending(es: seq<Entry>): (r: seq<Entry>)
    ensures multiset(r) == multiset(es)
    ensures multiset(Diffs(r)) == multiset(Diffs(es))
    ensures Monotone(Diffs(r), true)
    ensures exists p: seq<nat> :: SortedBy(Diffs(es), true, p) && multiset(p) == multiset(Iota(|es|))
                        && r == Apply(es, p)
  {
    var p := SortIndices(Diffs(es), true);
    ApplyPermutation(es, p);
    ApplyPermutation(Diffs(es), p);
    SortedMonotone(Diffs(es), p);
    assert Diffs(Apply(es, p)) == Apply(Diffs(es), p);
    Apply(es, p)
  }

  /** Reading keys through a sorted arrangement gives a monotone list. */
  lemma SortedMonotone(keys: seq<real>, p: seq<nat>)
    requires SortedBy(keys, true, p)
    ensures Monotone(Apply(keys, p), true)
  {
    var r := Apply(keys, p);
    forall i, j | 0 <= i < j < |r| ensures r[i] >= r[j] {
      assert Precedes(keys, true, p[i], p[j]);
    }
  }
}
