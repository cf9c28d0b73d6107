/** Finite sets of indices and their sizes. */
module Finite {

  /** The indices 0 .. n-1 as a set. */
  function Below(n: nat): (r: set<nat>)
    ensures forall i: nat :: i in r <==> i < n
  {
    if n == 0 then {} else Below(n - 1) + {n - 1}
  }

  /** A subset is no larger than its superset. */
  lemma {:induction false} SubsetCard(a: set<nat>, b: set<nat>)
    requires a <= b
    ensures |a| <= |b|
    decreases |a|
  {
    if a != {} {
      var x :| x in a;
      SubsetCard(a - {x}, b - {x});
    }
  }

  /** Removing a member takes one off the size. */
  lemma RemoveCard(a: set<nat>, x: nat)
    requires x in a
    ensures |a - {x}| == |a| - 1
  {
  }

  /** There are n indices below n. */
  lemma {:induction false} BelowCard(n: nat)
    ensures |Below(n)| == n
  {
    if n > 0 {
      BelowCard(n - 1);
      assert Below(n) == Below(n - 1) + {n - 1};
    }
  }

  /** No entry of `s` repeats. */
  predicate Distinct(s: seq<nat>)
  {
    forall i, j :: 0 <= i < j < |s| ==> s[i] != s[j]
  }

  /** The entries of `s` as a set. */
  function Elems(s: seq<nat>): set<nat>
  {
    set x | x in s
  }

  lemma {:induction false} DistinctCard(s: seq<nat>)
    requires Distinct(s)
    ensures |Elems(s)| == |s|
  {
    if |s| > 0 {
      var p := s[..|s| - 1];
      DistinctCard(p);
      assert Elems(s) == Elems(p) + {s[|s| - 1]};
    }
  }
}
