/** Python's `sorted`, modelled as a stable sort of positions, together with
    the order-statistic view of "the element at index k of the sorted list".

    Every `sorted(xs, key=..., reverse=...)` of the modelled code is a stable
    sort: elements with equal keys keep their original relative order, also
    with `reverse=True`. Sorting the positions 0..n-1 under "smaller key first,
    then smaller position" is therefore exactly what Python computes, and
    `SortedUnique` shows there is only one such arrangement. */
module Sorting {

  /** The positions 0, 1, ..., n-1. */
  function Iota(n: nat): (r: seq<nat>)
    ensures |r| == n
    ensures forall i :: 0 <= i < n ==> r[i] == i
  {
    if n == 0 then [] else Iota(n - 1) + [n - 1]
  }

  predicate InRange(s: seq<nat>, n: nat)
  {
    forall i :: 0 <= i < |s| ==> s[i] < n
  }

  /** The strict total order of a stable sort on positions `a` and `b`. */
  predicate Precedes(keys: seq<real>, descending: bool, a: nat, b: nat)
    requires a < |keys| && b < |keys|
  {
    if keys[a] == keys[b] then a < b
    else if descending then keys[a] > keys[b]
    else keys[a] < keys[b]
  }

  predicate SortedBy(keys: seq<real>, descending: bool, s: seq<nat>)
  {
    && InRange(s, |keys|)
    && forall i, j :: 0 <= i < j < |s| ==> Precedes(keys, descending, s[i], s[j])
  }

  lemma PrecedesTransitive(keys: seq<real>, descending: bool, a: nat, b: nat, c: nat)
    requires a < |keys| && b < |keys| && c < |keys|
    requires Precedes(keys, descending, a, b) && Precedes(keys, descending, b, c)
    ensures Precedes(keys, descending, a, c)
  {
  }

  /** Inserts position `x`, larger than every position already in `s`. */
  function Insert(keys: seq<real>, descending: bool, s: seq<nat>, x: nat): (r: seq<nat>)
    requires SortedBy(keys, descending, s) && x < |keys|
    requires forall i :: 0 <= i < |s| ==> s[i] < x
    ensures SortedBy(keys, descending, r)
    ensures multiset(r) == multiset(s) + multiset{x}
    decreases |s|
  {
    if |s| == 0 then [x]
    else if Precedes(keys, descending, x, s[0]) then
      PrecedesAll(keys, descending, x, s);
      PrependSorted(keys, descending, x, s);
      [x] + s
    else
      var rest := Insert(keys, descending, s[1..], x);
      assert s == [s[0]] + s[1..];
      HeadPrecedesInsert(keys, descending, s, x, rest);
      PrependSorted(keys, descending, s[0], rest);
      [s[0]] + rest
  }

  /** A position preceding the head of a sorted list precedes all of it. */
  lemma PrecedesAll(keys: seq<real>, descending: bool, x: nat, s: seq<nat>)
    requires SortedBy(keys, descending, s) && x < |keys| && |s| > 0
    requires Precedes(keys, descending, x, s[0])
    ensures forall j :: 0 <= j < |s| ==> Precedes(keys, descending, x, s[j])
  {
    forall j | 0 < j < |s| {
      PrecedesTransitive(keys, descending, x, s[0], s[j]);
    }
  }

  /** A position preceding every entry of a sorted list can go in front of it. */
  lemma PrependSorted(keys: seq<real>, descending: bool, x: nat, s: seq<nat>)
    requires SortedBy(keys, descending, s) && x < |keys|
    requires forall j :: 0 <= j < |s| ==> Precedes(keys, descending, x, s[j])
    ensures SortedBy(keys, descending, [x] + s)
  {
  }

  /** When `x` does not precede the head, the head precedes everything the
      insertion into the tail produces. */
  lemma HeadPrecedesInsert(keys: seq<real>, descending: bool, s: seq<nat>, x: nat, rest: seq<nat>)
    requires SortedBy(keys, descending, s) && x < |keys| && |s| > 0
    requires forall i :: 0 <= i < |s| ==> s[i] < x
    requires !Precedes(keys, descending, x, s[0])
    requires multiset(rest) == multiset(s[1..]) + multiset{x} && InRange(rest, |keys|)
    ensures forall j :: 0 <= j < |rest| ==> Precedes(keys, descending, s[0], rest[j])
  {
    forall j | 0 <= j < |rest|
      ensures Precedes(keys, descending, s[0], rest[j])
    {
      assert rest[j] in multiset(rest);
      if rest[j] != x {
        assert rest[j] in multiset(s[1..]);
        var k :| 0 <= k < |s[1..]| && s[1..][k] == rest[j];
        assert s[k + 1] == rest[j];
      }
    }
  }

  /** Stable sort of the positions 0..k-1. */
  function SortPrefix(keys: seq<real>, descending: bool, k: nat): (r: seq<nat>)
    requires k <= |keys|
    ensures SortedBy(keys, descending, r)
    ensures multiset(r) == multiset(Iota(k))
    ensures |r| == k && InRange(r, k)
  {
    if k == 0 then []
    else
      var s := SortPrefix(keys, descending, k - 1);
      assert forall i :: 0 <= i < |s| ==> s[i] < k - 1 by {
        forall i | 0 <= i < |s| ensures s[i] < k - 1 {
          assert s[i] in multiset(Iota(k - 1));
        }
      }
      var r := Insert(keys, descending, s, k - 1);
      assert forall i :: 0 <= i < |r| ==> r[i] < k by {
        forall i | 0 <= i < |r| ensures r[i] < k {
          assert r[i] in multiset(Iota(k));
        }
      }
      r
  }

  /** The permutation `sorted(range(n), key=lambda i: keys[i], reverse=descending)`. */
  function SortIndices(keys: seq<real>, descending: bool): (r: seq<nat>)
    ensures SortedBy(keys, descending, r)
    ensures multiset(r) == multiset(Iota(|keys|))
    ensures |r| == |keys|
  {
    SortPrefix(keys, descending, |keys|)
  }

  /** A stable sort is unique: two sorted arrangements of the same positions are equal. */
  lemma {:induction false} SortedUnique(keys: seq<real>, descending: bool, p: seq<nat>, q: seq<nat>)
    requires SortedBy(keys, descending, p) && SortedBy(keys, descending, q)
    requires multiset(p) == multiset(q)
    ensures p == q
    decreases |p|
  {
    assert |p| == |multiset(p)| == |multiset(q)| == |q|;
    if |p| > 0 {
      assert p[0] in multiset(q) && q[0] in multiset(p);
      assert p[0] == q[0];
      assert p == [p[0]] + p[1..] && q == [q[0]] + q[1..];
      assert multiset(p) == multiset(p[1..]) + multiset{p[0]};
      assert multiset(q) == multiset(q[1..]) + multiset{p[0]};
      MultisetCancel(multiset(p[1..]), multiset(q[1..]), p[0]);
      SortedUnique(keys, descending, p[1..], q[1..]);
    }
  }

  lemma MultisetCancel<T>(a: multiset<T>, b: multiset<T>, x: T)
    requires a + multiset{x} == b + multiset{x}
    ensures a == b
  {
    forall e ensures a[e] == b[e] {
      assert (a + multiset{x})[e] == (b + multiset{x})[e];
    }
  }

  /** The elements of `xs` at the positions `p`, in that order. */
  function Apply<T>(xs: seq<T>, p: seq<nat>): (r: seq<T>)
    requires InRange(p, |xs|)
    ensures |r| == |p|
    ensures forall i :: 0 <= i < |p| ==> r[i] == xs[p[i]]
  {
    seq(|p|, i requires 0 <= i < |p| => xs[p[i]])
  }

  lemma ApplyConcat<T>(xs: seq<T>, a: seq<nat>, b: seq<nat>)
    requires InRange(a, |xs|) && InRange(b, |xs|)
    ensures InRange(a + b, |xs|)
    ensures Apply(xs, a + b) == Apply(xs, a) + Apply(xs, b)
  {
  }

  /** Taking position `k` out of `q` takes one `xs[q[k]]` out of the result. */
  lemma ApplyRemove<T>(xs: seq<T>, q: seq<nat>, k: nat)
    requires InRange(q, |xs|) && k < |q|
    ensures InRange(q[..k] + q[k + 1..], |xs|)
    ensures multiset(Apply(xs, q)) == multiset(Apply(xs, q[..k] + q[k + 1..])) + multiset{xs[q[k]]}
  {
    var q1, q2 := q[..k], q[k + 1..];
    assert q == q1 + [q[k]] + q2;
    ApplyConcat(xs, q1, [q[k]]);
    ApplyConcat(xs, q1 + [q[k]], q2);
    ApplyConcat(xs, q1, q2);
  }

  lemma SeqRemove<T>(s: seq<T>, k: nat)
    requires k < |s|
    ensures multiset(s) == multiset(s[..k] + s[k + 1..]) + multiset{s[k]}
  {
    assert s == s[..k] + [s[k]] + s[k + 1..];
  }

  lemma {:induction false} ApplySameMultiset<T>(xs: seq<T>, p: seq<nat>, q: seq<nat>)
    requires InRange(p, |xs|) && InRange(q, |xs|)
    requires multiset(p) == multiset(q)
    ensures multiset(Apply(xs, p)) == multiset(Apply(xs, q))
    decreases |p|
  {
    assert |p| == |multiset(p)| == |multiset(q)| == |q|;
    if |p| > 0 {
      var x := p[0];
      assert x in multiset(q);
      var k :| 0 <= k < |q| && q[k] == x;
      var p', q' := p[..0] + p[1..], q[..k] + q[k + 1..];
      SeqRemove(p, 0);
      SeqRemove(q, k);
      MultisetCancel(multiset(p'), multiset(q'), x);
      ApplyRemove(xs, p, 0);
      ApplyRemove(xs, q, k);
      ApplySameMultiset(xs, p', q');
    }
  }

  /** Rearranging `xs` by a permutation of its positions keeps its multiset. */
  lemma ApplyPermutation<T>(xs: seq<T>, p: seq<nat>)
    requires InRange(p, |xs|)
    requires multiset(p) == multiset(Iota(|xs|))
    ensures multiset(Apply(xs, p)) == multiset(xs)
  {
    ApplySameMultiset(xs, p, Iota(|xs|));
    assert Apply(xs, Iota(|xs|)) == xs;
  }

  /** `xs` is ordered ascending, or descending when `descending`. */
  predicate Monotone(xs: seq<real>, descending: bool)
  {
    forall i, j :: 0 <= i < j < |xs| ==> if descending then xs[i] >= xs[j] else xs[i] <= xs[j]
  }

  /** `sorted(xs)` (or `sorted(xs, reverse=True)`) of plain values. */
  function SortValues(xs: seq<real>, descending: bool): (r: seq<real>)
    ensures |r| == |xs|
    ensures Monotone(r, descending)
    ensures multiset(r) == multiset(xs)
  {
    var p := SortIndices(xs, descending);
    ApplyPermutation(xs, p);
    Apply(xs, p)
  }

  /** `a` comes before `v` (strict) or not after `v` (weak) in the chosen direction. */
  predicate Ahead(a: real, v: real, descending: bool, strict: bool)
  {
    if strict then (if descending then a > v else a < v)
    else (if descending then a >= v else a <= v)
  }

  /** How many elements of `xs` are `Ahead` of `v`. */
  function Count(xs: seq<real>, v: real, descending: bool, strict: bool): (c: nat)
    ensures c <= |xs|
  {
    if |xs| == 0 then 0
    else Count(xs[..|xs| - 1], v, descending, strict) + (if Ahead(xs[|xs| - 1], v, descending, strict) then 1 else 0)
  }

  lemma {:induction false} CountAppend(a: seq<real>, b: seq<real>, v: real, descending: bool, strict: bool)
    ensures Count(a + b, v, descending, strict) == Count(a, v, descending, strict) + Count(b, v, descending, strict)
    decreases |b|
  {
    if |b| == 0 {
      assert a + b == a;
    } else {
      assert (a + b)[..|a + b| - 1] == a + b[..|b| - 1];
      CountAppend(a, b[..|b| - 1], v, descending, strict);
    }
  }

  /** Counting depends only on the multiset of the elements. */
  lemma {:induction false} CountPermutation(a: seq<real>, b: seq<real>, v: real, descending: bool, strict: bool)
    requires multiset(a) == multiset(b)
    ensures Count(a, v, descending, strict) == Count(b, v, descending, strict)
    decreases |a|
  {
    assert |a| == |multiset(a)| == |multiset(b)| == |b|;
    if |a| > 0 {
      var x := a[|a| - 1];
      assert x in multiset(b);
      var k :| 0 <= k < |b| && b[k] == x;
      var b' := b[..k] + b[k + 1..];
      assert b == b[..k] + [x] + b[k + 1..];
      assert a == a[..|a| - 1] + [x];
      MultisetCancel(multiset(a[..|a| - 1]), multiset(b'), x);
      CountPermutation(a[..|a| - 1], b', v, descending, strict);
      CountAppend(b[..k] + [x], b[k + 1..], v, descending, strict);
      CountAppend(b[..k], [x], v, descending, strict);
      CountAppend(b[..k], b[k + 1..], v, descending, strict);
      assert [x][..0] == [];
    }
  }

  /** `v` is what `sorted(xs, reverse=descending)[k]` must be: it occurs in `xs`,
      at most `k` elements come strictly before it and more than `k` come no later. */
  predicate IsOrderStatistic(xs: seq<real>, descending: bool, k: nat, v: real)
  {
    && v in xs
    && Count(xs, v, descending, true) <= k < Count(xs, v, descending, false)
  }

  lemma {:induction false} CountMonotonePrefix(s: seq<real>, k: nat, descending: bool)
    requires Monotone(s, descending) && k < |s|
    ensures Count(s, s[k], descending, true) <= k
    ensures Count(s, s[k], descending, false) >= k + 1
  {
    assert s == s[..k] + s[k..];
    CountAppend(s[..k], s[k..], s[k], descending, true);
    CountNoneAhead(s[k..], s[k], descending);
    assert s == s[..k + 1] + s[k + 1..];
    CountAppend(s[..k + 1], s[k + 1..], s[k], descending, false);
    CountAllAhead(s[..k + 1], s[k], descending);
  }

  lemma {:induction false} CountNoneAhead(s: seq<real>, v: real, descending: bool)
    requires forall i :: 0 <= i < |s| ==> !Ahead(s[i], v, descending, true)
    ensures Count(s, v, descending, true) == 0
  {
    if |s| > 0 {
      CountNoneAhead(s[..|s| - 1], v, descending);
    }
  }

  lemma {:induction false} CountAllAhead(s: seq<real>, v: real, descending: bool)
    requires forall i :: 0 <= i < |s| ==> Ahead(s[i], v, descending, false)
    ensures Count(s, v, descending, false) == |s|
  {
    if |s| > 0 {
      CountAllAhead(s[..|s| - 1], v, descending);
    }
  }

  /** The element at index `k` of the sorted list is the `k`-th order statistic. */
  lemma SortedIsOrderStatistic(xs: seq<real>, descending: bool, k: nat)
    requires k < |xs|
    ensures IsOrderStatistic(xs, descending, k, SortValues(xs, descending)[k])
  {
    var s := SortValues(xs, descending);
    CountMonotonePrefix(s, k, descending);
    CountPermutation(s, xs, s[k], descending, true);
    CountPermutation(s, xs, s[k], descending, false);
    assert s[k] in multiset(xs);
  }

  lemma {:induction false} CountDominated(xs: seq<real>, v: real, w: real, descending: bool)
    requires forall a :: Ahead(a, v, descending, false) ==> Ahead(a, w, descending, true)
    ensures Count(xs, v, descending, false) <= Count(xs, w, descending, true)
  {
    if |xs| > 0 {
      CountDominated(xs[..|xs| - 1], v, w, descending);
    }
  }

  /** The order statistic is unique, so `IsOrderStatistic` pins the value down. */
  lemma OrderStatisticUnique(xs: seq<real>, descending: bool, k: nat, v: real, w: real)
    requires IsOrderStatistic(xs, descending, k, v) && IsOrderStatistic(xs, descending, k, w)
    ensures v == w
  {
    if v != w {
      if Ahead(v, w, descending, true) {
        CountDominated(xs, v, w, descending);
      } else {
        CountDominated(xs, w, v, descending);
      }
    }
  }

  /** The ascending sequence of the members of `s` below `bound`
      (what `sorted(s)` or `np.unique` gives for non-negative integers). */
  function AscendingUpTo(s: set<nat>, bound: nat): (r: seq<nat>)
    ensures forall i, j :: 0 <= i < j < |r| ==> r[i] < r[j]
    ensures forall i :: 0 <= i < |r| ==> r[i] < bound
    ensures forall v :: v in r <==> v in s && v < bound
  {
    if bound == 0 then []
    else
      var r := AscendingUpTo(s, bound - 1);
      if bound - 1 in s then r + [bound - 1] else r
  }
}
