/** The quartile positions shared by `calculate_quartile_indices`
    (preparation_2.py) and the identical `calculate_quartiles` of the two plot
    scripts, and the value at a position of the ascending order. */
module Quartiles {
  import opened Wrappers
  import opened Sorting

  datatype Indices = Indices(q1: nat, q2: nat, q3: nat)

  /** `int(n / 4)`, `int(n / 2)` and `int(n * 3 / 4)` for a list of length n,
      or `(None, None, None)` for an empty one. On a non-negative n the
      truncating `int` is the floor. */
  function QuartileIndices(n: nat): (r: Option<Indices>)
    ensures r.None? <==> n == 0
    ensures r.Some? ==> r.value.q1 <= r.value.q2 <= r.value.q3 < n
    ensures r.Some? ==> 4 * r.value.q1 <= n < 4 * r.value.q1 + 4
    ensures r.Some? ==> 2 * r.value.q2 <= n < 2 * r.value.q2 + 2
    ensures r.Some? ==> 4 * r.value.q3 <= 3 * n < 4 * r.value.q3 + 4
  {
    if n == 0 then None else Some(Indices(n / 4, n / 2, n * 3 / 4))
  }

  /** `sorted(xs)[k]`: the k-th smallest value, counted from 0. */
  function Quantile(xs: seq<real>, k: nat): (v: real)
    requires k < |xs|
    ensures IsOrderStatistic(xs, false, k, v)
  {
    SortedIsOrderStatistic(xs, false, k);
    SortValues(xs, false)[k]
  }

  /** The k-th smallest value depends only on the values, not on their order. */
  lemma QuantilePermutation(a: seq<real>, b: seq<real>, k: nat)
    requires multiset(a) == multiset(b) && k < |a|
    ensures |b| == |a| && Quantile(a, k) == Quantile(b, k)
  {
    assert |a| == |multiset(a)| == |multiset(b)| == |b|;
    var v := Quantile(a, k);
    CountPermutation(a, b, v, false, true);
    CountPermutation(a, b, v, false, false);
    assert v in multiset(b);
    OrderStatisticUnique(b, false, k, v, Quantile(b, k));
  }

  /** Positions further along the ascending order hold values no smaller. */
  lemma QuantileMonotone(xs: seq<real>, i: nat, j: nat)
    requires i <= j < |xs|
    ensures Quantile(xs, i) <= Quantile(xs, j)
  {
  }

  /** The entry at position k of a monotone rearrangement of `xs` is the k-th
      order statistic of `xs` in that direction. */
  lemma MonotoneIsOrderStatistic(xs: seq<real>, s: seq<real>, descending: bool, k: nat)
    requires multiset(s) == multiset(xs) && Monotone(s, descending) && k < |s|
    ensures IsOrderStatistic(xs, descending, k, s[k])
  {
    CountMonotonePrefix(s, k, descending);
    CountPermutation(s, xs, s[k], descending, true);
    CountPermutation(s, xs, s[k], descending, false);
    assert s[k] in multiset(xs);
  }

  /** Every value is either strictly above `v` or at most `v`, and either at
      least `v` or strictly below it. */
  lemma {:induction false} CountComplement(xs: seq<real>, v: real)
    ensures Count(xs, v, true, true) + Count(xs, v, false, false) == |xs|
    ensures Count(xs, v, true, false) + Count(xs, v, false, true) == |xs|
  {
    if |xs| > 0 {
      CountComplement(xs[..|xs| - 1], v);
    }
  }

  /** The k-th largest value is the (n-1-k)-th smallest. */
  lemma DescendingIsAscending(xs: seq<real>, k: nat, v: real)
    requires k < |xs| && IsOrderStatistic(xs, true, k, v)
    ensures Quantile(xs, |xs| - 1 - k) == v
  {
    CountComplement(xs, v);
    OrderStatisticUnique(xs, false, |xs| - 1 - k, v, Quantile(xs, |xs| - 1 - k));
  }
}
