/** The up/tie/down split of the plot scripts: the records `[x, y, diff]`
    with diff > 0, diff == 0 and diff < 0, plus copies of the up and down
    lists sorted by x, largest first. para_and_nonPara_plot.py splits the
    records after sorting them by diff, largest first; trapezoid_plot.py
    splits them in row order and also counts the signs of the differences. */
module UpTieDown {
  import opened Sorting
  import opened Entries

  datatype Sign = Up | Tie | Down

  /** Which of the three lists a difference goes to. */
  function SignOf(d: real): (s: Sign)
    ensures s == Up <==> d > 0.0
    ensures s == Tie <==> d == 0.0
    ensures s == Down <==> d < 0.0
  {
    if d > 0.0 then Up else if d == 0.0 then Tie else Down
  }

  /** `int((differences > 0).sum())` and its `< 0` and `== 0` companions. */
  function CountSign(ds: seq<real>, s: Sign): (c: nat)
    ensures c <= |ds|
  {
    if |ds| == 0 then 0
    else CountSign(ds[..|ds| - 1], s) + (if SignOf(ds[|ds| - 1]) == s then 1 else 0)
  }

  /** The three counts add up to `total_pairs`. */
  lemma {:induction false} CountsSum(ds: seq<real>)
    ensures CountSign(ds, Up) + CountSign(ds, Tie) + CountSign(ds, Down) == |ds|
  {
    if |ds| > 0 {
      CountsSum(ds[..|ds| - 1]);
    }
  }

  /** The records of one sign, in their original order: the reference
      contents of each of the three lists. */
  function Keep(es: seq<Entry>, s: Sign): (r: seq<Entry>)
    ensures |r| == CountSign(Diffs(es), s)
    ensures forall i :: 0 <= i < |r| ==> SignOf(r[i].diff) == s
  {
    if |es| == 0 then []
    else
      var p := es[..|es| - 1];
      var e := es[|es| - 1];
      assert Diffs(es)[..|es| - 1] == Diffs(p);
      Keep(p, s) + (if SignOf(e.diff) == s then [e] else [])
  }

  /** Every kept record comes from the input. */
  lemma {:induction false} KeepSubset(es: seq<Entry>, s: Sign)
    ensures forall x :: x in Keep(es, s) ==> x in es
  {
    if |es| > 0 {
      var p := es[..|es| - 1];
      KeepSubset(p, s);
      assert forall x :: x in p ==> x in es;
    }
  }

  /** The three lists together hold every record exactly once. */
  lemma {:induction false} KeepPartition(es: seq<Entry>)
    ensures multiset(Keep(es, Up)) + multiset(Keep(es, Tie)) + multiset(Keep(es, Down)) == multiset(es)
  {
    if |es| > 0 {
      var p := es[..|es| - 1];
      var e := es[|es| - 1];
      assert es == p + [e];
      KeepPartition(p);
      KeepStep(p, e, Up);
      KeepStep(p, e, Tie);
      KeepStep(p, e, Down);
    }
  }

  lemma KeepStep(p: seq<Entry>, e: Entry, s: Sign)
    ensures multiset(Keep(p + [e], s)) == multiset(Keep(p, s)) + (if SignOf(e.diff) == s then multiset{e} else multiset{})
  {
    assert (p + [e])[..|p + [e]| - 1] == p;
  }

  /** Keeping the records of one sign preserves a descending order of diff. */
  lemma {:induction false} KeepMonotone(es: seq<Entry>, s: Sign)
    requires Monotone(Diffs(es), true)
    ensures Monotone(Diffs(Keep(es, s)), true)
  {
    if |es| > 0 {
      var p := es[..|es| - 1];
      var e := es[|es| - 1];
      assert Monotone(Diffs(p), true) by {
        assert forall i :: 0 <= i < |p| ==> Diffs(p)[i] == Diffs(es)[i];
      }
      KeepMonotone(p, s);
      KeepSubset(p, s);
      var k := Keep(p, s);
      forall i | 0 <= i < |k| ensures k[i].diff >= e.diff {
        assert k[i] in k;
        var j :| 0 <= j < |p| && p[j] == k[i];
        assert Diffs(es)[j] >= Diffs(es)[|es| - 1];
      }
    }
  }

  datatype Split = Split(up: seq<Entry>, tie: seq<Entry>, down: seq<Entry>)

  /** The loop `if diff > 0: up.append(...) elif diff == 0: tie.append(...)
      else: down.append(...)` over the records in order. Each list is exactly
      the records of its sign, in the order met. */
  function SplitEntries(es: seq<Entry>): (r: Split)
    ensures r.up == Keep(es, Up) && r.tie == Keep(es, Tie) && r.down == Keep(es, Down)
  {
    if |es| == 0 then Split([], [], [])
    else
      var r := SplitEntries(es[..|es| - 1]);
      var e := es[|es| - 1];
      if e.diff > 0.0 then r.(up := r.up + [e])
      else if e.diff == 0.0 then r.(tie := r.tie + [e])
      else r.(down := r.down + [e])
  }

  /** The split together with `sorted_sabun_up` and `sorted_sabun_down`. */
  datatype Sides = Sides(split: Split, sortedUp: seq<Entry>, sortedDown: seq<Entry>)

  /** Each list holds records of its sign only, and together they hold every
      record exactly once. */
  predicate Partitioned(es: seq<Entry>, s: Split)
  {
    && (forall i :: 0 <= i < |s.up| ==> s.up[i].diff > 0.0)
    && (forall i :: 0 <= i < |s.tie| ==> s.tie[i].diff == 0.0)
    && (forall i :: 0 <= i < |s.down| ==> s.down[i].diff < 0.0)
    && multiset(s.up) + multiset(s.tie) + multiset(s.down) == multiset(es)
  }

  /** The sorted copies are the up and down lists rearranged by x, largest
      first. */
  predicate SortedCopies(r: Sides)
  {
    && multiset(r.sortedUp) == multiset(r.split.up) && Monotone(Xs(r.sortedUp), true)
    && multiset(r.sortedDown) == multiset(r.split.down) && Monotone(Xs(r.sortedDown), true)
  }

  /** What both scripts' results satisfy. */
  predicate WellSplit(es: seq<Entry>, r: Sides)
  {
    Partitioned(es, r.split) && SortedCopies(r)
  }

  function WithSortedCopies(s: Split): (r: Sides)
    ensures r.split == s && SortedCopies(r)
  {
    Sides(s, SortByXDescending(s.up), SortByXDescending(s.down))
  }

  /** Splitting any rearrangement of the records gives a well-formed result. */
  lemma SplitWell(es: seq<Entry>, arranged: seq<Entry>)
    requires multiset(arranged) == multiset(es)
    ensures WellSplit(es, WithSortedCopies(SplitEntries(arranged)))
  {
    KeepPartition(arranged);
    assert Partitioned(es, SplitEntries(arranged));
  }

  /** `read_and_process_data` after reading: the records in line order are
      sorted by diff, largest first, and then split, so the up and the down
      list are themselves in descending order of diff. */
  function ParaSplit(es: seq<Entry>): (r: Sides)
    ensures WellSplit(es, r)
    ensures Monotone(Diffs(r.split.up), true) && Monotone(Diffs(r.split.down), true)
  {
    var sorted := SortByDiffDescending(es);
    var s := SplitEntries(sorted);
    SplitWell(es, sorted);
    KeepMonotone(sorted, Up);
    KeepMonotone(sorted, Down);
    WithSortedCopies(s)
  }

  /** The counts printed by trapezoid_plot.py's `main`. */
  datatype Counts = Counts(total: nat, positive: nat, negative: nat, tie: nat)

  /** trapezoid_plot.py's `main` on the (X, Y) rows: the sign counts of the
      differences, and the split of the rows, each list in row order. The list
      sizes equal the counts, which add up to the number of rows. */
  function TrapezoidSplit(rows: seq<(real, real)>): (r: (Counts, Sides))
    ensures WellSplit(Records(rows), r.1)
    ensures r.0.total == |rows| && r.0.positive + r.0.negative + r.0.tie == r.0.total
    ensures |r.1.split.up| == r.0.positive && |r.1.split.down| == r.0.negative && |r.1.split.tie| == r.0.tie
    ensures r.1.split.up == Keep(Records(rows), Up) && r.1.split.down == Keep(Records(rows), Down)
    ensures r.1.split.tie == Keep(Records(rows), Tie)
  {
    var es := Records(rows);
    var differences := Diffs(es);
    var counts := Counts(|rows|, CountSign(differences, Up), CountSign(differences, Down), CountSign(differences, Tie));
    CountsSum(differences);
    SplitWell(es, es);
    (counts, WithSortedCopies(SplitEntries(es)))
  }

  /** One record `[X, Y, Y - X]` per row. */
  function Records(rows: seq<(real, real)>): (es: seq<Entry>)
    ensures |es| == |rows|
    ensures forall i :: 0 <= i < |rows| ==> es[i] == MakeEntry(rows[i].0, rows[i].1)
  {
    seq(|rows|, i requires 0 <= i < |rows| => MakeEntry(rows[i].0, rows[i].1))
  }
}
