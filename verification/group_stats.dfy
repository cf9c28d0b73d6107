/** preparation_2.py: rows `[x, y, cluster]` are grouped by cluster, and each
    group gets the mean and quartiles of x, y and diff = y - x together with
    the "trapezoid" point built from the groups sorted by x and by diff,
    both descending. */
module GroupStats {
  import opened Sorting
  import opened Quartiles
  import opened Entries

  /** A row `[x, y, cluster]` of the clustered data file. */
  datatype Row = Row(x: real, y: real, cluster: int)

  /** `sum(xs)`, added left to right. */
  function Sum(xs: seq<real>): real
  {
    if |xs| == 0 then 0.0 else Sum(xs[..|xs| - 1]) + xs[|xs| - 1]
  }

  lemma {:induction false} SumAppend(a: seq<real>, b: seq<real>)
    ensures Sum(a + b) == Sum(a) + Sum(b)
    decreases |b|
  {
    if |b| == 0 {
      assert a + b == a;
    } else {
      assert (a + b)[..|a + b| - 1] == a + b[..|b| - 1];
      SumAppend(a, b[..|b| - 1]);
    }
  }

  /** The sum does not depend on the order of the values. */
  lemma {:induction false} SumPermutation(a: seq<real>, b: seq<real>)
    requires multiset(a) == multiset(b)
    ensures Sum(a) == Sum(b)
    decreases |a|
  {
    assert |a| == |multiset(a)| == |multiset(b)| == |b|;
    if |a| > 0 {
      var x := a[|a| - 1];
      assert x in multiset(b);
      var k :| 0 <= k < |b| && b[k] == x;
      var b' := b[..k] + b[k + 1..];
      assert b == b[..k] + [x] + b[k + 1..];
      assert a == a[..|a| - 1] + [x];
      MultisetCancel(multiset(a[..|a| - 1]), multiset(b'), x);
      SumPermutation(a[..|a| - 1], b');
      SumAppend(b[..k] + [x], b[k + 1..]);
      SumAppend(b[..k], [x]);
      SumAppend(b[..k], b[k + 1..]);
      assert [x][..0] == [];
    }
  }

  /** The arithmetic mean `sum(xs) / len(xs)`. */
  function Mean(xs: seq<real>): real
    requires |xs| > 0
  {
    Sum(xs) / (|xs| as real)
  }

  /** The mean does not depend on the order of the values. */
  lemma MeanPermutation(a: seq<real>, b: seq<real>)
    requires multiset(a) == multiset(b) && |a| > 0
    ensures |b| == |a| && Mean(a) == Mean(b)
  {
    assert |a| == |multiset(a)| == |multiset(b)| == |b|;
    SumPermutation(a, b);
  }

  /** The result of `calculate_stats`: mean, the three quartiles and the count. */
  datatype Stats = Stats(mean: real, q1: real, q2: real, q3: real, n: nat)

  /** `calculate_stats(values)`: all zeros for an empty list; otherwise the
      mean and the values at the quartile positions of the ascending order. */
  function CalculateStats(values: seq<real>): (s: Stats)
    ensures s.n == |values|
    ensures |values| == 0 ==> s == Stats(0.0, 0.0, 0.0, 0.0, 0)
    ensures |values| > 0 ==>
      && s.mean == Mean(values)
      && IsOrderStatistic(values, false, |values| / 4, s.q1)
      && IsOrderStatistic(values, false, |values| / 2, s.q2)
      && IsOrderStatistic(values, false, |values| * 3 / 4, s.q3)
      && s.q1 <= s.q2 <= s.q3
  {
    var n := |values|;
    if n == 0 then Stats(0.0, 0.0, 0.0, 0.0, 0)
    else
      var q := QuartileIndices(n).value;
      var sorted := SortValues(values, false);
      MeanPermutation(sorted, values);
      MonotoneIsOrderStatistic(values, sorted, false, q.q1);
      MonotoneIsOrderStatistic(values, sorted, false, q.q2);
      MonotoneIsOrderStatistic(values, sorted, false, q.q3);
      Stats(Mean(sorted), sorted[q.q1], sorted[q.q2], sorted[q.q3], n)
  }

  /** `[[x, y, y - x] for row in rows if row.cluster == c]`: the reference
      contents of the group of cluster c, in file order. */
  function Members(rows: seq<Row>, c: int): (m: seq<Entry>)
    ensures |m| <= |rows|
    ensures |m| == 0 <==> forall i :: 0 <= i < |rows| ==> rows[i].cluster != c
  {
    if |rows| == 0 then []
    else
      var p := rows[..|rows| - 1];
      var r := rows[|rows| - 1];
      assert forall i :: 0 <= i < |p| ==> p[i] == rows[i];
      Members(p, c) + (if r.cluster == c then [MakeEntry(r.x, r.y)] else [])
  }

  /** Some row belongs to cluster c. */
  predicate Occurs(rows: seq<Row>, c: int)
  {
    exists i :: 0 <= i < |rows| && rows[i].cluster == c
  }

  /** The grouping loop: each row is appended to the list of its cluster,
      which is created on first sight. Its keys are exactly the clusters that
      occur and each list holds exactly that cluster's rows, in file order. */
  function Group(rows: seq<Row>): (g: map<int, seq<Entry>>)
    ensures forall c :: c in g <==> Occurs(rows, c)
    ensures forall c :: c in g ==> g[c] == Members(rows, c) && |g[c]| > 0
  {
    if |rows| == 0 then map[]
    else
      var p := rows[..|rows| - 1];
      var r := rows[|rows| - 1];
      var g := Group(p);
      assert forall i :: 0 <= i < |p| ==> p[i] == rows[i];
      var start := if r.cluster in g then g[r.cluster] else [];
      g[r.cluster := start + [MakeEntry(r.x, r.y)]]
  }

  /** `ks` lists each of its values once. */
  predicate NoRepeats(ks: seq<int>)
  {
    forall i, j :: 0 <= i < j < |ks| ==> ks[i] != ks[j]
  }

  /** The group sizes added up along the key list `ks`. */
  function SizeSum(rows: seq<Row>, ks: seq<int>): nat
  {
    if |ks| == 0 then 0 else |Members(rows, ks[0])| + SizeSum(rows, ks[1..])
  }

  /** How often `c` occurs in `ks`. */
  function Occurrences(ks: seq<int>, c: int): nat
  {
    if |ks| == 0 then 0 else (if ks[0] == c then 1 else 0) + Occurrences(ks[1..], c)
  }

  lemma {:induction false} SizeSumSnoc(rows: seq<Row>, r: Row, ks: seq<int>)
    ensures SizeSum(rows + [r], ks) == SizeSum(rows, ks) + Occurrences(ks, r.cluster)
  {
    if |ks| > 0 {
      assert (rows + [r])[..|rows + [r]| - 1] == rows;
      SizeSumSnoc(rows, r, ks[1..]);
    }
  }

  lemma {:induction false} OccurrencesOnce(ks: seq<int>, c: int)
    requires NoRepeats(ks) && c in ks
    ensures Occurrences(ks, c) == 1
  {
    if ks[0] == c {
      OccurrencesNone(ks[1..], c);
    } else {
      OccurrencesOnce(ks[1..], c);
    }
  }

  lemma {:induction false} OccurrencesNone(ks: seq<int>, c: int)
    requires c !in ks
    ensures Occurrences(ks, c) == 0
  {
    if |ks| > 0 {
      OccurrencesNone(ks[1..], c);
    }
  }

  /** Every row lands in exactly one group: for any list naming each cluster
      once, such as `sorted(groups.keys())`, the group sizes add up to the
      number of rows. */
  lemma {:induction false} GroupSizesSum(rows: seq<Row>, ks: seq<int>)
    requires NoRepeats(ks)
    requires forall i :: 0 <= i < |rows| ==> rows[i].cluster in ks
    ensures SizeSum(rows, ks) == |rows|
  {
    if |rows| == 0 {
      SizeSumEmpty(ks);
    } else {
      var p := rows[..|rows| - 1];
      var r := rows[|rows| - 1];
      assert rows == p + [r];
      GroupSizesSum(p, ks);
      SizeSumSnoc(p, r, ks);
      OccurrencesOnce(ks, r.cluster);
    }
  }

  lemma {:induction false} SizeSumEmpty(ks: seq<int>)
    ensures SizeSum([], ks) == 0
  {
    if |ks| > 0 {
      SizeSumEmpty(ks[1..]);
    }
  }

  /** `stats_results[cluster]`. */
  datatype Summary = Summary(x: Stats, y: Stats, diff: Stats,
                             q1Trapezoid: real, q2Trapezoid: real, q3Trapezoid: real,
                             meanPoint: (real, real), medianPoint: (real, real),
                             n: nat, q2Start: real, q2Diff: real)

  /** The statistics of one group. The trapezoid values are read at the
      quartile positions of the group sorted by x and by diff, largest first;
      for an empty group the zero statistics stand in. The mean point and the
      median point are the same point. */
  function Summarize(g: seq<Entry>): (s: Summary)
    ensures s.n == |g| && s.meanPoint == s.medianPoint
    ensures s.meanPoint.0 == s.q2Start && s.meanPoint.1 == s.q2Start + s.q2Diff
    ensures s.x == CalculateStats(Xs(g)) && s.y == CalculateStats(Ys(g)) && s.diff == CalculateStats(Diffs(g))
    ensures |g| > 0 ==>
      && IsOrderStatistic(Xs(g), true, |g| / 2, s.q2Start)
      && IsOrderStatistic(Diffs(g), true, |g| / 4, s.q1Trapezoid)
      && IsOrderStatistic(Diffs(g), true, |g| / 2, s.q2Diff)
      && s.q2Trapezoid == s.q2Diff
      && IsOrderStatistic(Diffs(g), true, |g| * 3 / 4, s.q3Trapezoid)
    ensures |g| == 0 ==> s.q2Start == 0.0 && s.q2Diff == 0.0
  {
    var xStats := CalculateStats(Xs(g));
    var yStats := CalculateStats(Ys(g));
    var dStats := CalculateStats(Diffs(g));
    match QuartileIndices(|g|)
    case Some(q) =>
      var byX := SortByXDescending(g);
      var byDiff := SortByDiffDescending(g);
      MonotoneIsOrderStatistic(Xs(g), Xs(byX), true, q.q2);
      MonotoneIsOrderStatistic(Diffs(g), Diffs(byDiff), true, q.q1);
      MonotoneIsOrderStatistic(Diffs(g), Diffs(byDiff), true, q.q2);
      MonotoneIsOrderStatistic(Diffs(g), Diffs(byDiff), true, q.q3);
      var q2Start := byX[q.q2].x;
      var q2Diff := byDiff[q.q2].diff;
      Summary(xStats, yStats, dStats, byDiff[q.q1].diff, q2Diff, byDiff[q.q3].diff,
              (q2Start, q2Start + q2Diff), (q2Start, q2Start + q2Diff), |g|, q2Start, q2Diff)
    case None =>
      var q2Start := xStats.q2;
      var q2Diff := yStats.q2 - xStats.q2;
      Summary(xStats, yStats, dStats, yStats.q1 - xStats.q1, q2Diff, yStats.q3 - xStats.q3,
              (q2Start, q2Start + q2Diff), (q2Start, q2Start + q2Diff), |g|, q2Start, q2Diff)
  }

  /** The trapezoid start is read from the descending order at `m // 2`, which
      is the ascending position m - 1 - m // 2; for an odd group size that is
      the median `x_q2` itself. */
  lemma TrapezoidStart(g: seq<Entry>)
    requires |g| > 0
    ensures Summarize(g).q2Start == Quantile(Xs(g), |Xs(g)| - 1 - |Xs(g)| / 2)
    ensures |g| % 2 == 1 ==> Summarize(g).q2Start == Summarize(g).x.q2
  {
    var s := Summarize(g);
    MiddleFromEitherEnd(Xs(g), s.q2Start, s.x.q2);
  }

  /** The value at descending position n // 2 seen from the ascending end. */
  lemma MiddleFromEitherEnd(xs: seq<real>, v: real, w: real)
    requires |xs| > 0
    requires IsOrderStatistic(xs, true, |xs| / 2, v) && IsOrderStatistic(xs, false, |xs| / 2, w)
    ensures v == Quantile(xs, |xs| - 1 - |xs| / 2)
    ensures |xs| % 2 == 1 ==> v == w
  {
    DescendingIsAscending(xs, |xs| / 2, v);
    if |xs| % 2 == 1 {
      MiddleAgrees(xs, v, w);
    }
  }

  /** In a list of odd length the middle value is the same from either end. */
  lemma MiddleAgrees(xs: seq<real>, v: real, w: real)
    requires |xs| % 2 == 1
    requires IsOrderStatistic(xs, true, |xs| / 2, v) && IsOrderStatistic(xs, false, |xs| / 2, w)
    ensures v == w
  {
    DescendingIsAscending(xs, |xs| / 2, v);
    assert |xs| - 1 - |xs| / 2 == |xs| / 2;
    OrderStatisticUnique(xs, false, |xs| / 2, w, v);
  }

  /** `stats_results`: one summary per cluster that occurs. No group is empty,
      so every summary takes the sorted branch. */
  function GroupStatistics(rows: seq<Row>): (r: map<int, Summary>)
    ensures forall c :: c in r <==> Occurs(rows, c)
    ensures forall c :: c in r ==> r[c] == Summarize(Members(rows, c)) && r[c].n == |Members(rows, c)| > 0
  {
    var g := Group(rows);
    map c | c in g :: Summarize(g[c])
  }
}
