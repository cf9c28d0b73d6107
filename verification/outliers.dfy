/** `calculate_iqr` and `check_outliers_extent` of the plot scripts (the two
    copies of `check_outliers_extent` in para_and_nonPara_plot.py and
    trapezoid_plot.py are the same text): fences at 1.5 interquartile ranges
    beyond the first and third quartile positions, and the test whether the
    outliers stretch the plotted range by more than a third of it. */
module Outliers {
  import opened Sorting
  import opened Quartiles

  /** `calculate_iqr(data)`: 0 for an empty list, otherwise the value at the
      third quartile position of the ascending order minus the one at the
      first. */
  function Iqr(data: seq<real>): (r: real)
    ensures r >= 0.0
    ensures |data| == 0 ==> r == 0.0
    ensures |data| > 0 ==> r == Quantile(data, 3 * |data| / 4) - Quantile(data, |data| / 4)
  {
    if |data| == 0 then 0.0
    else
      var s := SortValues(data, false);
      var n := |s|;
      s[3 * n / 4] - s[n / 4]
  }

  /** The interquartile range does not depend on the order of the data. */
  lemma IqrPermutation(a: seq<real>, b: seq<real>)
    requires multiset(a) == multiset(b)
    ensures Iqr(a) == Iqr(b)
  {
    assert |a| == |multiset(a)| == |multiset(b)| == |b|;
    if |a| > 0 {
      QuantilePermutation(a, b, 3 * |a| / 4);
      QuantilePermutation(a, b, |a| / 4);
    }
  }

  datatype Fences = Fences(lower: real, upper: real)

  /** `q1 - 1.5 * iqr` and `q3 + 1.5 * iqr`. */
  function TukeyFences(data: seq<real>): (f: Fences)
    requires |data| > 0
    ensures f.lower <= Quantile(data, |data| / 4) <= Quantile(data, 3 * |data| / 4) <= f.upper
    ensures f.upper - f.lower == 4.0 * Iqr(data)
  {
    var q1 := Quantile(data, |data| / 4);
    var q3 := Quantile(data, 3 * |data| / 4);
    var iqr := Iqr(data);
    Fences(q1 - 1.5 * iqr, q3 + 1.5 * iqr)
  }

  predicate Outside(x: real, f: Fences)
  {
    x < f.lower || x > f.upper
  }

  /** `[x for x in xs if x < lower or x > upper]` when `outside`, and
      `[x for x in xs if lower <= x <= upper]` otherwise. */
  function Select(xs: seq<real>, f: Fences, outside: bool): (r: seq<real>)
    ensures |r| <= |xs|
    ensures forall x :: x in r <==> x in xs && Outside(x, f) == outside
  {
    if |xs| == 0 then []
    else
      var p := xs[..|xs| - 1];
      var x := xs[|xs| - 1];
      assert xs == p + [x];
      Select(p, f, outside) + (if Outside(x, f) == outside then [x] else [])
  }

  /** `min(xs)`. */
  function MinOf(xs: seq<real>): (m: real)
    requires |xs| > 0
    ensures m in xs && forall x :: x in xs ==> m <= x
  {
    if |xs| == 1 then xs[0]
    else
      var m := MinOf(xs[1..]);
      assert forall x :: x in xs ==> x == xs[0] || x in xs[1..];
      if xs[0] <= m then xs[0] else m
  }

  /** `max(xs)`. */
  function MaxOf(xs: seq<real>): (m: real)
    requires |xs| > 0
    ensures m in xs && forall x :: x in xs ==> x <= m
  {
    if |xs| == 1 then xs[0]
    else
      var m := MaxOf(xs[1..]);
      assert forall x :: x in xs ==> x == xs[0] || x in xs[1..];
      if xs[0] >= m then xs[0] else m
  }

  /** Lists with the same members have the same minimum and maximum. */
  lemma SameExtremes(a: seq<real>, b: seq<real>)
    requires |a| > 0 && |b| > 0
    requires forall x :: x in a <==> x in b
    ensures MinOf(a) == MinOf(b) && MaxOf(a) == MaxOf(b)
  {
    assert MinOf(a) <= MinOf(b) && MinOf(b) <= MinOf(a);
    assert MaxOf(a) <= MaxOf(b) && MaxOf(b) <= MaxOf(a);
  }

  /** The first-quartile value lies between the fences, so the list of
      non-outliers is never empty and the `min(sorted_data)` fallback of
      `check_outliers_extent` is never used. */
  lemma InsideNonEmpty(data: seq<real>)
    requires |data| > 0
    ensures |Select(data, TukeyFences(data), false)| > 0
  {
    var q1 := Quantile(data, |data| / 4);
    assert q1 in Select(data, TukeyFences(data), false);
  }

  /** Some value lies outside the fences. */
  predicate HasOutlier(data: seq<real>)
    requires |data| > 0
  {
    exists i :: 0 <= i < |data| && Outside(data[i], TukeyFences(data))
  }

  /** How far the outliers stretch the data beyond the non-outliers: from the
      smallest value up to the smallest non-outlier when the smallest value is
      below the lower fence, plus from the largest non-outlier up to the
      largest value when that is above the upper fence. It is never negative
      and never more than the whole range. */
  function Extent(data: seq<real>): (e: real)
    requires |data| > 0
    ensures 0.0 <= e <= MaxOf(data) - MinOf(data)
  {
    var f := TukeyFences(data);
    InsideNonEmpty(data);
    var inside := Select(data, f, false);
    var lo := MinOf(data);
    var hi := MaxOf(data);
    assert lo <= MinOf(inside) <= MaxOf(inside) <= hi by {
      assert MinOf(inside) in data && MaxOf(inside) in data && MinOf(inside) in inside;
    }
    (if lo < f.lower then MinOf(inside) - lo else 0.0) + (if hi > f.upper then hi - MaxOf(inside) else 0.0)
  }

  /** `outlier_extent` from the smallest and largest outlier and the
      smallest and largest non-outlier. */
  function OutlierExtent(oMin: real, oMax: real, iMin: real, iMax: real): real
  {
    (if oMin < iMin then iMin - oMin else 0.0) + (if oMax > iMax then oMax - iMax else 0.0)
  }

  /** The comparisons `check_outliers_extent` makes on the extremes: the smallest outlier
      lies below the smallest non-outlier exactly when the smallest value is
      below the lower fence, and it is then the smallest value; likewise at
      the top. */
  lemma Sides(lo: real, hi: real, oMin: real, oMax: real, iMin: real, iMax: real, f: Fences)
    requires lo <= oMin && oMax <= hi && lo <= iMin && iMax <= hi
    requires f.lower <= iMin <= iMax <= f.upper
    requires Outside(oMin, f) && Outside(oMax, f) && oMin <= oMax
    requires lo < f.lower ==> oMin <= lo
    requires hi > f.upper ==> hi <= oMax
    ensures oMin < iMin <==> lo < f.lower
    ensures lo < f.lower ==> oMin == lo
    ensures oMax > iMax <==> hi > f.upper
    ensures hi > f.upper ==> oMax == hi
  {
  }

  /** `a` and `b` hold the same values, perhaps in another order or count. */
  ghost predicate SameMembers(a: seq<real>, b: seq<real>)
  {
    forall x :: x in a <==> x in b
  }

  /** The non-outliers of `xs` and of `data` have the same extremes. */
  lemma InsideAgrees(data: seq<real>, xs: seq<real>)
    requires |data| > 0 && SameMembers(xs, data)
    ensures |Select(xs, TukeyFences(data), false)| > 0
    ensures MinOf(Select(xs, TukeyFences(data), false)) == MinOf(Select(data, TukeyFences(data), false))
    ensures MaxOf(Select(xs, TukeyFences(data), false)) == MaxOf(Select(data, TukeyFences(data), false))
  {
    var f := TukeyFences(data);
    InsideNonEmpty(data);
    var inside := Select(xs, f, false);
    var dataInside := Select(data, f, false);
    forall x ensures x in inside <==> x in dataInside {
      assert x in inside <==> x in xs && !Outside(x, f);
      assert x in dataInside <==> x in data && !Outside(x, f);
    }
    assert dataInside[0] in dataInside;
    SameExtremes(inside, dataInside);
  }

  /** The outliers of `xs` lie within the range of `data`, and reach its
      ends whenever those are beyond the fences. */
  lemma OutliersReach(data: seq<real>, xs: seq<real>)
    requires |data| > 0 && SameMembers(xs, data)
    requires |Select(xs, TukeyFences(data), true)| > 0
    ensures var f := TukeyFences(data);
      var outliers := Select(xs, f, true);
      && MinOf(data) <= MinOf(outliers) <= MaxOf(outliers) <= MaxOf(data)
      && Outside(MinOf(outliers), f) && Outside(MaxOf(outliers), f)
      && (MinOf(data) < f.lower ==> MinOf(outliers) <= MinOf(data))
      && (MaxOf(data) > f.upper ==> MaxOf(data) <= MaxOf(outliers))
  {
    var f := TukeyFences(data);
    var outliers := Select(xs, f, true);
    var lo := MinOf(data);
    var hi := MaxOf(data);
    assert MinOf(outliers) in xs && MaxOf(outliers) in xs;
    assert lo in xs && hi in xs;
    assert lo < f.lower ==> lo in outliers;
    assert hi > f.upper ==> hi in outliers;
  }

  /** The non-outliers of `data` lie within its range and between the fences. */
  lemma InsideBounds(data: seq<real>)
    requires |data| > 0
    ensures var f := TukeyFences(data);
      var inside := Select(data, f, false);
      && |inside| > 0
      && MinOf(data) <= MinOf(inside) <= MaxOf(inside) <= MaxOf(data)
      && f.lower <= MinOf(inside) && MaxOf(inside) <= f.upper
  {
    var f := TukeyFences(data);
    InsideNonEmpty(data);
    var inside := Select(data, f, false);
    assert MinOf(inside) in inside && MaxOf(inside) in inside;
  }

  /** On any list with the members of `data`, in any order,
      `check_outliers_extent` gives `Extent(data)`. */
  lemma OutlierExtentIsExtent(data: seq<real>, xs: seq<real>)
    requires |data| > 0 && SameMembers(xs, data)
    requires |Select(xs, TukeyFences(data), true)| > 0
    ensures var f := TukeyFences(data);
      var outliers := Select(xs, f, true);
      var inside := Select(xs, f, false);
      && |inside| > 0
      && OutlierExtent(MinOf(outliers), MaxOf(outliers), MinOf(inside), MaxOf(inside)) == Extent(data)
  {
    var f := TukeyFences(data);
    InsideNonEmpty(data);
    InsideAgrees(data, xs);
    OutliersReach(data, xs);
    InsideBounds(data);
    var outliers := Select(xs, f, true);
    var dataInside := Select(data, f, false);
    var lo, hi := MinOf(data), MaxOf(data);
    var oMin, oMax := MinOf(outliers), MaxOf(outliers);
    var iMin, iMax := MinOf(dataInside), MaxOf(dataInside);
    Sides(lo, hi, oMin, oMax, iMin, iMax, f);
    assert Extent(data) == (if lo < f.lower then iMin - lo else 0.0) + (if hi > f.upper then hi - iMax else 0.0);
  }

  /** `check_outliers_extent(data)`: false for at most four values; otherwise
      the values are sorted, the fences are placed, and the answer is false
      when nothing lies outside them and otherwise whether the outlier extent
      exceeds a third of `max - min`. */
  function CheckOutliersExtent(data: seq<real>): (r: bool)
    ensures r <==> |data| > 4 && HasOutlier(data) && Extent(data) > (MaxOf(data) - MinOf(data)) / 3.0
  {
    if |data| <= 4 then false
    else
      var s := SortValues(data, false);
      var n := |s|;
      var q1 := s[n / 4];
      var q3 := s[3 * n / 4];
      var iqr := q3 - q1;
      var f := Fences(q1 - 1.5 * iqr, q3 + 1.5 * iqr);
      assert f == TukeyFences(data);
      assert SameMembers(s, data) by {
        forall x ensures x in s <==> x in data {
          assert x in s <==> x in multiset(s);
        }
      }
      var outliers := Select(s, f, true);
      OutlierFound(data, s);
      if |outliers| == 0 then false
      else
        var range := MaxOf(s) - MinOf(s);
        var inside := Select(s, f, false);
        var iMin := if |inside| > 0 then MinOf(inside) else MinOf(s);
        var iMax := if |inside| > 0 then MaxOf(inside) else MaxOf(s);
        var extent := OutlierExtent(MinOf(outliers), MaxOf(outliers), iMin, iMax);
        assert s[0] in s;
        SameExtremes(s, data);
        OutlierExtentIsExtent(data, s);
        extent > range / 3.0
  }

  /** The sorted copy has an outlier exactly when the data has one. */
  lemma OutlierFound(data: seq<real>, s: seq<real>)
    requires |data| > 0 && SameMembers(s, data)
    ensures |Select(s, TukeyFences(data), true)| > 0 <==> HasOutlier(data)
  {
    var f := TukeyFences(data);
    var outliers := Select(s, f, true);
    if |outliers| > 0 {
      var x := outliers[0];
      assert x in outliers;
      assert x in s && Outside(x, f);
      assert x in data;
      var i :| 0 <= i < |data| && data[i] == x;
    }
    if HasOutlier(data) {
      var i :| 0 <= i < |data| && Outside(data[i], f);
      assert data[i] in outliers;
    }
  }
}
