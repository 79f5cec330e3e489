/**
 * The per-interaction recomputation of update_graph in src/app.py: the region and
 * year-range filter, the trend-mode dispatch and the yearly mean overlay. Figures are
 * described by what they plot; plotly's rendering and the OLS fit are outside the model.
 */
module Graph {
  import opened Wrappers
  import opened Loader

  // ---------------------------------------------------------------- filter

  /** Line 134's mask: the chosen region and a recorded year inside the inclusive range. */
  predicate Selected(row: Row, region: string, lo: int, hi: int) {
    row.region == region && row.year.Some? && lo <= row.year.value <= hi
  }

  /** data[mask]: the selected rows, in table order. */
  function Filter(rows: seq<Row>, region: string, lo: int, hi: int): (r: seq<Row>)
    ensures |r| <= |rows|
    ensures forall x :: x in r ==> x in rows && Selected(x, region, lo, hi)
    ensures forall x :: multiset(r)[x] == if Selected(x, region, lo, hi) then multiset(rows)[x] else 0
    ensures lo > hi ==> r == []
  {
    if rows == [] then []
    else
      assert rows == [rows[0]] + rows[1..];
      (if Selected(rows[0], region, lo, hi) then [rows[0]] else []) + Filter(rows[1..], region, lo, hi)
  }

  /** `a` is `b` with some elements left out, the others in their order. */
  ghost predicate IsSubsequence(a: seq<Row>, b: seq<Row>)
    decreases |b|
  {
    a == [] ||
    (b != [] && ((a[0] == b[0] && IsSubsequence(a[1..], b[1..])) || IsSubsequence(a, b[1..])))
  }

  /** The filter keeps the table's order. */
  lemma {:induction false} FilterIsSubsequence(rows: seq<Row>, region: string, lo: int, hi: int)
    ensures IsSubsequence(Filter(rows, region, lo, hi), rows)
  {
    if rows != [] {
      FilterIsSubsequence(rows[1..], region, lo, hi);
      var rest := Filter(rows[1..], region, lo, hi);
      if Selected(rows[0], region, lo, hi) {
        assert Filter(rows, region, lo, hi) == [rows[0]] + rest;
        assert ([rows[0]] + rest)[1..] == rest;
      } else {
        assert Filter(rows, region, lo, hi) == rest;
      }
    }
  }

  /** So a sorted table filters to a sorted series. */
  lemma {:induction false} FilterKeepsSorted(rows: seq<Row>, region: string, lo: int, hi: int)
    requires SortedRows(rows)
    ensures SortedRows(Filter(rows, region, lo, hi))
  {
    if rows != [] {
      FilterKeepsSorted(rows[1..], region, lo, hi);
      var rest := Filter(rows[1..], region, lo, hi);
      if Selected(rows[0], region, lo, hi) {
        FirstBeforeAll(rows);
        ConsSorted(rows[0], rest);
      }
    }
  }

  /** A row at or before every row of a sorted table can be put in front of it. */
  lemma ConsSorted(x: Row, rest: seq<Row>)
    requires SortedRows(rest)
    requires forall y :: y in rest ==> Before(RowKey(x), RowKey(y))
    ensures SortedRows([x] + rest)
  {
    var r := [x] + rest;
    forall i, j | 0 <= i < j < |r| ensures Before(RowKey(r[i]), RowKey(r[j])) {
      assert r[j] == rest[j - 1];
      if i > 0 {
        assert r[i] == rest[i - 1];
      }
    }
  }

  /** In a sorted table the first row's key is at or before every later row's. */
  lemma FirstBeforeAll(rows: seq<Row>)
    requires SortedRows(rows) && rows != []
    ensures forall x :: x in rows[1..] ==> Before(RowKey(rows[0]), RowKey(x))
  {
    forall x | x in rows[1..] ensures Before(RowKey(rows[0]), RowKey(x)) {
      var j :| 0 <= j < |rows[1..]| && rows[1..][j] == x;
      assert rows[j + 1] == x;
    }
  }

  // ---------------------------------------------------------------- yearly trend

  /** A row's group in groupby(PeriodIndex(Date, freq="Y")): the year of its date; NaT rows join none. */
  predicate InYear(row: Row, y: int) {
    row.date.Some? && row.date.value.year == y
  }

  /** Some row of `rows` falls in year `y`. */
  ghost predicate HasYear(rows: seq<Row>, y: int) {
    exists i :: 0 <= i < |rows| && InYear(rows[i], y)
  }

  predicate StrictlyIncreasing(ys: seq<int>) {
    forall i, j :: 0 <= i < j < |ys| ==> ys[i] < ys[j]
  }

  function InsertYear(y: int, ys: seq<int>): (r: seq<int>)
    requires StrictlyIncreasing(ys)
    ensures StrictlyIncreasing(r)
    ensures forall z :: z in r <==> z in ys || z == y
  {
    if ys == [] || y < ys[0] then [y] + ys
    else if y == ys[0] then ys
    else
      var rest := InsertYear(y, ys[1..]);
      assert forall k :: 0 <= k < |rest| ==> rest[k] in ys[1..] || rest[k] == y;
      [ys[0]] + rest
  }

  /** The group keys, sorted as groupby sorts them: each year that some dated row falls in, once. */
  function GroupYears(rows: seq<Row>): (ys: seq<int>)
    ensures StrictlyIncreasing(ys)
    ensures forall y :: y in ys <==> HasYear(rows, y)
  {
    if rows == [] then []
    else
      var rest := GroupYears(rows[1..]);
      assert forall y :: HasYear(rows, y) <==> InYear(rows[0], y) || HasYear(rows[1..], y) by {
        forall y ensures HasYear(rows, y) <==> InYear(rows[0], y) || HasYear(rows[1..], y) {
          if HasYear(rows, y) && !InYear(rows[0], y) {
            var i :| 0 <= i < |rows| && InYear(rows[i], y);
            assert InYear(rows[1..][i - 1], y);
          }
          if HasYear(rows[1..], y) {
            var i :| 0 <= i < |rows[1..]| && InYear(rows[1..][i], y);
            assert InYear(rows[i + 1], y);
          }
        }
      }
      if rows[0].date.Some? then InsertYear(rows[0].date.value.year, rest) else rest
  }

  /** The recorded extents of year `y`'s group, in table order (mean() skips the missing ones). */
  function YearExtents(rows: seq<Row>, y: int): (xs: seq<real>)
    ensures |xs| <= |rows|
  {
    if rows == [] then [] else RowExtent(rows[0], y) + YearExtents(rows[1..], y)
  }

  /** A row's contribution to year `y`'s group: its extent, when it is in the year and recorded. */
  function RowExtent(row: Row, y: int): seq<real> {
    if InYear(row, y) && row.extent.Some? then [row.extent.value] else []
  }

  /**
   * The group's extents are taken row by row in table order: a single row gives its extent
   * when it is in the year and recorded, and two runs of rows give their extents appended.
   */
  lemma {:induction false} YearExtentsAppend(a: seq<Row>, b: seq<Row>, y: int)
    ensures YearExtents(a + b, y) == YearExtents(a, y) + YearExtents(b, y)
    ensures |a| == 1 ==> YearExtents(a, y) == RowExtent(a[0], y)
  {
    if a == [] {
      assert a + b == b;
    } else {
      var ab := a + b;
      assert ab[0] == a[0] && ab[1..] == a[1..] + b;
      YearExtentsAppend(a[1..], b, y);
      var h := RowExtent(a[0], y);
      assert YearExtents(ab, y) == h + YearExtents(a[1..] + b, y);
      ConcatAssoc(h, YearExtents(a[1..], y), YearExtents(b, y));
      if |a| == 1 {
        assert a[1..] == [];
      }
    }
  }

  /** A value is among the group's extents exactly when some row of the year records it. */
  lemma {:induction false} YearExtentsMembers(rows: seq<Row>, y: int, v: real)
    ensures v in YearExtents(rows, y) <==>
              exists k :: 0 <= k < |rows| && InYear(rows[k], y) && rows[k].extent == Some(v)
  {
    if rows != [] {
      YearExtentsMembers(rows[1..], y, v);
      if v in YearExtents(rows[1..], y) {
        var k :| 0 <= k < |rows[1..]| && InYear(rows[1..][k], y) && rows[1..][k].extent == Some(v);
        assert rows[k + 1] == rows[1..][k];
      }
      if exists k :: 0 <= k < |rows| && InYear(rows[k], y) && rows[k].extent == Some(v) {
        var k :| 0 <= k < |rows| && InYear(rows[k], y) && rows[k].extent == Some(v);
        if k > 0 {
          assert rows[1..][k - 1] == rows[k];
        }
      }
    }
  }


  function Sum(xs: seq<real>): real {
    if xs == [] then 0.0 else xs[0] + Sum(xs[1..])
  }

  /** Series.mean(): missing for a group with no recorded value. */
  function Mean(xs: seq<real>): Option<real> {
    if xs == [] then None else Some(Sum(xs) / |xs| as real)
  }

  lemma {:induction false} SumWithin(xs: seq<real>, lo: real, hi: real)
    requires forall k :: 0 <= k < |xs| ==> lo <= xs[k] <= hi
    ensures |xs| as real * lo <= Sum(xs) <= |xs| as real * hi
  {
    if xs != [] {
      SumWithin(xs[1..], lo, hi);
      assert |xs| as real * lo == lo + (|xs| - 1) as real * lo;
      assert |xs| as real * hi == hi + (|xs| - 1) as real * hi;
    }
  }

  /** A mean lies between any bounds of the values it averages. */
  lemma MeanWithin(xs: seq<real>, lo: real, hi: real)
    requires forall k :: 0 <= k < |xs| ==> lo <= xs[k] <= hi
    ensures Mean(xs).Some? ==> lo <= Mean(xs).value <= hi
  {
    if xs != [] {
      SumWithin(xs, lo, hi);
      var n := |xs| as real;
      var m := Sum(xs) / n;
      var below, above := Sum(xs) - n * lo, n * hi - Sum(xs);
      assert m - lo == below / n && below / n >= 0.0;
      assert hi - m == above / n && above / n >= 0.0;
    }
  }

  /** A date plus pd.DateOffset(months=n), for a day that exists in every month. */
  function AddMonths(d: Date, n: nat): Date
    requires 1 <= d.month <= 12
  {
    var k := d.month - 1 + n;
    Date(d.year + k / 12, k % 12 + 1, d.day)
  }

  /** One point of the yearly overlay. */
  datatype Point = Point(date: Date, value: Option<real>)

  /** The point of year `y`: Period(y).to_timestamp() + 6 months, and the group's mean. */
  function YearPoint(rows: seq<Row>, y: int): (p: Point)
    ensures p.date == Date(y, 7, 1)
    ensures p.value.None? <==> YearExtents(rows, y) == []
  {
    Point(AddMonths(Date(y, 1, 1), 6), Mean(YearExtents(rows, y)))
  }

  /** groupby(year of Date)[' extent'].mean(), one point per group in ascending year order. */
  function YearlyTrend(rows: seq<Row>): (pts: seq<Point>)
    ensures |pts| == |GroupYears(rows)|
    ensures forall i :: 0 <= i < |pts| ==> pts[i] == YearPoint(rows, GroupYears(rows)[i])
  {
    var ys := GroupYears(rows);
    seq(|ys|, i requires 0 <= i < |ys| => YearPoint(rows, ys[i]))
  }

  /**
   * The yearly overlay has one point per year that some dated row falls in, in strictly
   * ascending order, dated July 1 of that year.
   */
  lemma YearlyTrendYears(rows: seq<Row>)
    ensures forall i, j :: 0 <= i < j < |YearlyTrend(rows)| ==>
              YearlyTrend(rows)[i].date.year < YearlyTrend(rows)[j].date.year
    ensures forall i :: 0 <= i < |YearlyTrend(rows)| ==>
              var d := YearlyTrend(rows)[i].date;
              d.month == 7 && d.day == 1 && HasYear(rows, d.year)
    ensures forall y :: HasYear(rows, y) ==>
              exists i :: 0 <= i < |YearlyTrend(rows)| && YearlyTrend(rows)[i].date.year == y
  {
    var ys := GroupYears(rows);
    forall y | HasYear(rows, y)
      ensures exists i :: 0 <= i < |YearlyTrend(rows)| && YearlyTrend(rows)[i].date.year == y
    {
      assert y in ys;
      var i :| 0 <= i < |ys| && ys[i] == y;
      assert YearlyTrend(rows)[i].date.year == y;
    }
  }

  /**
   * Each point's value is the mean of its year's recorded extents: missing when the year has
   * none (the group is still there), otherwise within the range of those extents.
   */
  lemma YearlyTrendValues(rows: seq<Row>, i: int, lo: real, hi: real)
    requires 0 <= i < |YearlyTrend(rows)|
    requires forall k ::
               (0 <= k < |rows| && InYear(rows[k], YearlyTrend(rows)[i].date.year) && rows[k].extent.Some?)
               ==> lo <= rows[k].extent.value <= hi
    ensures var p := YearlyTrend(rows)[i];
            && p.value == Mean(YearExtents(rows, p.date.year))
            && (p.value.None? <==>
                  forall k :: 0 <= k < |rows| && InYear(rows[k], p.date.year) ==> rows[k].extent.None?)
            && (p.value.Some? ==> lo <= p.value.value <= hi)
  {
    var y := YearlyTrend(rows)[i].date.year;
    YearExtentsSpec(rows, y, lo, hi);
    MeanWithin(YearExtents(rows, y), lo, hi);
  }

  lemma {:induction false} YearExtentsSpec(rows: seq<Row>, y: int, lo: real, hi: real)
    requires forall k :: 0 <= k < |rows| && InYear(rows[k], y) && rows[k].extent.Some? ==>
               lo <= rows[k].extent.value <= hi
    ensures YearExtents(rows, y) == [] <==>
              forall k :: 0 <= k < |rows| && InYear(rows[k], y) ==> rows[k].extent.None?
    ensures forall k :: 0 <= k < |YearExtents(rows, y)| ==> lo <= YearExtents(rows, y)[k] <= hi
  {
    if rows != [] {
      YearExtentsSpec(rows[1..], y, lo, hi);
      assert forall k :: 1 <= k < |rows| ==> rows[k] == rows[1..][k - 1];
    }
  }

  // ---------------------------------------------------------------- trend dispatch

  /** What update_graph adds on top of the filtered series. */
  datatype Overlay =
    | NoOverlay                          // 'None', and every unknown mode
    | YearlyOverlay(points: seq<Point>)  // 'Yearly': add_scatter of the yearly means
    | LinearOverlay                      // 'Linear': px.scatter with an OLS trendline

  /**
   * The if/elif chain of update_graph. The last test, `elif 'None'`, tests a non-empty string
   * and always succeeds, so every mode but 'Yearly' and 'Linear' draws no overlay.
   */
  function TrendOverlay(mode: string, filtered: seq<Row>): (o: Overlay)
    ensures o.YearlyOverlay? <==> mode == "Yearly"
    ensures o.LinearOverlay? <==> mode == "Linear"
    ensures o.NoOverlay? <==> mode != "Yearly" && mode != "Linear"
    ensures o.YearlyOverlay? ==> o.points == YearlyTrend(filtered)
  {
    if mode == "Yearly" then YearlyOverlay(YearlyTrend(filtered))
    else if mode == "Linear" then LinearOverlay
    else NoOverlay
  }

  /** A figure: the series plotted (Date against extent, coloured by region) and its overlay. */
  datatype Figure = Figure(series: seq<Row>, overlay: Overlay)

  /** update_graph(value_region, value_year, value_trend). */
  function UpdateGraph(rows: seq<Row>, region: string, lo: int, hi: int, mode: string): (fig: Figure)
    ensures fig.series == Filter(rows, region, lo, hi)
    ensures forall x :: x in fig.series <==> x in rows && Selected(x, region, lo, hi)
    ensures fig.overlay == TrendOverlay(mode, fig.series)
  {
    var filtered := Filter(rows, region, lo, hi);
    Figure(filtered, TrendOverlay(mode, filtered))
  }

  /** A row whose date, when present, was built from its own year. */
  predicate DatedByYear(row: Row) {
    row.date.Some? ==> row.year == Some(row.date.value.year)
  }

  /** On a loaded table, every yearly point falls inside the selected year range. */
  lemma YearlyWithinRange(rows: seq<Row>, region: string, lo: int, hi: int)
    requires forall x :: x in rows ==> DatedByYear(x)
    ensures forall i :: 0 <= i < |YearlyTrend(Filter(rows, region, lo, hi))| ==>
              lo <= YearlyTrend(Filter(rows, region, lo, hi))[i].date.year <= hi
  {
    var filtered := Filter(rows, region, lo, hi);
    YearlyTrendYears(filtered);
    forall i | 0 <= i < |YearlyTrend(filtered)| ensures lo <= YearlyTrend(filtered)[i].date.year <= hi {
      var y := YearlyTrend(filtered)[i].date.year;
      assert HasYear(filtered, y);
      var k :| 0 <= k < |filtered| && InYear(filtered[k], y);
      assert filtered[k] in filtered;
    }
  }

  /** Two months of 2010 with extents 5.0 and 7.0 and one month of 2011 with a missing extent. */
  lemma YearlyExample(a: Row, b: Row, c: Row)
    requires a.date == Some(Date(2010, 1, 1)) && a.extent == Some(5.0)
    requires b.date == Some(Date(2010, 2, 1)) && b.extent == Some(7.0)
    requires c.date == Some(Date(2011, 1, 1)) && c.extent == None
    ensures YearlyTrend([a, b, c]) == [Point(Date(2010, 7, 1), Some(6.0)), Point(Date(2011, 7, 1), None)]
  {
    ExampleYears(a, b, c);
    ExampleExtents(a, b, c);
    assert Sum([5.0, 7.0]) == 12.0 by {
      assert [5.0, 7.0][1..] == [7.0] && [7.0][1..] == [];
    }
    assert YearPoint([a, b, c], 2010) == Point(Date(2010, 7, 1), Some(6.0));
    assert YearPoint([a, b, c], 2011) == Point(Date(2011, 7, 1), None);
  }

  lemma ExampleYears(a: Row, b: Row, c: Row)
    requires a.date == Some(Date(2010, 1, 1))
    requires b.date == Some(Date(2010, 2, 1))
    requires c.date == Some(Date(2011, 1, 1))
    ensures GroupYears([a, b, c]) == [2010, 2011]
  {
    assert [a, b, c][1..] == [b, c] && [b, c][1..] == [c] && [c][1..] == [];
    assert GroupYears([c]) == InsertYear(2011, []) == [2011];
    assert GroupYears([b, c]) == InsertYear(2010, [2011]) == [2010, 2011];
    assert GroupYears([a, b, c]) == InsertYear(2010, [2010, 2011]) == [2010, 2011];
  }

  lemma ExampleExtents(a: Row, b: Row, c: Row)
    requires a.date == Some(Date(2010, 1, 1)) && a.extent == Some(5.0)
    requires b.date == Some(Date(2010, 2, 1)) && b.extent == Some(7.0)
    requires c.date == Some(Date(2011, 1, 1)) && c.extent == None
    ensures YearExtents([a, b, c], 2010) == [5.0, 7.0]
    ensures YearExtents([a, b, c], 2011) == []
  {
    assert [a, b, c][1..] == [b, c] && [b, c][1..] == [c] && [c][1..] == [];
    assert YearExtents([c], 2010) == [] && YearExtents([c], 2011) == [];
    assert YearExtents([b, c], 2010) == [7.0] && YearExtents([b, c], 2011) == [];
  }
}
