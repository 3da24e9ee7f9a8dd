/** `plot_df.groupby("Year").sum().reset_index()` (app.py:110): one row per distinct year,
    in ascending year order, each column the sum of that year's values with missing values
    skipped. A year whose values are all missing sums to 0 (pandas' default), it is not
    dropped. */
module Grouping {
  import opened Panel
  import opened Projection

  predicate StrictlyIncreasing(ys: seq<int>) {
    forall i, j :: 0 <= i < j < |ys| ==> ys[i] < ys[j]
  }

  /** Some row of `plot` is for year `y`. */
  predicate HasYear(plot: seq<PlotRow>, y: int) {
    exists i :: 0 <= i < |plot| && plot[i].year == y
  }

  /** Puts `y` into an ascending list of distinct years, once. */
  function InsertYear(ys: seq<int>, y: int): (r: seq<int>)
    requires StrictlyIncreasing(ys)
    ensures StrictlyIncreasing(r)
    ensures forall z :: z in r <==> z in ys || z == y
  {
    if |ys| == 0 || y < ys[0] then [y] + ys
    else if y == ys[0] then ys
    else
      var rest := InsertYear(ys[1..], y);
      assert ys == [ys[0]] + ys[1..];
      assert forall k :: 0 <= k < |rest| ==> ys[0] < rest[k] by {
        forall k | 0 <= k < |rest| ensures ys[0] < rest[k] {
          var z := rest[k];
          assert z in rest;
          if z in ys[1..] {
            var j :| 0 <= j < |ys[1..]| && ys[1..][j] == z;
            assert ys[j + 1] == z;
          }
        }
      }
      var r := [ys[0]] + rest;
      assert StrictlyIncreasing(r) by {
        forall i, j | 0 <= i < j < |r| ensures r[i] < r[j] {
          if i == 0 {
            assert r[j] == rest[j - 1];
          } else {
            assert r[i] == rest[i - 1] && r[j] == rest[j - 1];
          }
        }
      }
      r
  }

  /** The group keys: the distinct years of `plot`, ascending. */
  function DistinctYears(plot: seq<PlotRow>): (ys: seq<int>)
    ensures StrictlyIncreasing(ys)
    ensures forall y :: y in ys <==> HasYear(plot, y)
  {
    if |plot| == 0 then []
    else
      var rest := DistinctYears(plot[1..]);
      assert forall y :: HasYear(plot, y) <==> y == plot[0].year || HasYear(plot[1..], y) by {
        forall y | HasYear(plot, y) ensures y == plot[0].year || HasYear(plot[1..], y) {
          var i :| 0 <= i < |plot| && plot[i].year == y;
          if i > 0 {
            assert plot[1..][i - 1].year == y;
          }
        }
        forall y | HasYear(plot[1..], y) ensures HasYear(plot, y) {
          var i :| 0 <= i < |plot[1..]| && plot[1..][i].year == y;
          assert plot[i + 1].year == y;
        }
        assert HasYear(plot, plot[0].year) by {
          assert plot[0].year == plot[0].year;
        }
      }
      InsertYear(rest, plot[0].year)
  }

  /** What a cell adds to a column sum: `sum` skips NaN. */
  function Contribution(v: Option<real>): real {
    if v.Some? then v.value else 0.0
  }

  /** The sum of column `c` over the rows of year `y`. */
  function YearTotal(plot: seq<PlotRow>, y: int, c: Series): real {
    if |plot| == 0 then 0.0
    else (if plot[0].year == y then Contribution(Cell(plot[0], c)) else 0.0) + YearTotal(plot[1..], y, c)
  }

  /** The sum of column `c` over all rows. */
  function ColumnTotal(plot: seq<PlotRow>, c: Series): real {
    if |plot| == 0 then 0.0 else Contribution(Cell(plot[0], c)) + ColumnTotal(plot[1..], c)
  }

  function GroupRow(plot: seq<PlotRow>, y: int): PlotRow {
    PlotRow(y, Some(YearTotal(plot, y, EnowValue)), Some(YearTotal(plot, y, QcewWithImputation)),
            Some(YearTotal(plot, y, NpStatesEst)))
  }

  /** One row per distinct year, ascending; every cell is present and holds the year's sum. */
  function GroupByYear(plot: seq<PlotRow>): (grouped: seq<PlotRow>)
    ensures forall i, j :: 0 <= i < j < |grouped| ==> grouped[i].year < grouped[j].year
    ensures forall y :: HasYear(grouped, y) <==> HasYear(plot, y)
    ensures forall i, c :: 0 <= i < |grouped| ==> Cell(grouped[i], c) == Some(YearTotal(plot, grouped[i].year, c))
  {
    var ys := DistinctYears(plot);
    var grouped := seq(|ys|, i requires 0 <= i < |ys| => GroupRow(plot, ys[i]));
    assert forall y :: HasYear(grouped, y) <==> y in ys by {
      forall y | y in ys ensures HasYear(grouped, y) {
        var k :| 0 <= k < |ys| && ys[k] == y;
        assert grouped[k].year == y;
      }
    }
    grouped
  }

  /** A year in which every value of a column is missing still gets a row, with 0 in that
      column. */
  lemma {:induction false} AllMissingYearSumsToZero(plot: seq<PlotRow>, y: int, c: Series)
    requires forall i :: 0 <= i < |plot| && plot[i].year == y ==> Cell(plot[i], c).None?
    ensures YearTotal(plot, y, c) == 0.0
  {
    if |plot| > 0 {
      AllMissingYearSumsToZero(plot[1..], y, c);
    }
  }

  /** Moving the first row out of a sum over distinct years. */
  lemma {:induction false} TotalOverYearsFirstRow(plot: seq<PlotRow>, ys: seq<int>, c: Series)
    requires |plot| > 0 && StrictlyIncreasing(ys)
    ensures TotalOverYears(plot, ys, c)
         == TotalOverYears(plot[1..], ys, c) + (if plot[0].year in ys then Contribution(Cell(plot[0], c)) else 0.0)
  {
    if |ys| > 0 {
      TotalOverYearsFirstRow(plot, ys[1..], c);
      assert plot[0].year in ys <==> plot[0].year == ys[0] || plot[0].year in ys[1..];
    }
  }

  /** The year totals of `plot` added up over the years `ys`. */
  function TotalOverYears(plot: seq<PlotRow>, ys: seq<int>, c: Series): real {
    if |ys| == 0 then 0.0 else YearTotal(plot, ys[0], c) + TotalOverYears(plot, ys[1..], c)
  }

  lemma {:induction false} TotalOverCoveringYears(plot: seq<PlotRow>, ys: seq<int>, c: Series)
    requires StrictlyIncreasing(ys)
    requires forall i :: 0 <= i < |plot| ==> plot[i].year in ys
    ensures TotalOverYears(plot, ys, c) == ColumnTotal(plot, c)
  {
    if |plot| == 0 {
      AllYearsEmpty(ys, c);
    } else {
      TotalOverYearsFirstRow(plot, ys, c);
      TotalOverCoveringYears(plot[1..], ys, c);
    }
  }

  lemma {:induction false} AllYearsEmpty(ys: seq<int>, c: Series)
    ensures TotalOverYears([], ys, c) == 0.0
  {
    if |ys| > 0 {
      AllYearsEmpty(ys[1..], c);
    }
  }

  lemma {:induction false} GroupRowsTotal(g: seq<PlotRow>, plot: seq<PlotRow>, ys: seq<int>, c: Series)
    requires |g| == |ys|
    requires forall i :: 0 <= i < |g| ==> Cell(g[i], c) == Some(YearTotal(plot, ys[i], c))
    ensures ColumnTotal(g, c) == TotalOverYears(plot, ys, c)
  {
    if |g| > 0 {
      GroupRowsTotal(g[1..], plot, ys[1..], c);
    }
  }

  /** Grouping neither loses nor double-counts anything: every column's grand total is the
      same before and after. */
  lemma GroupingConservesTotals(plot: seq<PlotRow>, c: Series)
    ensures ColumnTotal(GroupByYear(plot), c) == ColumnTotal(plot, c)
  {
    var ys := DistinctYears(plot);
    var g := GroupByYear(plot);
    assert forall i :: 0 <= i < |plot| ==> plot[i].year in ys by {
      forall i | 0 <= i < |plot| ensures plot[i].year in ys {
        assert HasYear(plot, plot[i].year);
      }
    }
    assert |g| == |ys| && forall i :: 0 <= i < |g| ==> g[i].year == ys[i];
    GroupRowsTotal(g, plot, ys, c);
    TotalOverCoveringYears(plot, ys, c);
  }

  lemma {:induction false} ScalingKeepsYears(plot: seq<PlotRow>)
    ensures DistinctYears(ScaleToMillions(plot)) == DistinctYears(plot)
  {
    if |plot| > 0 {
      assert ScaleToMillions(plot)[1..] == ScaleToMillions(plot[1..]);
      ScalingKeepsYears(plot[1..]);
    }
  }

  lemma {:induction false} ScalingDividesYearTotal(plot: seq<PlotRow>, y: int, c: Series)
    ensures YearTotal(ScaleToMillions(plot), y, c) == YearTotal(plot, y, c) / Million
  {
    if |plot| > 0 {
      assert ScaleToMillions(plot)[1..] == ScaleToMillions(plot[1..]);
      ScalingDividesYearTotal(plot[1..], y, c);
      assert Contribution(Cell(ScaleToMillions(plot)[0], c)) == Contribution(Cell(plot[0], c)) / Million;
    }
  }

  /** In exact arithmetic it does not matter that the script rescales before it sums per
      year: summing first and rescaling the sums gives the same table. */
  lemma ScalingCommutesWithGrouping(plot: seq<PlotRow>)
    ensures GroupByYear(ScaleToMillions(plot)) == ScaleToMillions(GroupByYear(plot))
  {
    ScalingKeepsYears(plot);
    var ys := DistinctYears(plot);
    forall y | y in ys
      ensures GroupRow(ScaleToMillions(plot), y) == ScaleRow(GroupRow(plot, y))
    {
      ScalingDividesYearTotal(plot, y, EnowValue);
      ScalingDividesYearTotal(plot, y, QcewWithImputation);
      ScalingDividesYearTotal(plot, y, NpStatesEst);
    }
  }
}
