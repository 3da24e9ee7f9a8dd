/** The script's main path (app.py:78-110, 159-184): narrow the panel, build the plot
    table, and summarise how the two estimates differ from ENOW. */
module Dashboard {
  import opened Panel
  import opened Seqs
  import opened Filtering
  import opened Projection
  import opened Grouping
  import opened Statistics
  import opened Formatting

  /** The plot table for a selection, stated from the one conjunctive row selection:
      project, rescale, and sum per year when a sentinel was chosen. It shows exactly the
      years of the selected rows; summed per year, they are ascending and every cell is
      present; otherwise there is one row per selected row. */
  function PlotTable(panel: seq<Row>, sel: Selection): (plot: seq<PlotRow>)
    ensures forall y :: HasYear(plot, y) <==> SelectedYear(panel, sel, y)
    ensures Aggregates(sel) ==> forall i, j :: 0 <= i < j < |plot| ==> plot[i].year < plot[j].year
    ensures Aggregates(sel) ==> AllComplete(plot)
    ensures !Aggregates(sel) ==> |plot| == |SelectRows(panel, sel)|
  {
    var shown := Rescale(Project(SelectRows(panel, sel), sel.metric), sel.metric);
    assert forall y :: HasYear(shown, y) <==> SelectedYear(panel, sel, y) by {
      forall y ensures HasYear(shown, y) <==> SelectedYear(panel, sel, y) {
        ShownYears(panel, sel, y);
      }
    }
    if Aggregates(sel) then
      var grouped := GroupByYear(shown);
      assert AllComplete(grouped) by {
        forall i | 0 <= i < |grouped| ensures Complete(grouped[i]) {
          assert Cell(grouped[i], EnowValue).Some?;
          assert Cell(grouped[i], QcewWithImputation).Some?;
          assert Cell(grouped[i], NpStatesEst).Some?;
        }
      }
      grouped
    else shown
  }

  /** Some selected row is for year `y`. */
  predicate SelectedYear(panel: seq<Row>, sel: Selection, y: int) {
    exists i :: 0 <= i < |panel| && Matches(sel, panel[i]) && panel[i].year == y
  }

  /** The years of the projected (and possibly rescaled) table are those of the selected
      rows. */
  lemma ShownYears(panel: seq<Row>, sel: Selection, y: int)
    ensures HasYear(Rescale(Project(SelectRows(panel, sel), sel.metric), sel.metric), y)
        <==> SelectedYear(panel, sel, y)
  {
    var rows := SelectRows(panel, sel);
    var shown := Rescale(Project(rows, sel.metric), sel.metric);
    assert |shown| == |rows| && forall i :: 0 <= i < |rows| ==> shown[i].year == rows[i].year;
    if HasYear(shown, y) {
      var i :| 0 <= i < |shown| && shown[i].year == y;
      assert rows[i] in panel;
      var j :| 0 <= j < |panel| && panel[j] == rows[i];
      assert Matches(sel, panel[j]) && panel[j].year == y;
    }
    if SelectedYear(panel, sel, y) {
      var j :| 0 <= j < |panel| && Matches(sel, panel[j]) && panel[j].year == y;
      assert panel[j] in rows;
      var i :| 0 <= i < |rows| && rows[i] == panel[j];
      assert shown[i].year == y;
    }
  }

  /** With a sentinel chosen, the table has one row per year that has a selected row,
      ascending, and every cell present: `dropna` drops nothing, so statistics are
      missing only when the table is empty. */
  lemma AggregatedTable(panel: seq<Row>, sel: Selection)
    requires Aggregates(sel)
    ensures var plot := PlotTable(panel, sel);
            && (forall i, j :: 0 <= i < j < |plot| ==> plot[i].year < plot[j].year)
            && (forall y :: HasYear(plot, y) <==> SelectedYear(panel, sel, y))
            && AllComplete(plot)
            && Aligned(plot) == plot
            && (Summarize(plot).None? <==> |plot| == 0)
  {
    var plot := PlotTable(panel, sel);
    FilterKeepsAll(plot, Complete);
  }

  /** With a specific state and a specific sector, the selected rows pass through one for
      one, in order: row i carries the year and the metric's three columns (in millions
      for GDP and RealGDP) of the i-th selected row, and statistics are missing exactly
      when no row has all three series. */
  lemma PassThroughTable(panel: seq<Row>, sel: Selection)
    requires !Aggregates(sel)
    ensures var plot := PlotTable(panel, sel);
            var rows := SelectRows(panel, sel);
            && |plot| == |rows|
            && (forall i :: 0 <= i < |plot| ==> plot[i].year == rows[i].year)
            && (forall i, c :: 0 <= i < |plot| ==>
                  && (Cell(plot[i], c).Some? <==> Source(rows[i], sel.metric, c).Some?)
                  && (Cell(plot[i], c).Some? ==>
                        Cell(plot[i], c).value * (if InMillions(sel.metric) then Million else 1.0)
                        == Source(rows[i], sel.metric, c).value))
            && (Summarize(plot).None? <==> forall i :: 0 <= i < |plot| ==> !Complete(plot[i]))
  {
  }

  /** The summary block of the script (app.py:159-171): `dropna`, the differences and
      percent differences of both estimates, the infinities of the percents replaced in
      place, then mean, median and mean percent. */
  method SummaryStatistics(plot: seq<PlotRow>) returns (summary: Option<Summary>)
    ensures summary == Summarize(plot)
    ensures summary.None? <==> forall i :: 0 <= i < |plot| ==> !Complete(plot[i])
  {
    var aligned := Aligned(plot);
    if |aligned| > 0 {
      var diffNq := Differences(aligned, QcewWithImputation);
      var pctNq := PercentDifferences(aligned, QcewWithImputation);
      var diffNp := Differences(aligned, NpStatesEst);
      var pctNp := PercentDifferences(aligned, NpStatesEst);
      pctNq := ReplaceInfinities(pctNq);
      pctNp := ReplaceInfinities(pctNp);
      summary := Some(Summary(
        Comparison(Mean(diffNq), Median(diffNq), MeanSkippingNaN(pctNq)),
        Comparison(Mean(diffNp), Median(diffNp), MeanSkippingNaN(pctNp))));
    } else {
      summary := None;
    }
  }

  /** The script itself: successive narrowing of the selected rows, projection, in-place
      rescaling, optional grouping, then the summary over the rows where every series is
      present. */
  method Run(panel: seq<Row>, sel: Selection) returns (plot: seq<PlotRow>, summary: Option<Summary>)
    ensures plot == PlotTable(panel, sel)
    ensures summary == Summarize(plot)
    ensures summary.None? <==> forall i :: 0 <= i < |plot| ==> !Complete(plot[i])
    ensures forall y :: HasYear(plot, y) <==> SelectedYear(panel, sel, y)
    ensures Aggregates(sel) ==> (summary.None? <==> |plot| == 0)
    ensures !Aggregates(sel) ==> |plot| == |SelectRows(panel, sel)|
  {
    var filtered := Filter(panel, YearMask(sel.firstYear, sel.lastYear));
    if sel.state != AllStates {
      filtered := Filter(filtered, StateMask(sel.state));
    }
    if sel.sector != AllSectors {
      filtered := Filter(filtered, SectorMask(sel.sector));
    }
    CascadeIsSelection(panel, sel);
    assert filtered == SelectRows(panel, sel);

    plot := Project(filtered, sel.metric);
    if sel.metric == GDP || sel.metric == RealGDP {
      plot := ScaleToMillions(plot);
    }
    if sel.state == AllStates || sel.sector == AllSectors {
      plot := GroupByYear(plot);
    }
    assert plot == PlotTable(panel, sel);

    summary := SummaryStatistics(plot);

    if Aggregates(sel) {
      AggregatedTable(panel, sel);
    }
  }

  /** The text of one comparison block (app.py:175-183): the mean and median difference
      through `format_value`; the mean percent stays a number (None for NaN). */
  datatype ComparisonText = ComparisonText(meanDifference: string, medianDifference: string, meanPercentDifference: Option<real>)

  /** The printed mean and median differences read back to within half a unit of the
      computed values, with a "$" exactly for currency metrics; the mean percent is
      carried over. */
  function Describe(c: Comparison, m: Metric): (text: ComparisonText)
    ensures ReadsBack(text.meanDifference, c.meanDifference)
    ensures ReadsBack(text.medianDifference, c.medianDifference)
    ensures |text.meanDifference| > 0 && (text.meanDifference[0] == '$' <==> IsCurrency(m))
    ensures |text.medianDifference| > 0 && (text.medianDifference[0] == '$' <==> IsCurrency(m))
    ensures text.meanPercentDifference == c.meanPercentDifference
  {
    FormatRoundTrip(c.meanDifference, m);
    FormatRoundTrip(c.medianDifference, m);
    ComparisonText(FormatValue(Some(c.meanDifference), m), FormatValue(Some(c.medianDifference), m), c.meanPercentDifference)
  }

  /** The two blocks of the summary text (app.py:174-184), the imputed estimate's first:
      each printed difference reads back to within half a unit of its statistic. */
  function Report(s: Summary, m: Metric): (blocks: (ComparisonText, ComparisonText))
    ensures ReadsBack(blocks.0.meanDifference, s.withImputation.meanDifference)
    ensures ReadsBack(blocks.0.medianDifference, s.withImputation.medianDifference)
    ensures blocks.0.meanPercentDifference == s.withImputation.meanPercentDifference
    ensures ReadsBack(blocks.1.meanDifference, s.noImputation.meanDifference)
    ensures ReadsBack(blocks.1.medianDifference, s.noImputation.medianDifference)
    ensures blocks.1.meanPercentDifference == s.noImputation.meanPercentDifference
  {
    (Describe(s.withImputation, m), Describe(s.noImputation, m))
  }
}
