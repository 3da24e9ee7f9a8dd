/** The plot table (app.py:90-106): the year and the chosen metric's three columns under
    fixed labels, with GDP-like metrics rescaled to millions. */
module Projection {
  import opened Panel

  /** One row of the plot table under its labels `Year`, `ENOW_value`,
      `QCEW_w_imputation` and `NPStates_est` (app.py:95-100). */
  datatype PlotRow = PlotRow(year: int, enowValue: Option<real>, qcewWithImputation: Option<real>, npStatesEst: Option<real>)

  /** The three value columns of the plot table. */
  datatype Series = EnowValue | QcewWithImputation | NpStatesEst

  function Cell(p: PlotRow, c: Series): Option<real> {
    match c
    case EnowValue => p.enowValue
    case QcewWithImputation => p.qcewWithImputation
    case NpStatesEst => p.npStatesEst
  }

  /** The column of `row` that the label `c` is given for metric `m` (app.py:96-100). */
  function Source(row: Row, m: Metric, c: Series): Option<real> {
    match c
    case EnowValue => EstimatesOf(row, m).enow
    case QcewWithImputation => EstimatesOf(row, m).withImputation
    case NpStatesEst => EstimatesOf(row, m).noImputation
  }

  /** Column selection and renaming: row for row, the year and the metric's three columns,
      in the panel's order. */
  function Project(rows: seq<Row>, m: Metric): (plot: seq<PlotRow>)
    ensures |plot| == |rows|
    ensures forall i :: 0 <= i < |rows| ==> plot[i].year == rows[i].year
    ensures forall i, c :: 0 <= i < |rows| ==> Cell(plot[i], c) == Source(rows[i], m, c)
  {
    seq(|rows|, i requires 0 <= i < |rows| =>
      var e := EstimatesOf(rows[i], m);
      PlotRow(rows[i].year, e.enow, e.withImputation, e.noImputation))
  }

  const Million: real := 1000000.0

  /** A cell divided by a million; a missing cell stays missing (NaN / 1e6 is NaN). */
  function InMillionsCell(v: Option<real>): Option<real> {
    match v
    case None => None
    case Some(x) => Some(x / Million)
  }

  function ScaleRow(p: PlotRow): PlotRow {
    PlotRow(p.year, InMillionsCell(p.enowValue), InMillionsCell(p.qcewWithImputation), InMillionsCell(p.npStatesEst))
  }

  /** The three `/= 1e6` updates (app.py:104-106): every present value of every series is
      a millionth of what it was, missing values stay missing, years are untouched. */
  function ScaleToMillions(plot: seq<PlotRow>): (scaled: seq<PlotRow>)
    ensures |scaled| == |plot|
    ensures forall i :: 0 <= i < |plot| ==> scaled[i].year == plot[i].year
    ensures forall i, c :: 0 <= i < |plot| ==> (Cell(scaled[i], c).Some? <==> Cell(plot[i], c).Some?)
    ensures forall i, c :: 0 <= i < |plot| && Cell(plot[i], c).Some? ==>
              Cell(scaled[i], c).value * Million == Cell(plot[i], c).value
  {
    seq(|plot|, i requires 0 <= i < |plot| => ScaleRow(plot[i]))
  }

  /** Rescaling applies to GDP and RealGDP only (app.py:103): their present values become
      millionths, every other metric's table is unchanged. */
  function Rescale(plot: seq<PlotRow>, m: Metric): (shown: seq<PlotRow>)
    ensures |shown| == |plot|
    ensures forall i :: 0 <= i < |plot| ==> shown[i].year == plot[i].year
    ensures forall i, c :: 0 <= i < |plot| ==> (Cell(shown[i], c).Some? <==> Cell(plot[i], c).Some?)
    ensures forall i, c :: 0 <= i < |plot| && Cell(plot[i], c).Some? ==>
              Cell(shown[i], c).value * (if InMillions(m) then Million else 1.0) == Cell(plot[i], c).value
  {
    if InMillions(m) then ScaleToMillions(plot) else plot
  }
}
