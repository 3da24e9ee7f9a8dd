/** The panel the dashboard reads (app.py:40): one row per state, ocean sector and year,
    each carrying three parallel estimates of every metric. A missing cell (pandas NaN)
    is `None`; floats are modelled by exact reals. */
module Panel {

  datatype Option<T> = None | Some(value: T)

  /** The metrics offered in the sidebar (app.py:62). */
  datatype Metric = Employment | Wages | Establishments | GDP | RealGDP

  /** The three estimates of one metric in one row: the ENOW reference (column `<metric>`),
      the public QCEW estimate with imputed values (`NQ_<metric>`) and the public QCEW
      estimate without imputation (`NP_<metric>`). */
  datatype Estimates = Estimates(enow: Option<real>, withImputation: Option<real>, noImputation: Option<real>)

  datatype Row = Row(
    geoName: string,
    oceanSector: string,
    year: int,
    employment: Estimates,
    wages: Estimates,
    establishments: Estimates,
    gdp: Estimates,
    realGdp: Estimates)

  /** The three columns that belong to metric `m` (app.py:90-92). */
  function EstimatesOf(row: Row, m: Metric): Estimates {
    match m
    case Employment => row.employment
    case Wages => row.wages
    case Establishments => row.establishments
    case GDP => row.gdp
    case RealGDP => row.realGdp
  }

  /** Metrics shown with a dollar sign (app.py:49). */
  predicate IsCurrency(m: Metric) {
    m == Wages || m == GDP || m == RealGDP
  }

  /** Metrics shown in millions (app.py:103). */
  predicate InMillions(m: Metric) {
    m == GDP || m == RealGDP
  }

  /** The sentinel entries at the head of the two drop-downs (app.py:60-61). */
  const AllStates: string := "All States"
  const AllSectors: string := "All Sectors"

  /** What the sidebar hands to the pipeline (app.py:65-74): a state or `AllStates`,
      a sector or `AllSectors`, a metric and an inclusive year range. */
  datatype Selection = Selection(state: string, sector: string, metric: Metric, firstYear: int, lastYear: int)

  /** Either sentinel was chosen, so the rows are summed per year (app.py:109). */
  predicate Aggregates(sel: Selection) {
    sel.state == AllStates || sel.sector == AllSectors
  }
}
