# ENOW stopgap estimates dashboard — verified model of its data pipeline

The dashboard (`app.py`) compares three parallel estimates of one marine-economy metric
(employment, wages, establishments, GDP or real GDP) for U.S. states and ocean sectors:
the ENOW reference series, a public QCEW estimate with imputed values, and a public QCEW
estimate without imputation. Under its widgets it runs a small deterministic pipeline,
which this project models and proves properties of:

1. **Row selection** (`Filtering`): keep rows whose year lies in the inclusive range, then,
   unless "All States" / "All Sectors" was chosen, rows of the chosen state and sector.
2. **Projection and renaming** (`Projection.Project`): the year and the metric's three
   columns under the labels `ENOW_value`, `QCEW_w_imputation`, `NPStates_est`.
3. **Rescaling** (`Projection.ScaleToMillions`): GDP and RealGDP divided by 1,000,000.
4. **Group by year** (`Grouping.GroupByYear`): with either sentinel, one row per year,
   ascending, each column summed with missing values skipped.
5. **Statistics** (`Statistics.Summarize`): drop rows with any missing series; per estimate,
   the mean and median of `estimate - ENOW` and the mean of `100 * difference / ENOW` with
   infinite percentages discarded.
6. **Number formatting** (`Formatting.FormatValue`): "N/A", an optional "$", comma groups.

`Dashboard.Run` is the script's main path written imperatively (successive narrowing of
the row set, then the plot table, then the summary) and is proved equal to the
specification functions above.

Modelling conventions: a missing cell (pandas NaN) is `None`; float values are exact
`real`s; the IEEE outcome of a division by zero (±inf or NaN) is the `Float` datatype.

Two consequences of `app.py` worth knowing:

- A year whose values are all missing sums to 0 under `groupby("Year").sum()`; it is not
  dropped (`Grouping.AllMissingYearSumsToZero`). So with a sentinel every grouped cell is
  present, `dropna` removes nothing, and the "no overlapping data" branch is taken only
  for an empty table (`Dashboard.AggregatedTable`).
- A stored 0 is an ordinary value. Only the percent difference leaves out rows whose
  ENOW value is 0, through the inf/NaN replacement; such rows still count in the mean
  and median difference (`Statistics.MeanPercentOverNonzeroEnow`).
- `format_value` keeps the sign of a negative value that rounds to 0: -0.3 prints "-0"
  and, for a currency metric, "$-0" (`Formatting.NegativeRoundsToMinusZero`).

## Model

| member | source | states |
|---|---|---|
| `Seqs.Filter` | app.py:78-81 | a boolean mask keeps, in order, exactly the rows it holds for, and nothing else |
| `Seqs.FilterIsSubsequence` | app.py:78-87 | a mask only removes rows: the result is a subsequence of its input |
| `Seqs.FilterCommutes` | app.py:83-87 | two masks applied one after the other give the same rows in either order |
| `Seqs.FilterFuse` | app.py:78-87 | applying two masks in turn equals applying their conjunction |
| `Filtering.ByState` | app.py:83-84 | only rows of the chosen state are kept, and all of them; "All States" keeps every row |
| `Filtering.BySector` | app.py:86-87 | only rows of the chosen sector are kept, and all of them; "All Sectors" keeps every row |
| `Filtering.SelectRows` | app.py:78-87 | a row is shown iff its year is within both inclusive bounds and it matches the state and the sector, a sentinel matching everything |
| `Filtering.SelectRowsKeepsRows` | app.py:78-87 | the selection is a subsequence of the panel (contents and order unchanged) and each matching row keeps all its occurrences |
| `Filtering.CascadeIsSelection` | app.py:78-87 | the script's cascade (years, then state if chosen, then sector if chosen) selects exactly the conjunctive selection |
| `Filtering.StateAndSectorCommute` | app.py:83-87 | the optional state and sector filters commute |
| `Projection.Project` | app.py:90-100 | one plot row per selected row, same order and year, carrying the metric's ENOW, NQ_ and NP_ columns under the fixed labels |
| `Projection.ScaleToMillions` | app.py:103-106 | every present value of all three series becomes a millionth of itself, missing stays missing, years unchanged |
| `Projection.Rescale` | app.py:103-106 | for GDP and RealGDP every present value becomes a millionth of itself, for the other metrics it is unchanged; presence, order and years are kept |
| `Grouping.InsertYear` | app.py:110 | inserting a year into an ascending list of distinct years keeps it ascending and distinct and adds exactly that year |
| `Grouping.DistinctYears` | app.py:110 | the group keys are the distinct years of the table, strictly ascending |
| `Grouping.GroupByYear` | app.py:108-110 | one row per distinct year present, ascending; every cell present and equal to the sum of that year's values in its column |
| `Grouping.AllMissingYearSumsToZero` | app.py:110 | a year whose values in a column are all missing gets 0 in that column, not a gap |
| `Grouping.GroupingConservesTotals` | app.py:110 | the grand total of each column is the same before and after grouping: nothing lost, nothing counted twice |
| `Grouping.ScalingCommutesWithGrouping` | app.py:103-110 | rescaling before summing per year (as the script does) equals summing first and rescaling the sums |
| `Statistics.Aligned` | app.py:159 | `dropna` keeps exactly the rows where all three series are present, as a subsequence of the table (order kept) |
| `Statistics.Differences` | app.py:163-166 | one difference per aligned row, with ENOW + difference = estimate; a difference is positive iff the estimate exceeds ENOW |
| `Statistics.Ratio` | app.py:164 | for a non-zero ENOW value, percent * ENOW = 100 * (estimate - ENOW), and the percent is 0 iff the estimate equals ENOW |
| `Statistics.PercentDifferences` | app.py:164-167 | a number equal to 100 * (estimate - ENOW) / ENOW exactly where ENOW is non-zero; for a zero ENOW an infinity, or NaN when the estimate is 0 as well |
| `Statistics.ReplaceInfinities` | app.py:170-171 | after replacement no entry is infinite, every infinity became NaN and every other entry is unchanged |
| `Statistics.PercentDefinedIffEnowNonzero` | app.py:164-171 | a percent difference is a number after the replacement iff the row's ENOW value is non-zero, and then equals 100 * difference / ENOW |
| `Statistics.Mean` | app.py:176 | the mean difference lies between the smallest and the largest difference |
| `Statistics.MeanSkippingNaN` | app.py:178 | NaN entries are skipped: the mean percent is NaN exactly when no entry is a number, and otherwise lies between two of the numbers |
| `Statistics.MeanPercentOverNonzeroEnow` | app.py:169-178 | the mean percent difference is the mean over exactly the aligned rows with non-zero ENOW, NaN when there are none |
| `Statistics.SortAscending` | app.py:177 | the sorted differences are ascending and a permutation of the differences |
| `Statistics.InsertAscending` | app.py:177 | inserting into an ascending series keeps it ascending and adds exactly that value |
| `Statistics.Median` | app.py:177 | at least half of the differences are no greater than the median and at least half no smaller |
| `Statistics.Summarize` | app.py:159-187 | statistics are produced iff some row has all three series; otherwise the "no overlapping data" branch |
| `Formatting.RoundHalfEven` | app.py:50-52 | `.0f` rounds to within one half, a tie going to the even integer; exactly the values from -0.5 to 0.5 round to 0 |
| `Formatting.FormatValue` | app.py:43-52 | "N/A" iff the value is missing; a leading "$" iff the value is present and the metric is Wages, GDP or RealGDP; then a "-" exactly for a negative value, even one that rounds to 0 |
| `Formatting.NegativeRoundsToMinusZero` | app.py:50-52 | -0.3 prints "-0", and -0.5 for a currency metric prints "$-0" |
| `Formatting.FormatRoundTrip` | app.py:43-52 | removing "$" and commas from a formatted value and reading it back gives a whole number within one half of it, the value itself when it is whole |
| `Formatting.FormatValueShape` | app.py:49-52 | after the optional "$" and "-", digit groups of three after a leading group of one to three digits, starting with 0 exactly when the value rounds to 0 |
| `Formatting.GroupThousandsShape` | app.py:50 | the comma grouping has groups of three after a leading group of one to three digits, with no leading zero except for 0 |
| `Dashboard.ShownYears` | app.py:95-106 | the projected and rescaled table has exactly the years of the selected rows |
| `Dashboard.PlotTable` | app.py:78-110 | the plot table has exactly the selected rows' years; with a sentinel they are ascending and every cell is present, otherwise there is one row per selected row |
| `Dashboard.AggregatedTable` | app.py:108-110 | with a sentinel: one ascending row per selected year, every cell present, `dropna` drops nothing, no statistics only for an empty table |
| `Dashboard.PassThroughTable` | app.py:108-110 | with a state and a sector chosen: row i has the i-th selected row's year and the metric's ENOW, NQ_ and NP_ values (a millionth of them for GDP and RealGDP, missing where they are missing); statistics are missing iff no row is complete |
| `Dashboard.SummaryStatistics` | app.py:159-171 | the script's summary steps (differences, percents, in-place replacement of infinities, mean, median) give exactly `Summarize`, and none iff no row is complete |
| `Dashboard.Run` | app.py:78-171 | the script's step-by-step narrowing, projection, rescaling, grouping and statistics produce exactly the plot table and summary of the specification functions, with the year, row-count and no-overlap facts above |
| `Dashboard.Describe` | app.py:175-183 | each printed mean and median difference reads back to within half a unit of its value, with "$" exactly for currency metrics; the mean percent is carried over |
| `Dashboard.Report` | app.py:174-184 | both blocks of the summary text, imputed estimate first, with every printed difference reading back to within half a unit |

## Left out

- Streamlit page setup, sidebar widgets, titles, warnings and `st.code` output (app.py:7-10, 57-74, 113-116, 152-154, 185-187): user interface. The widgets' choices are the `Selection` value.
- `load_data` (app.py:13-40): reading the CSV file, the missing-file error and the cache are file I/O; the panel is a parameter. The column renaming inside it is folded into the column names of `Panel.Estimates`.
- Matplotlib plotting and the y-axis label map (app.py:119-152): rendering and display text.
- Floating-point arithmetic: sums, quotients and means are exact reals, so rounding differences between summing before or after rescaling are not captured.
- The sign of an infinite percent when ENOW is a negative zero: immaterial, because both infinities become NaN.
- The `:.2f%` rendering of the mean percent difference (app.py:178, 183): kept as an exact value, None for NaN.
- Formatting.FormatValue: the value is an exact real rounded half to even; the rounding of the binary float's decimal expansion is not modelled, nor a float negative zero, which Python prints as "-0" and which has no exact-real counterpart.
- In-place updates (`rename(..., inplace=True)`, `/=`, `replace(..., inplace=True)`) are modelled as reassignment of a local value; they act on a private copy (app.py:95) or on freshly computed series, so no other reference can observe the difference.
- A panel row carries only the five selectable metrics' columns; other columns of the CSV are not modelled.
