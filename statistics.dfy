/** Summary statistics (app.py:159-184): `dropna`, then for each of the two estimates its
    difference from ENOW and its percent difference, with infinite percentages replaced by
    NaN, summarised by mean, median and mean percent. */
module Statistics {
  import opened Panel
  import opened Seqs
  import opened Projection

  /** The classes of IEEE-754 value a float division can produce. */
  datatype Float = Finite(value: real) | PosInf | NegInf | NaN

  /** No series of the row is missing. */
  predicate Complete(p: PlotRow) {
    p.enowValue.Some? && p.qcewWithImputation.Some? && p.npStatesEst.Some?
  }

  predicate AllComplete(rows: seq<PlotRow>) {
    forall i :: 0 <= i < |rows| ==> Complete(rows[i])
  }

  /** `plot_df.dropna()` (app.py:159): the rows in which all three series are present,
      in order. */
  function Aligned(plot: seq<PlotRow>): (aligned: seq<PlotRow>)
    ensures AllComplete(aligned)
    ensures IsSubsequence(aligned, plot)
    ensures forall i :: 0 <= i < |aligned| ==> aligned[i] in plot
    ensures forall i :: 0 <= i < |plot| && Complete(plot[i]) ==> plot[i] in aligned
  {
    FilterIsSubsequence(plot, Complete);
    Filter(plot, Complete)
  }

  /** `estimate - ENOW_value` row by row (app.py:163, 166). */
  function Differences(rows: seq<PlotRow>, c: Series): (d: seq<real>)
    requires AllComplete(rows)
    ensures |d| == |rows|
    ensures forall i :: 0 <= i < |rows| ==> rows[i].enowValue.value + d[i] == Cell(rows[i], c).value
    ensures forall i :: 0 <= i < |rows| ==> (d[i] > 0.0 <==> Cell(rows[i], c).value > rows[i].enowValue.value)
  {
    seq(|rows|, i requires 0 <= i < |rows| => Cell(rows[i], c).value - rows[i].enowValue.value)
  }

  /** `100 * diff / enow` as a float division evaluates it: a zero denominator gives an
      infinity with the numerator's sign, or NaN for 0/0. */
  function PercentOf(diff: real, enow: real): Float {
    if enow != 0.0 then Finite(100.0 * diff / enow)
    else if diff > 0.0 then PosInf
    else if diff < 0.0 then NegInf
    else NaN
  }

  function RowPercent(p: PlotRow, c: Series): Float
    requires Complete(p)
  {
    PercentOf(Cell(p, c).value - p.enowValue.value, p.enowValue.value)
  }

  /** The percent-difference series (app.py:164, 167): a number, 100 * (estimate - ENOW) /
      ENOW, exactly where ENOW is not zero; where it is zero, an infinity, or NaN when the
      estimate is zero too. */
  function PercentDifferences(rows: seq<PlotRow>, c: Series): (pct: seq<Float>)
    requires AllComplete(rows)
    ensures |pct| == |rows|
    ensures forall i :: 0 <= i < |rows| && NonzeroEnow(rows[i]) ==> pct[i] == Finite(Ratio(rows[i], c))
    ensures forall i :: 0 <= i < |rows| && !NonzeroEnow(rows[i]) ==>
              !pct[i].Finite? && (pct[i].NaN? <==> Cell(rows[i], c).value == 0.0)
  {
    seq(|rows|, i requires 0 <= i < |rows| => RowPercent(rows[i], c))
  }

  function ReplaceInfinity(f: Float): Float {
    if f.PosInf? || f.NegInf? then NaN else f
  }

  /** `replace([np.inf, -np.inf], np.nan)` (app.py:170-171): infinities become NaN,
      everything else is kept. */
  function ReplaceInfinities(s: seq<Float>): (r: seq<Float>)
    ensures |r| == |s|
    ensures forall i :: 0 <= i < |s| ==> !r[i].PosInf? && !r[i].NegInf?
    ensures forall i :: 0 <= i < |s| && (s[i].PosInf? || s[i].NegInf?) ==> r[i].NaN?
    ensures forall i :: 0 <= i < |s| && (s[i].Finite? || s[i].NaN?) ==> r[i] == s[i]
  {
    seq(|s|, i requires 0 <= i < |s| => ReplaceInfinity(s[i]))
  }

  function Sum(s: seq<real>): real {
    if |s| == 0 then 0.0 else s[0] + Sum(s[1..])
  }

  /** The smallest value of a non-empty series. */
  function Min(s: seq<real>): (lo: real)
    requires |s| > 0
    ensures forall i :: 0 <= i < |s| ==> lo <= s[i]
    ensures exists i :: 0 <= i < |s| && s[i] == lo
  {
    if |s| == 1 then s[0]
    else
      var rest := Min(s[1..]);
      var k :| 0 <= k < |s[1..]| && s[1..][k] == rest;
      assert s[k + 1] == rest;
      if s[0] <= rest then s[0] else rest
  }

  /** The largest value of a non-empty series. */
  function Max(s: seq<real>): (hi: real)
    requires |s| > 0
    ensures forall i :: 0 <= i < |s| ==> s[i] <= hi
    ensures exists i :: 0 <= i < |s| && s[i] == hi
  {
    if |s| == 1 then s[0]
    else
      var rest := Max(s[1..]);
      var k :| 0 <= k < |s[1..]| && s[1..][k] == rest;
      assert s[k + 1] == rest;
      if s[0] >= rest then s[0] else rest
  }

  lemma {:induction false} SumBounds(s: seq<real>, lo: real, hi: real)
    requires forall i :: 0 <= i < |s| ==> lo <= s[i] <= hi
    ensures (|s| as real) * lo <= Sum(s) <= (|s| as real) * hi
  {
    if |s| > 0 {
      SumBounds(s[1..], lo, hi);
    }
  }

  /** The arithmetic mean of a non-empty series (app.py:176): it lies between the
      series' smallest and largest values. */
  function Mean(s: seq<real>): (mean: real)
    requires |s| > 0
    ensures Min(s) <= mean <= Max(s)
  {
    var n := |s| as real;
    SumBounds(s, Min(s), Max(s));
    QuotientBounds(Sum(s), n, Min(s), Max(s));
    Sum(s) / n
  }

  lemma QuotientBounds(total: real, n: real, lo: real, hi: real)
    requires n > 0.0 && n * lo <= total <= n * hi
    ensures lo <= total / n <= hi
  {
    var q := total / n;
    assert q * n == total;
    assert (q - lo) * n == total - n * lo;
    assert (hi - q) * n == n * hi - total;
  }

  /** The finite entries of a series, in order. */
  function FiniteValues(s: seq<Float>): (f: seq<real>)
    ensures |f| <= |s|
    ensures |f| == 0 <==> forall i :: 0 <= i < |s| ==> !s[i].Finite?
    ensures forall k :: 0 <= k < |f| ==> exists i :: 0 <= i < |s| && s[i] == Finite(f[k])
  {
    if |s| == 0 then []
    else
      var rest := FiniteValues(s[1..]);
      assert forall k :: 0 <= k < |rest| ==> exists i :: 0 <= i < |s| && s[i] == Finite(rest[k]) by {
        forall k | 0 <= k < |rest| ensures exists i :: 0 <= i < |s| && s[i] == Finite(rest[k]) {
          var j :| 0 <= j < |s[1..]| && s[1..][j] == Finite(rest[k]);
          assert s[j + 1] == Finite(rest[k]);
        }
      }
      if s[0].Finite? then
        var f := [s[0].value] + rest;
        assert forall k :: 1 <= k < |f| ==> f[k] == rest[k - 1];
        f
      else
        assert forall i :: 1 <= i < |s| ==> s[i] == s[1..][i - 1];
        rest
  }

  /** `Series.mean()` on a series without infinities (app.py:178): NaN entries are skipped;
      the mean is NaN (None here) exactly when no entry is a number, and otherwise lies
      between two of the series' numbers. */
  function MeanSkippingNaN(s: seq<Float>): (mean: Option<real>)
    requires forall i :: 0 <= i < |s| ==> !s[i].PosInf? && !s[i].NegInf?
    ensures mean.None? <==> forall i :: 0 <= i < |s| ==> !s[i].Finite?
    ensures mean.Some? ==> exists i :: 0 <= i < |s| && s[i].Finite? && s[i].value <= mean.value
    ensures mean.Some? ==> exists j :: 0 <= j < |s| && s[j].Finite? && mean.value <= s[j].value
  {
    var f := FiniteValues(s);
    if |f| == 0 then None
    else
      var lo :| 0 <= lo < |f| && f[lo] == Min(f);
      var hi :| 0 <= hi < |f| && f[hi] == Max(f);
      var i :| 0 <= i < |s| && s[i] == Finite(f[lo]);
      var j :| 0 <= j < |s| && s[j] == Finite(f[hi]);
      Some(Mean(f))
  }

  predicate Ascending(s: seq<real>) {
    forall i, j :: 0 <= i < j < |s| ==> s[i] <= s[j]
  }

  function InsertAscending(x: real, s: seq<real>): (r: seq<real>)
    requires Ascending(s)
    ensures |r| == |s| + 1
    ensures Ascending(r)
    ensures multiset(r) == multiset(s) + multiset{x}
  {
    if |s| == 0 || x <= s[0] then [x] + s
    else
      var rest := InsertAscending(x, s[1..]);
      assert s == [s[0]] + s[1..];
      assert forall k :: 0 <= k < |rest| ==> s[0] <= rest[k] by {
        forall k | 0 <= k < |rest| ensures s[0] <= rest[k] {
          var y := rest[k];
          assert y in multiset(rest);
          if y in s[1..] {
            var j :| 0 <= j < |s[1..]| && s[1..][j] == y;
            assert s[j + 1] == y;
          }
        }
      }
      [s[0]] + rest
  }

  /** The values of `s` in ascending order. */
  function SortAscending(s: seq<real>): (r: seq<real>)
    ensures |r| == |s|
    ensures Ascending(r)
    ensures multiset(r) == multiset(s)
  {
    if |s| == 0 then []
    else
      assert s == [s[0]] + s[1..];
      InsertAscending(s[0], SortAscending(s[1..]))
  }

  /** The middle of an ascending series: its middle value, or the average of its two
      middle values when the count is even. */
  function Middle(sorted: seq<real>): real
    requires |sorted| > 0
  {
    var n := |sorted|;
    if n % 2 == 1 then sorted[n / 2] else (sorted[n / 2 - 1] + sorted[n / 2]) / 2.0
  }

  /** `Series.median()` (app.py:177): the middle value in sorted order, or the average of
      the two middle values when the count is even. It splits the series in halves: at
      least half of the values are no greater than it and at least half no smaller. */
  function Median(s: seq<real>): (median: real)
    requires |s| > 0
    ensures 2 * |Filter(s, AtMost(median))| >= |s|
    ensures 2 * |Filter(s, AtLeast(median))| >= |s|
  {
    var sorted := SortAscending(s);
    var m := Middle(sorted);
    LowerHalfAtMostMiddle(sorted);
    UpperHalfAtLeastMiddle(sorted);
    FilterLengthUnderPermutation(sorted, s, AtMost(m));
    FilterLengthUnderPermutation(sorted, s, AtLeast(m));
    m
  }

  /** The three numbers reported for one estimate against ENOW (app.py:175-183). */
  datatype Comparison = Comparison(meanDifference: real, medianDifference: real, meanPercentDifference: Option<real>)

  /** The two comparisons of the summary block. */
  datatype Summary = Summary(withImputation: Comparison, noImputation: Comparison)

  function Compare(aligned: seq<PlotRow>, c: Series): Comparison
    requires |aligned| > 0 && AllComplete(aligned)
  {
    var diff := Differences(aligned, c);
    Comparison(Mean(diff), Median(diff), MeanSkippingNaN(ReplaceInfinities(PercentDifferences(aligned, c))))
  }

  /** The summary of a plot table, or None -- the "no overlapping data" branch
      (app.py:186-187) -- exactly when no row has all three series. */
  function Summarize(plot: seq<PlotRow>): (summary: Option<Summary>)
    ensures summary.None? <==> forall i :: 0 <= i < |plot| ==> !Complete(plot[i])
  {
    var aligned := Aligned(plot);
    if |aligned| == 0 then None
    else
      assert aligned[0] in plot && Complete(aligned[0]);
      Some(Summary(Compare(aligned, QcewWithImputation), Compare(aligned, NpStatesEst)))
  }

  // ----- properties -----

  /** A percent difference survives the replacement of infinities exactly when the ENOW
      value of its row is not zero, and it is then 100 * (estimate - ENOW) / ENOW. */
  lemma PercentDefinedIffEnowNonzero(rows: seq<PlotRow>, c: Series, i: nat)
    requires AllComplete(rows) && i < |rows|
    ensures var p := ReplaceInfinities(PercentDifferences(rows, c))[i];
            var enow := rows[i].enowValue.value;
            && (p.Finite? <==> enow != 0.0)
            && (p.Finite? ==> p.value * enow == 100.0 * (Cell(rows[i], c).value - enow))
  {
  }

  /** An ENOW value that is present and not zero. */
  predicate NonzeroEnow(p: PlotRow) {
    p.enowValue.Some? && p.enowValue.value != 0.0
  }

  /** 100 * (estimate - ENOW) / ENOW for a row whose ENOW value is not zero. */
  function Ratio(p: PlotRow, c: Series): (pct: real)
    requires Complete(p) && NonzeroEnow(p)
    ensures pct * p.enowValue.value == 100.0 * (Cell(p, c).value - p.enowValue.value)
    ensures pct == 0.0 <==> Cell(p, c).value == p.enowValue.value
  {
    100.0 * (Cell(p, c).value - p.enowValue.value) / p.enowValue.value
  }

  /** The percent differences computed over rows with a non-zero ENOW value only: the
      independent reading of "mean percent difference" that the series with NaN entries
      must agree with. */
  function Percents(rows: seq<PlotRow>, c: Series): (pct: seq<real>)
    requires forall i :: 0 <= i < |rows| ==> Complete(rows[i]) && NonzeroEnow(rows[i])
    ensures |pct| == |rows|
  {
    seq(|rows|, i requires 0 <= i < |rows| => Ratio(rows[i], c))
  }

  /** After the replacement of infinities a row's percent is a number exactly when its
      ENOW value is not zero. */
  lemma ReplacedRowPercent(p: PlotRow, c: Series)
    requires Complete(p)
    ensures ReplaceInfinity(RowPercent(p, c)) == if NonzeroEnow(p) then Finite(Ratio(p, c)) else NaN
  {
  }

  lemma KeptRowsQualify(rows: seq<PlotRow>)
    requires AllComplete(rows)
    ensures forall i :: 0 <= i < |Filter(rows, NonzeroEnow)| ==>
              Complete(Filter(rows, NonzeroEnow)[i]) && NonzeroEnow(Filter(rows, NonzeroEnow)[i])
  {
    var kept := Filter(rows, NonzeroEnow);
    forall i | 0 <= i < |kept| ensures Complete(kept[i]) && NonzeroEnow(kept[i]) {
      assert kept[i] in rows;
    }
  }

  lemma PercentSeriesSplit(rows: seq<PlotRow>, c: Series)
    requires AllComplete(rows) && |rows| > 0
    ensures var s := ReplaceInfinities(PercentDifferences(rows, c));
            && s[0] == ReplaceInfinity(RowPercent(rows[0], c))
            && s[1..] == ReplaceInfinities(PercentDifferences(rows[1..], c))
  {
  }

  lemma PercentsCons(p: PlotRow, rest: seq<PlotRow>, c: Series)
    requires Complete(p) && NonzeroEnow(p)
    requires forall i :: 0 <= i < |rest| ==> Complete(rest[i]) && NonzeroEnow(rest[i])
    ensures forall i :: 0 <= i < |[p] + rest| ==> Complete(([p] + rest)[i]) && NonzeroEnow(([p] + rest)[i])
    ensures Percents([p] + rest, c) == [Ratio(p, c)] + Percents(rest, c)
  {
  }

  lemma {:induction false} FinitePercentsSkipZeroEnow(rows: seq<PlotRow>, c: Series)
    requires AllComplete(rows)
    ensures forall i :: 0 <= i < |Filter(rows, NonzeroEnow)| ==>
              Complete(Filter(rows, NonzeroEnow)[i]) && NonzeroEnow(Filter(rows, NonzeroEnow)[i])
    ensures FiniteValues(ReplaceInfinities(PercentDifferences(rows, c))) == Percents(Filter(rows, NonzeroEnow), c)
  {
    KeptRowsQualify(rows);
    if |rows| > 0 {
      var tail := Filter(rows[1..], NonzeroEnow);
      FinitePercentsSkipZeroEnow(rows[1..], c);
      var s := ReplaceInfinities(PercentDifferences(rows, c));
      PercentSeriesSplit(rows, c);
      ReplacedRowPercent(rows[0], c);
      if NonzeroEnow(rows[0]) {
        assert Filter(rows, NonzeroEnow) == [rows[0]] + tail;
        PercentsCons(rows[0], tail, c);
        assert FiniteValues(s) == [Ratio(rows[0], c)] + FiniteValues(s[1..]);
      } else {
        assert Filter(rows, NonzeroEnow) == tail;
        assert FiniteValues(s) == FiniteValues(s[1..]);
      }
    }
  }

  /** The reported mean percent difference is the mean over exactly the rows whose ENOW
      value is not zero, and NaN when there are none. */
  lemma MeanPercentOverNonzeroEnow(rows: seq<PlotRow>, c: Series)
    requires AllComplete(rows)
    ensures forall i :: 0 <= i < |Filter(rows, NonzeroEnow)| ==>
              Complete(Filter(rows, NonzeroEnow)[i]) && NonzeroEnow(Filter(rows, NonzeroEnow)[i])
    ensures var pct := Percents(Filter(rows, NonzeroEnow), c);
            MeanSkippingNaN(ReplaceInfinities(PercentDifferences(rows, c)))
            == if |pct| == 0 then None else Some(Mean(pct))
  {
    FinitePercentsSkipZeroEnow(rows, c);
  }

  function AtMost(m: real): real -> bool {
    x => x <= m
  }

  function AtLeast(m: real): real -> bool {
    x => x >= m
  }

  /** At least half of an ascending series is no greater than its middle. */
  lemma LowerHalfAtMostMiddle(sorted: seq<real>)
    requires |sorted| > 0 && Ascending(sorted)
    ensures 2 * |Filter(sorted, AtMost(Middle(sorted)))| >= |sorted|
  {
    var m := Middle(sorted);
    var n := |sorted|;
    var k := if n % 2 == 1 then n / 2 + 1 else n / 2;
    assert sorted[k - 1] <= m;
    forall i | 0 <= i < k
      ensures AtMost(m)(sorted[i])
    {
      assert sorted[i] <= sorted[k - 1];
    }
    FilterKeepsBlock(sorted, AtMost(m), 0, k);
  }

  /** At least half of an ascending series is no smaller than its middle. */
  lemma UpperHalfAtLeastMiddle(sorted: seq<real>)
    requires |sorted| > 0 && Ascending(sorted)
    ensures 2 * |Filter(sorted, AtLeast(Middle(sorted)))| >= |sorted|
  {
    var m := Middle(sorted);
    var n := |sorted|;
    assert sorted[n / 2] >= m;
    forall i | n / 2 <= i < n
      ensures AtLeast(m)(sorted[i])
    {
      assert sorted[n / 2] <= sorted[i];
    }
    FilterKeepsBlock(sorted, AtLeast(m), n / 2, n);
  }
}
