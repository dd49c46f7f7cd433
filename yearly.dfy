/** The yearly summary table and the three headline figures
    (Bank/weather_tool.py, lines 111-137 and 148-150). The sample standard
    deviation column is not part of this model. */
module Yearly {
  import opened Wrappers
  import opened Calendar
  import opened Frame
  import opened Stats
  import opened Grouping

  /** One row of `groupby('year')['temp_f'].agg(['max', 'min', 'mean'])`. */
  datatype YearStats = YearStats(year: int, max: real, min: real, mean: real)

  /** One row of the finished yearly summary. */
  datatype YearRow = YearRow(
    year: int, max: real, min: real, mean: real,
    fiveYearAvg: Option<real>, delta: real,
    aboveRef: nat, pctAboveRef: real,
    maxTempDate: Option<Timestamp>, minTempDate: Option<Timestamp>)

  function YearTemps(s: seq<Sample>, y: int): seq<real>
  {
    Temps(Group(ByYear, s, y))
  }

  function StatsOf(s: seq<Sample>, y: int): YearStats
    requires y in GroupKeys(ByYear, s)
  {
    ObservedGroupIsNonEmpty(ByYear, s, y);
    var ts := YearTemps(s, y);
    YearStats(y, Max(ts), Min(ts), Mean(ts))
  }

  /** Line 111: one row per observed year, ascending. */
  function YearlyAgg(s: seq<Sample>): (agg: seq<YearStats>)
    ensures |agg| == |GroupKeys(ByYear, s)|
  {
    var ks := GroupKeys(ByYear, s);
    seq(|ks|, i requires 0 <= i < |ks| => StatsOf(s, ks[i]))
  }

  function MeanColumn(agg: seq<YearStats>): (col: seq<real>)
    ensures |col| == |agg|
  {
    seq(|agg|, i requires 0 <= i < |agg| => agg[i].mean)
  }

  /** `rolling(window=5).mean()` at position i: absent until five values exist. */
  function RollingMean5(col: seq<real>, i: nat): Option<real>
    requires i < |col|
  {
    if i < 4 then None else Some(Mean(col[i - 4..i + 1]))
  }

  /** `groupby('year').size()`: the number of samples of each observed year. */
  function YearCounts(s: seq<Sample>): map<int, nat>
  {
    map y | y in GroupKeys(ByYear, s) :: |Group(ByYear, s, y)|
  }

  /** Lines 129-131: the year's count over its total, as a percentage, or 0
      when the year has no total. */
  function PctAboveRef(above: nat, totals: map<int, nat>, y: int): real
    requires y in totals ==> 0 < totals[y]
  {
    if y in totals then Percent(above, totals[y]) else 0.0
  }

  /** `summary['year'].map(dates['time'])` for the dates of lines 134-135:
      the time of the first sample, in input order, of year y reading v;
      None (NaT) when there is no such sample. */
  function FirstTimeReading(s: seq<Sample>, y: int, v: real): Option<Timestamp>
  {
    if s == [] then None
    else if s[0].year == y && TempF(s[0]) == v then Some(s[0].time)
    else FirstTimeReading(s[1..], y, v)
  }

  /** The date lookup finds the first sample of the year with that reading. */
  lemma {:induction false} FirstTimeReadingIsFirst(s: seq<Sample>, y: int, v: real)
    requires exists x :: x in s && x.year == y && TempF(x) == v
    ensures FirstTimeReading(s, y, v).Some?
    ensures exists k :: 0 <= k < |s| && s[k].year == y && TempF(s[k]) == v
              && s[k].time == FirstTimeReading(s, y, v).value
              && forall j :: 0 <= j < k ==> !(s[j].year == y && TempF(s[j]) == v)
  {
    if !(s[0].year == y && TempF(s[0]) == v) {
      assert s == [s[0]] + s[1..];
      FirstTimeReadingIsFirst(s[1..], y, v);
      var k :| 0 <= k < |s[1..]| && s[1..][k].year == y && TempF(s[1..][k]) == v
              && s[1..][k].time == FirstTimeReading(s[1..], y, v).value
              && forall j :: 0 <= j < k ==> !(s[1..][j].year == y && TempF(s[1..][j]) == v);
      assert s[k + 1] == s[1..][k];
      forall j | 0 <= j < k + 1
        ensures !(s[j].year == y && TempF(s[j]) == v)
      {
        if j > 0 {
          assert s[j] == s[1..][j - 1];
        }
      }
    }
  }

  /** Lines 112-137 for the row of one observed year. */
  function DeriveRow(s: seq<Sample>, y: int, fiveYearAvg: Option<real>,
                     totals: map<int, nat>, reference: real): YearRow
    requires y in GroupKeys(ByYear, s)
    requires y in totals ==> 0 < totals[y]
  {
    var st := StatsOf(s, y);
    var above := CountAbove(YearTemps(s, y), reference);
    YearRow(y, st.max, st.min, st.mean, fiveYearAvg, st.max - st.min,
            above, PctAboveRef(above, totals, y),
            FirstTimeReading(s, y, st.max), FirstTimeReading(s, y, st.min))
  }

  /** The finished yearly summary, row by row. */
  function YearlySummary(s: seq<Sample>, reference: real): (rows: seq<YearRow>)
    ensures |rows| == |GroupKeys(ByYear, s)|
  {
    var ks := GroupKeys(ByYear, s);
    var means := MeanColumn(YearlyAgg(s));
    var totals := YearCounts(s);
    seq(|ks|, i requires 0 <= i < |ks| =>
      ObservedGroupIsNonEmpty(ByYear, s, ks[i]);
      DeriveRow(s, ks[i], RollingMean5(means, i), totals, reference))
  }

  lemma YearlySummaryAt(s: seq<Sample>, reference: real, i: nat)
    requires i < |GroupKeys(ByYear, s)|
    ensures 0 < |Group(ByYear, s, GroupKeys(ByYear, s)[i])|
    ensures GroupKeys(ByYear, s)[i] in YearCounts(s)
    ensures YearlySummary(s, reference)[i]
         == DeriveRow(s, GroupKeys(ByYear, s)[i], RollingMean5(MeanColumn(YearlyAgg(s)), i), YearCounts(s), reference)
  {
    ObservedGroupIsNonEmpty(ByYear, s, GroupKeys(ByYear, s)[i]);
  }

  /** Lines 111-137: the aggregated table gains its derived columns one row
      at a time. */
  method SummarizeYears(s: seq<Sample>, reference: real) returns (summary: seq<YearRow>)
    ensures summary == YearlySummary(s, reference)
  {
    var years := GroupKeys(ByYear, s);
    var agg := YearlyAgg(s);
    var means := MeanColumn(agg);
    var totals := YearCounts(s);
    ghost var full := YearlySummary(s, reference);
    summary := [];
    for i := 0 to |agg|
      invariant summary == full[..i]
    {
      YearlySummaryAt(s, reference, i);
      ObservedGroupIsNonEmpty(ByYear, s, years[i]);
      var row := DeriveRow(s, years[i], RollingMean5(means, i), totals, reference);
      assert full[..i + 1] == full[..i] + [row];
      summary := summary + [row];
    }
    assert full[..|agg|] == full;
  }

  // ---------------------------------------------------------------------
  // What the table promises

  /** Row i belongs to the i-th observed year. */
  lemma RowYear(s: seq<Sample>, reference: real, i: nat)
    requires i < |YearlySummary(s, reference)|
    ensures YearlySummary(s, reference)[i].year == GroupKeys(ByYear, s)[i]
  {
    YearlySummaryAt(s, reference, i);
  }

  /** Row i's statistics are those of its year's readings. */
  lemma RowStats(s: seq<Sample>, reference: real, i: nat)
    requires i < |YearlySummary(s, reference)|
    ensures |YearTemps(s, GroupKeys(ByYear, s)[i])| > 0
    ensures var ts := YearTemps(s, GroupKeys(ByYear, s)[i]);
      var r := YearlySummary(s, reference)[i];
      && r.year == GroupKeys(ByYear, s)[i]
      && r.max == Max(ts) && r.min == Min(ts) && r.mean == Mean(ts)
      && r.delta == r.max - r.min
  {
    YearlySummaryAt(s, reference, i);
  }

  /** Row i's count and percentage above the reference. */
  lemma RowCounts(s: seq<Sample>, reference: real, i: nat)
    requires i < |YearlySummary(s, reference)|
    ensures |YearTemps(s, GroupKeys(ByYear, s)[i])| > 0
    ensures var ts := YearTemps(s, GroupKeys(ByYear, s)[i]);
      var r := YearlySummary(s, reference)[i];
      && r.year == GroupKeys(ByYear, s)[i]
      && r.year in YearCounts(s) && YearCounts(s)[r.year] == |ts|
      && r.aboveRef == CountAbove(ts, reference)
      && r.pctAboveRef == Percent(r.aboveRef, |ts|)
  {
    YearlySummaryAt(s, reference, i);
  }

  /** Row i's dates and five-year average. */
  lemma RowDates(s: seq<Sample>, reference: real, i: nat)
    requires i < |YearlySummary(s, reference)|
    ensures var r := YearlySummary(s, reference)[i];
      && r.year == GroupKeys(ByYear, s)[i]
      && r.maxTempDate == FirstTimeReading(s, r.year, r.max)
      && r.minTempDate == FirstTimeReading(s, r.year, r.min)
      && r.fiveYearAvg == RollingMean5(MeanColumn(YearlyAgg(s)), i)
  {
    YearlySummaryAt(s, reference, i);
  }

  /** The rows are in strictly ascending year order. */
  lemma YearlyRowsAscending(s: seq<Sample>, reference: real)
    ensures forall i, j :: 0 <= i < j < |YearlySummary(s, reference)| ==>
              YearlySummary(s, reference)[i].year < YearlySummary(s, reference)[j].year
  {
    var rows := YearlySummary(s, reference);
    var ks := GroupKeys(ByYear, s);
    assert StrictlyIncreasing(ks) by {
      GroupKeysSorted(ByYear, s);
    }
    forall i | 0 <= i < |rows|
      ensures rows[i].year == ks[i]
    {
      RowYear(s, reference, i);
    }
  }

  /** There is a row for a year exactly when some sample is of that year. */
  lemma YearlyRowsPerYear(s: seq<Sample>, reference: real)
    ensures forall i :: 0 <= i < |YearlySummary(s, reference)| ==>
              exists x :: x in s && x.year == YearlySummary(s, reference)[i].year
    ensures forall x :: x in s ==>
              exists i :: 0 <= i < |YearlySummary(s, reference)| && YearlySummary(s, reference)[i].year == x.year
  {
    var rows := YearlySummary(s, reference);
    var ks := GroupKeys(ByYear, s);
    forall i | 0 <= i < |rows|
      ensures exists x :: x in s && x.year == rows[i].year
    {
      RowYear(s, reference, i);
      GroupKeysSorted(ByYear, s);
      assert ks[i] in ks;
    }
    forall x | x in s
      ensures exists i :: 0 <= i < |rows| && rows[i].year == x.year
    {
      assert KeyOf(ByYear, x) in ks by {
        GroupKeysSorted(ByYear, s);
      }
      var i :| 0 <= i < |ks| && ks[i] == KeyOf(ByYear, x);
      RowYear(s, reference, i);
    }
  }

  /** Each row's max and min are the largest and smallest reading of its year,
      both read by a sample of that year, with the mean in between and the
      delta their non-negative difference. */
  lemma YearlyRowBounds(s: seq<Sample>, reference: real, i: nat)
    requires i < |YearlySummary(s, reference)|
    ensures var r := YearlySummary(s, reference)[i];
      && r.min <= r.mean <= r.max
      && r.delta == r.max - r.min && r.delta >= 0.0
      && (forall x :: x in s && x.year == r.year ==> r.min <= TempF(x) <= r.max)
      && (exists x :: x in s && x.year == r.year && TempF(x) == r.max)
      && (exists x :: x in s && x.year == r.year && TempF(x) == r.min)
  {
    var r := YearlySummary(s, reference)[i];
    RowStats(s, reference, i);
    GroupKeysSorted(ByYear, s);
    assert r.year in GroupKeys(ByYear, s);
    GroupStatsBounds(ByYear, s, r.year);
  }

  /** The five-year average is absent for the first four rows and, from the
      fifth row on, the plain average of this row's mean and the four before. */
  lemma FiveYearAverage(s: seq<Sample>, reference: real, i: nat)
    requires i < |YearlySummary(s, reference)|
    ensures var rows := YearlySummary(s, reference);
      && (rows[i].fiveYearAvg.None? <==> i < 4)
      && (i >= 4 ==>
            rows[i].fiveYearAvg.value
            == (rows[i - 4].mean + rows[i - 3].mean + rows[i - 2].mean + rows[i - 1].mean + rows[i].mean) / 5.0)
  {
    var rows := YearlySummary(s, reference);
    var means := MeanColumn(YearlyAgg(s));
    assert rows[i].fiveYearAvg == RollingMean5(means, i) by {
      RowDates(s, reference, i);
    }
    if i >= 4 {
      var w := means[i - 4..i + 1];
      assert Mean(w) == (w[0] + w[1] + w[2] + w[3] + w[4]) / 5.0 by {
        MeanOfFive(w);
      }
      assert w[0] == rows[i - 4].mean && w[1] == rows[i - 3].mean && w[2] == rows[i - 2].mean
          && w[3] == rows[i - 1].mean && w[4] == rows[i].mean by {
        SummaryMeansAreYearMeans(s, reference);
        assert forall j :: 0 <= j < |rows| ==> RowMeans(rows)[j] == rows[j].mean;
      }
    }
  }

  /** The hours-above-reference column counts the year's readings strictly
      above the reference, never more than the year has, and its percentage
      lies in [0, 100]: 100 exactly when every reading of the year is above,
      0 exactly when none is. Every summary year has a total, so the
      fallback percentage of 0 is never used. */
  lemma AboveReference(s: seq<Sample>, reference: real, i: nat)
    requires i < |YearlySummary(s, reference)|
    ensures var r := YearlySummary(s, reference)[i];
      && r.year in YearCounts(s)
      && r.aboveRef == CountAbove(YearTemps(s, r.year), reference)
      && r.aboveRef <= YearCounts(s)[r.year]
      && 0.0 <= r.pctAboveRef <= 100.0
      && (r.pctAboveRef == 100.0 <==> forall x :: x in s && x.year == r.year ==> TempF(x) > reference)
      && (r.pctAboveRef == 0.0 <==> forall x :: x in s && x.year == r.year ==> TempF(x) <= reference)
  {
    var r := YearlySummary(s, reference)[i];
    RowCounts(s, reference, i);
    var ts := YearTemps(s, r.year);
    PercentRange(r.aboveRef, |ts|);
    assert r.pctAboveRef == 100.0 <==> Min(ts) > reference by {
      CountAboveExtremes(ts, reference);
      MinIsLeast(ts);
    }
    assert r.pctAboveRef == 0.0 <==> Max(ts) <= reference by {
      CountAboveExtremes(ts, reference);
      MaxIsGreatest(ts);
    }
    RowStats(s, reference, i);
    YearlyRowBounds(s, reference, i);
  }

  /** The max and min dates are the timestamps of the first sample, in input
      order, of that year reading the year's max (and min); both are present
      for every row. */
  lemma ExtremeDates(s: seq<Sample>, reference: real, i: nat)
    requires i < |YearlySummary(s, reference)|
    ensures var r := YearlySummary(s, reference)[i];
      && r.maxTempDate.Some? && r.minTempDate.Some?
      && (exists k :: 0 <= k < |s| && s[k].year == r.year && TempF(s[k]) == r.max && s[k].time == r.maxTempDate.value
            && forall j :: 0 <= j < k ==> !(s[j].year == r.year && TempF(s[j]) == r.max))
      && (exists k :: 0 <= k < |s| && s[k].year == r.year && TempF(s[k]) == r.min && s[k].time == r.minTempDate.value
            && forall j :: 0 <= j < k ==> !(s[j].year == r.year && TempF(s[j]) == r.min))
  {
    var r := YearlySummary(s, reference)[i];
    RowDates(s, reference, i);
    YearlyRowBounds(s, reference, i);
    FirstTimeReadingIsFirst(s, r.year, r.max);
    FirstTimeReadingIsFirst(s, r.year, r.min);
  }

  predicate Chronological(s: seq<Sample>)
  {
    forall i, j :: 0 <= i < j < |s| ==> NotAfter(s[i].time, s[j].time)
  }

  /** When the input is in chronological order, as the fetched series is, the
      max date is the earliest time at which the year's max was read. */
  lemma EarliestMaxDate(s: seq<Sample>, reference: real, i: nat)
    requires Chronological(s)
    requires i < |YearlySummary(s, reference)|
    ensures var r := YearlySummary(s, reference)[i];
      && r.maxTempDate.Some?
      && forall x :: x in s && x.year == r.year && TempF(x) == r.max ==> NotAfter(r.maxTempDate.value, x.time)
  {
    var r := YearlySummary(s, reference)[i];
    ExtremeDates(s, reference, i);
    var k :| 0 <= k < |s| && s[k].year == r.year && TempF(s[k]) == r.max && s[k].time == r.maxTempDate.value
            && forall j :: 0 <= j < k ==> !(s[j].year == r.year && TempF(s[j]) == r.max);
    forall x | x in s && x.year == r.year && TempF(x) == r.max
      ensures NotAfter(r.maxTempDate.value, x.time)
    {
      var j :| 0 <= j < |s| && s[j] == x;
      if j != k {
        assert k < j;
      }
    }
  }

  // ---------------------------------------------------------------------
  // Headline figures (lines 148-150)

  /** The mean column of the finished table, `summary['mean']`. */
  function RowMeans(rows: seq<YearRow>): seq<real>
  {
    seq(|rows|, i requires 0 <= i < |rows| => rows[i].mean)
  }

  /** The finished table's mean column is the aggregation's mean column: the
      headline average and the rolling average read the same values. */
  lemma SummaryMeansAreYearMeans(s: seq<Sample>, reference: real)
    ensures RowMeans(YearlySummary(s, reference)) == MeanColumn(YearlyAgg(s))
  {
    var rows, agg := YearlySummary(s, reference), YearlyAgg(s);
    forall i | 0 <= i < |rows|
      ensures rows[i].mean == agg[i].mean
    {
      RowStats(s, reference, i);
    }
  }

  /** `summary['mean'].mean()`: absent (NaN) for an empty table. */
  function OverallMean(rows: seq<YearRow>): Option<real>
  {
    if rows == [] then None else Some(Mean(RowMeans(rows)))
  }

  function MaxColumn(rows: seq<YearRow>): (col: seq<real>)
    ensures |col| == |rows|
  {
    seq(|rows|, i requires 0 <= i < |rows| => rows[i].max)
  }

  /** `summary.loc[summary['max'].idxmax(), 'year']`: the year of the first
      row holding the largest max; None stands for the error `idxmax`
      raises on an empty table. */
  function YearWithHighestTemp(rows: seq<YearRow>): Option<int>
  {
    if rows == [] then None
    else
      var maxes := MaxColumn(rows);
      MaxIsGreatest(maxes);
      Some(rows[FirstIndexOf(maxes, Max(maxes))].year)
  }

  /** `summary['above_ref'].sum()`. */
  function TotalAboveRef(rows: seq<YearRow>): nat
  {
    if rows == [] then 0 else rows[0].aboveRef + TotalAboveRef(rows[1..])
  }

  lemma {:induction false} TotalMatchesGroups(s: seq<Sample>, rows: seq<YearRow>, ks: seq<int>, reference: real)
    requires |rows| == |ks|
    requires forall i :: 0 <= i < |rows| ==> rows[i].aboveRef == CountAbove(YearTemps(s, ks[i]), reference)
    ensures TotalAboveRef(rows) == SumCountsAbove(ByYear, s, ks, reference)
  {
    if rows != [] {
      assert rows[0].aboveRef == CountAbove(YearTemps(s, ks[0]), reference);
      TotalMatchesGroups(s, rows[1..], ks[1..], reference);
    }
  }

  /** The headline total is the number of samples above the reference over
      the whole series. */
  lemma TotalAboveRefCountsAllSamples(s: seq<Sample>, reference: real)
    ensures TotalAboveRef(YearlySummary(s, reference)) == CountAbove(Temps(s), reference)
  {
    var rows := YearlySummary(s, reference);
    var ks := GroupKeys(ByYear, s);
    forall i | 0 <= i < |rows|
      ensures rows[i].aboveRef == CountAbove(YearTemps(s, ks[i]), reference)
    {
      RowCounts(s, reference, i);
    }
    TotalMatchesGroups(s, rows, ks, reference);
    GroupKeysSorted(ByYear, s);
    SumCountsPartition(ByYear, s, ks, reference);
  }

  /** Every reading of the series lies between its coldest and hottest. */
  lemma ReadingWithinSeries(s: seq<Sample>, x: Sample)
    requires x in s
    ensures Min(Temps(s)) <= TempF(x) <= Max(Temps(s))
  {
    var k :| 0 <= k < |s| && s[k] == x;
    TempsAt(s);
    MaxIsGreatest(Temps(s));
    MinIsLeast(Temps(s));
    assert Temps(s)[k] == TempF(x);
  }

  /** Each yearly max, min and mean lies within the range of the series. */
  lemma RowWithinSeries(s: seq<Sample>, reference: real, j: nat)
    requires j < |YearlySummary(s, reference)|
    ensures var r := YearlySummary(s, reference)[j];
      && Min(Temps(s)) <= r.min <= r.mean <= r.max <= Max(Temps(s))
  {
    var r := YearlySummary(s, reference)[j];
    YearlyRowBounds(s, reference, j);
    var a :| a in s && a.year == r.year && TempF(a) == r.max;
    var b :| b in s && b.year == r.year && TempF(b) == r.min;
    ReadingWithinSeries(s, a);
    ReadingWithinSeries(s, b);
  }

  /** The year of the series' hottest reading has that reading as its max. */
  lemma HottestReadingHasARow(s: seq<Sample>, reference: real)
    requires s != []
    ensures exists j :: 0 <= j < |YearlySummary(s, reference)|
              && YearlySummary(s, reference)[j].max == Max(Temps(s))
  {
    var rows := YearlySummary(s, reference);
    MaxIsGreatest(Temps(s));
    TempsAt(s);
    var k :| 0 <= k < |s| && Temps(s)[k] == Max(Temps(s));
    YearlyRowsPerYear(s, reference);
    assert s[k] in s;
    var j :| 0 <= j < |rows| && rows[j].year == s[k].year;
    YearlyRowBounds(s, reference, j);
    RowWithinSeries(s, reference, j);
    assert rows[j].max == Max(Temps(s));
  }

  /** The table is empty exactly when the series is. */
  lemma EmptyTableIffNoSamples(s: seq<Sample>, reference: real)
    ensures YearlySummary(s, reference) == [] <==> s == []
  {
    if s != [] {
      YearlyRowsPerYear(s, reference);
      assert s[0] in s;
    }
  }

  /** Every yearly max is at most the series' hottest reading. */
  lemma RowMaxesWithinSeries(s: seq<Sample>, reference: real)
    ensures forall j :: 0 <= j < |MaxColumn(YearlySummary(s, reference))| ==>
              MaxColumn(YearlySummary(s, reference))[j] <= Max(Temps(s))
  {
    var maxes := MaxColumn(YearlySummary(s, reference));
    forall j | 0 <= j < |maxes|
      ensures maxes[j] <= Max(Temps(s))
    {
      RowWithinSeries(s, reference, j);
    }
  }

  /** On any table, the headline year is that of the first row whose max
      is the largest one. */
  lemma HighestYearIsFirstMaxRow(rows: seq<YearRow>, top: real)
    requires forall j :: 0 <= j < |MaxColumn(rows)| ==> MaxColumn(rows)[j] <= top
    requires exists j :: 0 <= j < |rows| && rows[j].max == top
    ensures YearWithHighestTemp(rows).Some?
    ensures exists i :: 0 <= i < |rows| && rows[i].year == YearWithHighestTemp(rows).value
              && rows[i].max == top
              && forall j :: 0 <= j < i ==> rows[j].max < top
  {
    var maxes := MaxColumn(rows);
    var jt :| 0 <= jt < |rows| && rows[jt].max == top;
    assert maxes[jt] == top;
    MaxIsAttainedBound(maxes, top);
    var i := FirstIndexOf(maxes, top);
    assert rows[i].year == YearWithHighestTemp(rows).value;
    assert rows[i].max == maxes[i] == top;
    forall j | 0 <= j < i
      ensures rows[j].max < top
    {
      assert maxes[j] == rows[j].max;
    }
  }

  /** The headline year is present exactly when the table is non-empty, holds
      the hottest reading of the whole series, and no earlier year reached
      it. */
  lemma HighestTempYear(s: seq<Sample>, reference: real)
    ensures var rows := YearlySummary(s, reference);
      && (YearWithHighestTemp(rows).None? <==> s == [])
      && (s != [] ==>
            exists i :: 0 <= i < |rows| && rows[i].year == YearWithHighestTemp(rows).value
              && rows[i].max == Max(Temps(s))
              && forall j :: 0 <= j < i ==> rows[j].max < rows[i].max)
  {
    EmptyTableIffNoSamples(s, reference);
    if s != [] {
      RowMaxesWithinSeries(s, reference);
      HottestReadingHasARow(s, reference);
      HighestYearIsFirstMaxRow(YearlySummary(s, reference), Max(Temps(s)));
    }
  }

  /** Every yearly mean lies within the range of the series. */
  lemma RowMeansWithinSeries(s: seq<Sample>, reference: real)
    ensures forall j :: 0 <= j < |RowMeans(YearlySummary(s, reference))| ==>
              Min(Temps(s)) <= RowMeans(YearlySummary(s, reference))[j] <= Max(Temps(s))
  {
    var means := RowMeans(YearlySummary(s, reference));
    forall j | 0 <= j < |means|
      ensures Min(Temps(s)) <= means[j] <= Max(Temps(s))
    {
      RowWithinSeries(s, reference, j);
    }
  }

  /** The headline average of yearly means is present exactly when the table
      is non-empty, and lies between the coldest and the hottest reading of
      the series. */
  lemma OverallMeanBounds(s: seq<Sample>, reference: real)
    ensures OverallMean(YearlySummary(s, reference)).None? <==> s == []
    ensures s != [] ==>
      Min(Temps(s)) <= OverallMean(YearlySummary(s, reference)).value <= Max(Temps(s))
  {
    var rows := YearlySummary(s, reference);
    EmptyTableIffNoSamples(s, reference);
    if s != [] {
      RowMeansWithinSeries(s, reference);
      MeanWithinBounds(RowMeans(rows), Min(Temps(s)), Max(Temps(s)));
    }
  }
}
