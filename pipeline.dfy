/** The aggregation pipeline of `generate_weather_summary`
    (Bank/weather_tool.py, lines 50-150, 302-317 and 360-364) from the two
    fetched frames to the figures and tables the workbook is built from. */
module Pipeline {
  import opened Wrappers
  import opened Calendar
  import opened Granularity
  import opened Frame
  import opened Stats
  import opened Grouping
  import opened Yearly
  import opened Tables
  import opened Extremes

  /** Everything the workbook shows, before rounding and formatting. */
  datatype Report = Report(
    granularity: Granularity,
    overallAvgMeanTemp: real,
    yearWithHighestTemp: int,
    totalAboveRef: nat,
    yearly: seq<YearRow>,
    seasonal: seq<SeasonRow>,
    monthly: seq<MonthRow>,
    latestYear: int,
    recent: seq<MonthRow>,
    hottest: seq<Sample>,
    coldest: seq<Sample>)

  /** The report built from the normalised samples of a chosen source. */
  function ReportOf(g: Granularity, s: seq<Sample>, reference: real): Report
    requires s != []
  {
    var yearly := YearlySummary(s, reference);
    var monthly := MonthlyAvg(s);
    OverallMeanBounds(s, reference);
    HighestTempYear(s, reference);
    LatestYearOfSamples(s);
    var latest := LatestYear(monthly).value;
    Report(g, OverallMean(yearly).value, YearWithHighestTemp(yearly).value, TotalAboveRef(yearly),
           yearly, SeasonalSummary(s), monthly, latest, RowsOfYear(monthly, latest),
           Hottest(s), Coldest(s))
  }

  /** What a successful report promises about its headline figures and
      tables: the headline average lies within the range of the readings,
      the headline year holds the hottest reading, the headline total counts
      every reading above the reference, the latest year is that of the
      latest sample and its slice holds between one and twelve months. */
  lemma ReportFacts(g: Granularity, s: seq<Sample>, reference: real)
    requires s != []
    ensures var rep := ReportOf(g, s, reference);
      && Min(Temps(s)) <= rep.overallAvgMeanTemp <= Max(Temps(s))
      && (exists i :: 0 <= i < |rep.yearly| && rep.yearly[i].year == rep.yearWithHighestTemp
            && rep.yearly[i].max == Max(Temps(s)))
      && rep.totalAboveRef == CountAbove(Temps(s), reference)
      && (forall x :: x in s ==> x.year <= rep.latestYear)
      && (exists x :: x in s && x.year == rep.latestYear)
      && 0 < |rep.recent| <= 12
      && (forall r :: r in rep.recent <==> r in rep.monthly && r.year == rep.latestYear)
  {
    OverallMeanBounds(s, reference);
    HighestTempYear(s, reference);
    TotalAboveRefCountsAllSamples(s, reference);
    LatestYearOfSamples(s);
    LatestYearSlice(s);
  }

  /** What a successful report promises about its extreme lists: each holds
      min(10, n) of the samples, hottest (coldest) first, and no sample left
      out is hotter (colder) than one kept. */
  lemma ReportExtremes(g: Granularity, s: seq<Sample>, reference: real)
    requires s != []
    ensures var rep := ReportOf(g, s, reference);
      && |rep.hottest| == |rep.coldest| == (if |s| <= 10 then |s| else 10)
      && multiset(rep.hottest) <= multiset(s) && multiset(rep.coldest) <= multiset(s)
      && (forall i, j :: 0 <= i < j < |rep.hottest| ==> TempF(rep.hottest[i]) >= TempF(rep.hottest[j]))
      && (forall i, j :: 0 <= i < j < |rep.coldest| ==> TempF(rep.coldest[i]) <= TempF(rep.coldest[j]))
      && (forall x, y :: x in multiset(s) - multiset(rep.hottest) && y in rep.hottest ==> TempF(x) <= TempF(y))
      && (forall x, y :: x in multiset(s) - multiset(rep.coldest) && y in rep.coldest ==> TempF(y) <= TempF(x))
  {
    assert ReportOf(g, s, reference).hottest == Hottest(s);
    assert ReportOf(g, s, reference).coldest == Coldest(s);
    HottestSamples(s);
    ColdestSamples(s);
  }

  /** Lines 50-150, 302-317 and 360-364 run in order. The run fails when no
      datetime column is found, when the chosen frame has no `temp` column
      (line 101), when the date lookup has no "time" column,
      and when no sample keeps a temperature (the table the headline year
      is taken from is then empty). */
  method GenerateWeatherSummary(hourly: FetchedFrame, daily: FetchedFrame, reference: real)
    returns (r: Result<Report, DataError>)
    ensures match SourceChoice(hourly, daily)
      case Failure(e) => r == Failure(e)
      case Success(src) =>
        if !src.hasTemp then r == Failure(NoTempColumn)
        else if src.timeColumn != "time" then r == Failure(NoTimeColumn)
        else if Normalized(src.rows, src.timeColumn) == [] then r == Failure(NoSamples)
        else r == Success(ReportOf(src.granularity, Normalized(src.rows, src.timeColumn), reference))
  {
    var chosen := ChooseSource(hourly, daily);
    if chosen.Failure? {
      return Failure(chosen.error);
    }
    var src := chosen.value;
    if !src.hasTemp {
      return Failure(NoTempColumn);
    }
    var samples := Normalize(src.rows, src.timeColumn);
    var yearly := SummarizeYears(samples, reference);
    if src.timeColumn != "time" {
      return Failure(NoTimeColumn);
    }
    EmptyTableIffNoSamples(samples, reference);
    if yearly == [] {
      return Failure(NoSamples);
    }
    r := Success(ReportOf(src.granularity, samples, reference));
  }
}
