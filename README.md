# Weather summary aggregation, modelled in Dafny

This project models the temperature aggregation inside `generate_weather_summary`
(`Bank/weather_tool.py`). The function turns a fetched series of temperature
observations into the figures and tables of a weather workbook, in five steps:

1. **Choosing the series.** The hourly series is kept when it has a datetime
   column (`time`, then `date`), has rows, and covers at least ten distinct
   years. Otherwise the daily series is used (`Granularity`).
2. **Normalisation.** Each row gets:
   - its year, month and day;
   - its season;
   - an hour, which is the timestamp's hour when the column is called `time`
     and 12 otherwise;
   - a Fahrenheit reading `temp * 9/5 + 32`.

   Rows without a reading are dropped (`Frame`).
3. **The yearly summary.** For each year the table holds:
   - max, min and mean;
   - a 5-row rolling mean of the yearly means;
   - the max - min delta;
   - the count and the percentage of readings strictly above a reference
     temperature;
   - the timestamps of the first readings of the year's max and min.

   Three headline figures are read off it (`Yearly`).
4. **The seasonal and monthly tables and the latest-year slice.** These are
   sparse group-bys on (year, season) and (year, month) (`Tables`).
5. **The ten hottest and ten coldest samples** (`Extremes`).

`Pipeline.GenerateWeatherSummary` runs the steps in order. It fails, in the
source's order, when:
1. no datetime column is found, or the column name left over from the hourly
   scan is missing from the daily frame;
2. the chosen frame has no Celsius `temp` column (line 101);
3. the date lookup finds no `time` column (lines 134-135);
4. no sample keeps a reading (line 149).

Modules:
- **Support:**
  - `Wrappers` holds `Option` and `Result`.
  - `Calendar` holds timestamps, months, seasons, and the order pandas gives to
    season names.
  - `Stats` holds max, min, sum, mean, the count above a reference, and the
    percentage.
  - `Grouping` holds the key-sorted, sparse pandas `groupby`. Each group key is
    encoded as one integer: `year`, `year*4 + season rank` or
    `year*12 + month - 1`. The lemma `Grouping.KeyOfIsFaithful` proves that this
    encoding orders keys exactly as the grouping columns do.
- **Imperative parts:**
  - the column-detection loops with their early exit;
  - the addition of columns row by row;
  - the yearly table filled one row at a time.

  These are methods with loop invariants. Each is proved equal to a
  specification function, and the properties are proved about those functions.
- **Pure parts:** the group-bys, the rolling mean and the sorting are functions
  with lemmas.

Temperatures are exact `real`s. A missing reading is `None`.

Which definition models which source lines (all in `Bank/weather_tool.py`):
- `Granularity.SourceChoice`: lines 50-74, the choice of series, its
  datetime column and the stale-name failure.
- `Frame.Normalized`: lines 74-108, the derived columns and the drop of rows
  without a reading.
- `Yearly.YearlySummary`: lines 111-137, the yearly table.
  - `Yearly.RollingMean5` is line 112.
  - `Yearly.FirstTimeReading` is lines 134-135.
- `Yearly.OverallMean`, `Yearly.YearWithHighestTemp` and
  `Yearly.TotalAboveRef`: lines 148-150, the headline figures.
- `Tables.SeasonalSummary`: line 140.
- `Tables.MonthlyAvg`: line 302.
- `Tables.LatestYear` and `Tables.RowsOfYear`: lines 316-317.
- `Extremes.Hottest` and `Extremes.Coldest`: lines 360 and 364.
- `Pipeline.ReportOf`: the figures and tables above, gathered into one report.

## Model

| member | source | states |
|---|---|---|
| Calendar.GetSeason | Bank/weather_tool.py:79-87 | months 12, 1, 2 are Winter, 3-5 Spring, 6-8 Summer, and every other month value Fall; on 1..12 it agrees with the quarter-of-year reference `QuarterSeason` |
| Granularity.FirstDatetimeColumn | Bank/weather_tool.py:51-54 | the first candidate, in order, that is a datetime column of the frame; None exactly when no candidate is |
| Granularity.FindDatetimeColumn | Bank/weather_tool.py:51-54 | the detection loop with its `break` finds exactly the first datetime column among `time`, `date` |
| Granularity.EmptyFrameCoversNoYear | Bank/weather_tool.py:56 | an empty frame covers fewer than ten years, so the emptiness test never decides on its own |
| Granularity.GranularityDecision | Bank/weather_tool.py:56-69 | Hourly exactly when the hourly frame has a datetime column, rows and at least ten distinct years; failure exactly when that does not hold and the daily frame has no datetime column; the chosen column is the chosen frame's first datetime column, and the chosen series records whether that frame has a `temp` column |
| Granularity.ChooseSource | Bank/weather_tool.py:50-72 | the two scans sharing one variable that the daily scan does not reset give exactly `SourceChoice`, including the stale-name failure |
| Frame.ToFahrenheit | Bank/weather_tool.py:101 | the conversion is exactly invertible: (f - 32) * 5/9 gives back the Celsius reading |
| Frame.Columns | Bank/weather_tool.py:74-101 | one row per observation, each carrying its timestamp's year, month and day, the season of its month, the hour rule and the converted reading |
| Frame.AddColumns | Bank/weather_tool.py:74-101 | the row-by-row loop builds exactly `Columns` |
| Frame.KeepPresent | Bank/weather_tool.py:102 | keeps exactly the rows with a Fahrenheit reading, never more rows than given |
| Frame.KeepPresentCounts | Bank/weather_tool.py:102 | the drop keeps each row that has a reading exactly as many times as the frame holds it, and no other row |
| Frame.KeepPresentIdempotent | Bank/weather_tool.py:105-108 | dropping missing readings a second time changes nothing |
| Frame.RecomputeIsIdentity | Bank/weather_tool.py:105 | recomputing the Fahrenheit column of already converted rows changes nothing |
| Frame.Normalize | Bank/weather_tool.py:74-108 | convert, drop, convert again, drop again yields exactly `Normalized` |
| Frame.NormalizedMatchesReadings | Bank/weather_tool.py:74-108 | the samples are the observations that have a reading, in input order, each with temp * 9/5 + 32 and its calendar fields and season |
| Frame.NormalizedHoursAreReal | Bank/weather_tool.py:91-99 | when the timestamp column is `time`, every sample's hour is its timestamp's hour, so the midday sentinel 12 never appears |
| Stats.MaxIsGreatest | Bank/weather_tool.py:111 | the max bounds every value and is one of them |
| Stats.MinIsLeast | Bank/weather_tool.py:111 | the min is below every value and is one of them |
| Stats.MeanBetweenMinAndMax | Bank/weather_tool.py:111 | min <= mean <= max |
| Stats.MeanOfFive | Bank/weather_tool.py:112 | the mean of a five-value window is their sum over five |
| Stats.CountAboveExtremes | Bank/weather_tool.py:116-117 | the count above the reference equals the length exactly when all values are above, and is 0 exactly when none is |
| Stats.PercentRange | Bank/weather_tool.py:129-131 | a part of a whole as a percentage lies in [0, 100], is 100 exactly when part = whole and 0 exactly when part = 0 |
| Stats.FirstIndexOf | Bank/weather_tool.py:149 | the first position holding the value, as `idxmax` returns the first maximum |
| Grouping.KeyOfIsFaithful | Bank/weather_tool.py:140 | the integer group key is equal exactly for rows in the same group and ordered exactly by year, then season name or month |
| Grouping.GroupKeysSorted | Bank/weather_tool.py:111 | group keys are strictly ascending, one per combination present and no other |
| Grouping.GroupMembers | Bank/weather_tool.py:111 | a group holds exactly the samples with its key, each as often as the frame does |
| Grouping.GroupStatsBounds | Bank/weather_tool.py:140 | an observed group's max and min bound all its readings and are attained; its mean lies between them |
| Grouping.SumCountsPartition | Bank/weather_tool.py:117 | summing per-group counts above the reference over all keys gives the count over the whole frame |
| Yearly.FirstTimeReadingIsFirst | Bank/weather_tool.py:134-137 | the date lookup returns the timestamp of the first sample, in input order, of that year with that reading |
| Yearly.SummarizeYears | Bank/weather_tool.py:111-137 | filling the table one row at a time yields exactly `YearlySummary` |
| Yearly.YearlyRowsAscending | Bank/weather_tool.py:111 | rows are in strictly ascending year order |
| Yearly.YearlyRowsPerYear | Bank/weather_tool.py:111 | there is a row for a year exactly when some sample has that year |
| Yearly.YearlyRowBounds | Bank/weather_tool.py:111-113 | min <= mean <= max, delta = max - min >= 0, max and min bound every reading of the year and are attained by a sample of it |
| Yearly.FiveYearAverage | Bank/weather_tool.py:112 | absent exactly for the first four rows, otherwise the mean of the yearly means of rows i-4..i |
| Yearly.AboveReference | Bank/weather_tool.py:116-131 | the count is that of the year's readings strictly above the reference and at most the year's total; the percentage lies in [0, 100], is 100 exactly when every sample of the year is above and 0 exactly when none is; every year has a total, so the fallback 0 is never used |
| Yearly.ExtremeDates | Bank/weather_tool.py:134-137 | both dates are present and are the timestamps of the first sample of the year, in input order, reading the year's max (min) |
| Yearly.EarliestMaxDate | Bank/weather_tool.py:134 | on a chronological series the max date is not after any time the year's max was read |
| Yearly.EmptyTableIffNoSamples | Bank/weather_tool.py:111 | the yearly table is empty exactly when there are no samples |
| Yearly.OverallMeanBounds | Bank/weather_tool.py:148 | the average of yearly means is present exactly when there are samples and lies between the coldest and hottest reading |
| Yearly.SummaryMeansAreYearMeans | Bank/weather_tool.py:148 | the mean column that the headline average reads is the per-year mean column of the aggregation |
| Yearly.HighestYearIsFirstMaxRow | Bank/weather_tool.py:149 | the headline year is that of the first row whose max is the largest |
| Yearly.HighestTempYear | Bank/weather_tool.py:149 | the headline year is present exactly when there are samples, its max is the series' hottest reading, and no earlier year reached it |
| Yearly.TotalAboveRefCountsAllSamples | Bank/weather_tool.py:150 | the headline total is the number of samples above the reference over the whole series |
| Tables.SeasonalRowsObserved | Bank/weather_tool.py:140 | every seasonal row is the (year, season) pair of some sample; no combination is filled in |
| Tables.SeasonRowFor | Bank/weather_tool.py:140 | every sample's (year, season) pair has a row, and this lemma names its index |
| Tables.SeasonalRowsCoverSamples | Bank/weather_tool.py:140 | every sample's (year, season) pair appears in the seasonal table |
| Tables.SeasonalRowsOrdered | Bank/weather_tool.py:140 | seasonal rows come by year, then by season name |
| Tables.SeasonalRowBounds | Bank/weather_tool.py:140 | min <= mean <= max; max and min bound every reading of the pair and are attained |
| Tables.GroupIsMonthSamples | Bank/weather_tool.py:302 | the group of a month key is exactly the samples of that (year, month), in order |
| Tables.MonthlyRowsObserved | Bank/weather_tool.py:302 | every monthly row is the (year, month) pair of some sample; no month is zero-filled |
| Tables.MonthRowFor | Bank/weather_tool.py:302 | every sample's (year, month) pair has a row, and this lemma names its index |
| Tables.MonthlyRowsCoverSamples | Bank/weather_tool.py:302 | every sample's (year, month) pair appears in the monthly table |
| Tables.MonthlyRowsOrdered | Bank/weather_tool.py:302 | monthly rows come by year, then by month |
| Tables.MonthlyRowMean | Bank/weather_tool.py:302 | a monthly row's value is the mean of the readings of exactly its pair's samples and lies between two of those readings |
| Tables.MaxYearIsLatest | Bank/weather_tool.py:316 | the latest year bounds every row's year and is one of them |
| Tables.LatestYearOfSamples | Bank/weather_tool.py:316 | the latest year is present exactly when there are samples and is the year of the latest sample |
| Tables.RowsOfYearMembers | Bank/weather_tool.py:317 | the slice holds exactly the rows of that year |
| Tables.LatestYearSlice | Bank/weather_tool.py:316-317 | the recent rows are exactly the monthly rows of the latest year, in month order, between one and twelve of them |
| Extremes.InsertSorted | Bank/weather_tool.py:360 | inserting into a temperature-ordered list keeps it ordered |
| Extremes.SortByTempSorts | Bank/weather_tool.py:360 | the sort orders by temperature and is a permutation |
| Extremes.TopSelects | Bank/weather_tool.py:360-364 | the selection has min(10, n) samples, is ordered, is a sub-multiset of the input, and no sample left out precedes one kept |
| Extremes.HottestSamples | Bank/weather_tool.py:360 | min(10, n) samples, non-increasing, a sub-multiset, and no excluded sample hotter than any kept one |
| Extremes.ColdestSamples | Bank/weather_tool.py:364 | min(10, n) samples, non-decreasing, a sub-multiset, and no excluded sample colder than any kept one |
| Pipeline.GenerateWeatherSummary | Bank/weather_tool.py:50-150 | fails with the source-choice error, then if the chosen frame has no `temp` column (line 101), then if the date lookup has no `time` column, then if no sample kept a reading; otherwise returns the report of the normalised samples |
| Pipeline.ReportFacts | Bank/weather_tool.py:148-150 | a report's headline average lies in the reading range, its year holds the hottest reading, its total counts every reading above the reference, and its latest-year slice holds exactly that year's monthly rows, one to twelve of them |
| Pipeline.ReportExtremes | Bank/weather_tool.py:360-364 | a report's hottest and coldest lists each hold min(10, n) of the samples (a sub-multiset), ordered hottest first and coldest first, with no left-out sample hotter (colder) than a kept one |

## Left out

- Geocoding, the hard-coded fallback location, and the Meteostat hourly and daily fetches are network I/O. The two fetched frames are inputs to `Pipeline.GenerateWeatherSummary`. Each frame is reduced to its rows and, for each column name, whether that column has a datetime dtype. A row's reading is its `temp` value, used only when the frame has a `temp` column.
- The start and end dates of the fetch come from the clock, so they are not modelled.
- API-key and environment loading are global configuration with no logic.
- The sample standard deviation column of the yearly and seasonal tables needs a square root. It is not modelled.
- Rounding (to 1 or 2 decimals), `strftime` date formatting and the `int(...)` casts are presentation. The model keeps exact values and whole timestamps.
- The openpyxl workbook, its styling and charts, the sheet loops that copy table rows into cells, and the xlsx/CSV writes are presentation and I/O.
- Temperatures are exact reals rather than IEEE doubles. No rounding error and no NaN arithmetic is modelled; a missing reading is `None` throughout.
- The hottest and coldest lists are modelled as whole samples, not only the timestamp and temperature columns that are printed.
- The tie order of those lists is not modelled. The source's default sort is not stable, so no order among equal temperatures is promised. The insertion sort here is one admissible order, and only order-independent properties are proved.
- `Frame.HourOf`: the hour is the timestamp's hour when the datetime column is named `time`, and 12 otherwise. This follows the code at lines 91-99. The code does not decide by which series was chosen, as a description in terms of hourly versus daily data would suggest. Because a run whose column is not `time` always fails at the date lookup of lines 134-135, the sentinel 12 never reaches a successful report; `Frame.NormalizedHoursAreReal` states the hour that does.
- `Pipeline.GenerateWeatherSummary`: with no samples at all the source cannot form the headline year (`idxmax` of an empty column, line 149), so the model returns the `NoSamples` error. It does not produce an empty report.
- `Pipeline.GenerateWeatherSummary`: the max/min date lookup (lines 134-135) reads a column literally named `time`. When the chosen datetime column is `date`, the model returns the `NoTimeColumn` error.
- `Pipeline.GenerateWeatherSummary`: lines 101 and 105 read the Celsius column `temp` of whichever frame was chosen. When that frame has no such column (a daily series that stores its mean under another name, for instance), the model returns the `NoTempColumn` error, after the datetime-column failures and before the date lookup.
- `Granularity.ChooseSource`: the name found by the hourly scan is not cleared before the daily scan. When the daily frame has no datetime column but the hourly one did, the check on line 66 passes with the stale name, and the run fails when that column is read from the daily frame (line 74). The model returns `StaleDatetimeColumn` for this case. It returns `NoDatetimeColumn` only when neither scan found a column.
