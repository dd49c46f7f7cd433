/** Calendar fields of an observation timestamp and the meteorological season
    of a month (get_season in Bank/weather_tool.py). */
module Calendar {

  /** A calendar month as a datetime column yields it. */
  type Month = m: int | 1 <= m <= 12 witness 1

  /** A timestamp of the fetched series, to the hour. */
  datatype Timestamp = Timestamp(year: int, month: Month, day: int, hour: int)

  datatype Season = Winter | Spring | Summer | Fall

  /** The season of a month value; every value that is not a winter, spring
      or summer month falls through to Fall, as the source's else does. */
  function GetSeason(month: int): (s: Season)
    ensures 1 <= month <= 12 ==> s == QuarterSeason(month)
    ensures !(1 <= month <= 8 || month == 12) ==> s == Fall
  {
    if month in [12, 1, 2] then Winter
    else if month in [3, 4, 5] then Spring
    else if month in [6, 7, 8] then Summer
    else Fall
  }

  /** Reference definition: the quarter of the year that starts in December. */
  function QuarterSeason(m: Month): Season
  {
    var q := (m % 12) / 3;
    if q == 0 then Winter else if q == 1 then Spring else if q == 2 then Summer else Fall
  }

  /** pandas sorts the string labels of a (year, season) group key, so the
      seasons come in the alphabetical order of their names:
      "Fall" < "Spring" < "Summer" < "Winter". */
  function SeasonRank(s: Season): (r: int)
    ensures 0 <= r < 4
  {
    match s
    case Fall => 0
    case Spring => 1
    case Summer => 2
    case Winter => 3
  }

  lemma SeasonRankInjective(a: Season, b: Season)
    ensures SeasonRank(a) == SeasonRank(b) <==> a == b
  {
  }

  /** Chronological order of timestamps: lexicographic on (year, month, day, hour). */
  predicate NotAfter(a: Timestamp, b: Timestamp)
  {
    if a.year != b.year then a.year < b.year
    else if a.month != b.month then a.month < b.month
    else if a.day != b.day then a.day < b.day
    else a.hour <= b.hour
  }
}
