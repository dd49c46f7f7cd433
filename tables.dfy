/** The seasonal table (`groupby(['year', 'season'])`), the monthly table
    (`groupby(['year', 'month'])`) and the latest-year slice of the monthly
    table (Bank/weather_tool.py, lines 140, 302 and 316-317). Both tables
    are sparse: a row exists only for a combination some sample has. The
    sample standard deviation column of the seasonal table is not part of
    this model. */
module Tables {
  import opened Wrappers
  import opened Calendar
  import opened Frame
  import opened Stats
  import opened Grouping

  /** One row of the seasonal table. */
  datatype SeasonRow = SeasonRow(year: int, season: Season, max: real, min: real, mean: real)

  /** One row of the monthly table. */
  datatype MonthRow = MonthRow(year: int, month: Month, mean: real)

  // ---------------------------------------------------------------------
  // Seasonal table (line 140)

  function SeasonRowOf(s: seq<Sample>, k: int): SeasonRow
    requires k in GroupKeys(BySeason, s)
  {
    ObservedGroupIsNonEmpty(BySeason, s, k);
    var g := Group(BySeason, s, k);
    var ts := Temps(g);
    SeasonRow(g[0].year, g[0].season, Max(ts), Min(ts), Mean(ts))
  }

  function SeasonalSummary(s: seq<Sample>): (rows: seq<SeasonRow>)
    ensures |rows| == |GroupKeys(BySeason, s)|
  {
    var ks := GroupKeys(BySeason, s);
    seq(|ks|, i requires 0 <= i < |ks| => SeasonRowOf(s, ks[i]))
  }

  /** Row i carries the year and season of a sample with the i-th key. */
  lemma SeasonRowRepresentative(s: seq<Sample>, i: nat)
    requires i < |SeasonalSummary(s)|
    ensures exists x :: x in s && KeyOf(BySeason, x) == GroupKeys(BySeason, s)[i]
              && x.year == SeasonalSummary(s)[i].year && x.season == SeasonalSummary(s)[i].season
  {
    var k := GroupKeys(BySeason, s)[i];
    ObservedGroupIsNonEmpty(BySeason, s, k);
    var g := Group(BySeason, s, k);
    GroupMembers(BySeason, s, k);
    assert g[0] in g;
  }

  /** Row i's statistics are those of the i-th group's readings. */
  lemma SeasonRowStats(s: seq<Sample>, i: nat)
    requires i < |SeasonalSummary(s)|
    ensures |Group(BySeason, s, GroupKeys(BySeason, s)[i])| > 0
    ensures var ts := Temps(Group(BySeason, s, GroupKeys(BySeason, s)[i]));
      var r := SeasonalSummary(s)[i];
      r.max == Max(ts) && r.min == Min(ts) && r.mean == Mean(ts)
  {
    ObservedGroupIsNonEmpty(BySeason, s, GroupKeys(BySeason, s)[i]);
  }

  /** Every seasonal row is the (year, season) pair of some sample: no
      combination is filled in. */
  lemma SeasonalRowsObserved(s: seq<Sample>)
    ensures forall i :: 0 <= i < |SeasonalSummary(s)| ==>
              exists x :: x in s && x.year == SeasonalSummary(s)[i].year && x.season == SeasonalSummary(s)[i].season
  {
    var rows := SeasonalSummary(s);
    forall i | 0 <= i < |rows|
      ensures exists x :: x in s && x.year == rows[i].year && x.season == rows[i].season
    {
      SeasonRowRepresentative(s, i);
    }
  }

  /** The row holding a sample's (year, season) pair. */
  lemma SeasonRowFor(s: seq<Sample>, x: Sample) returns (i: nat)
    requires x in s
    ensures i < |SeasonalSummary(s)|
    ensures SeasonalSummary(s)[i].year == x.year && SeasonalSummary(s)[i].season == x.season
  {
    var ks := GroupKeys(BySeason, s);
    assert KeyOf(BySeason, x) in ks by {
      GroupKeysSorted(BySeason, s);
    }
    var j :| 0 <= j < |ks| && ks[j] == KeyOf(BySeason, x);
    i := j;
    SeasonRowRepresentative(s, i);
    var x0 :| x0 in s && KeyOf(BySeason, x0) == ks[i]
      && x0.year == SeasonalSummary(s)[i].year && x0.season == SeasonalSummary(s)[i].season;
    KeyOfIsFaithful(BySeason, x0, x);
  }

  /** Every sample's (year, season) pair has a seasonal row. */
  lemma SeasonalRowsCoverSamples(s: seq<Sample>)
    ensures forall x :: x in s ==>
              exists i :: 0 <= i < |SeasonalSummary(s)|
                && SeasonalSummary(s)[i].year == x.year && SeasonalSummary(s)[i].season == x.season
  {
    forall x | x in s
      ensures exists i :: 0 <= i < |SeasonalSummary(s)|
                && SeasonalSummary(s)[i].year == x.year && SeasonalSummary(s)[i].season == x.season
    {
      var i := SeasonRowFor(s, x);
    }
  }

  /** The seasonal rows come by year, then by season name. */
  lemma SeasonalRowsOrdered(s: seq<Sample>)
    ensures forall i, j :: 0 <= i < j < |SeasonalSummary(s)| ==>
              SeasonalSummary(s)[i].year < SeasonalSummary(s)[j].year
              || (SeasonalSummary(s)[i].year == SeasonalSummary(s)[j].year
                  && SeasonRank(SeasonalSummary(s)[i].season) < SeasonRank(SeasonalSummary(s)[j].season))
  {
    var rows := SeasonalSummary(s);
    var ks := GroupKeys(BySeason, s);
    assert StrictlyIncreasing(ks) by {
      GroupKeysSorted(BySeason, s);
    }
    forall i, j | 0 <= i < j < |rows|
      ensures rows[i].year < rows[j].year
              || (rows[i].year == rows[j].year && SeasonRank(rows[i].season) < SeasonRank(rows[j].season))
    {
      SeasonRowRepresentative(s, i);
      SeasonRowRepresentative(s, j);
      var a :| a in s && KeyOf(BySeason, a) == ks[i] && a.year == rows[i].year && a.season == rows[i].season;
      var b :| b in s && KeyOf(BySeason, b) == ks[j] && b.year == rows[j].year && b.season == rows[j].season;
      KeyOfIsFaithful(BySeason, a, b);
    }
  }

  /** A seasonal row's max and min bound every reading of its year and
      season and are each read by such a sample; its mean lies between. */
  lemma SeasonalRowBounds(s: seq<Sample>, i: nat)
    requires i < |SeasonalSummary(s)|
    ensures var r := SeasonalSummary(s)[i];
      && r.min <= r.mean <= r.max
      && (forall x :: x in s && x.year == r.year && x.season == r.season ==> r.min <= TempF(x) <= r.max)
      && (exists x :: x in s && x.year == r.year && x.season == r.season && TempF(x) == r.max)
      && (exists x :: x in s && x.year == r.year && x.season == r.season && TempF(x) == r.min)
  {
    var r := SeasonalSummary(s)[i];
    var k := GroupKeys(BySeason, s)[i];
    SeasonRowStats(s, i);
    SeasonRowRepresentative(s, i);
    var x0 :| x0 in s && KeyOf(BySeason, x0) == k && x0.year == r.year && x0.season == r.season;
    assert k in GroupKeys(BySeason, s);
    GroupStatsBounds(BySeason, s, k);
    forall x | x in s && x.year == r.year && x.season == r.season
      ensures KeyOf(BySeason, x) == k
    {
      KeyOfIsFaithful(BySeason, x0, x);
    }
    var ts := Temps(Group(BySeason, s, k));
    var a :| a in s && KeyOf(BySeason, a) == k && TempF(a) == Max(ts);
    KeyOfIsFaithful(BySeason, x0, a);
    var b :| b in s && KeyOf(BySeason, b) == k && TempF(b) == Min(ts);
    KeyOfIsFaithful(BySeason, x0, b);
  }

  // ---------------------------------------------------------------------
  // Monthly table (line 302)

  function MonthRowOf(s: seq<Sample>, k: int): MonthRow
    requires k in GroupKeys(ByMonth, s)
  {
    ObservedGroupIsNonEmpty(ByMonth, s, k);
    var g := Group(ByMonth, s, k);
    MonthRow(g[0].year, g[0].month, Mean(Temps(g)))
  }

  function MonthlyAvg(s: seq<Sample>): (rows: seq<MonthRow>)
    ensures |rows| == |GroupKeys(ByMonth, s)|
  {
    var ks := GroupKeys(ByMonth, s);
    seq(|ks|, i requires 0 <= i < |ks| => MonthRowOf(s, ks[i]))
  }

  /** The samples of one (year, month) pair, in input order: the reference
      meaning of a monthly group. */
  function MonthSamples(s: seq<Sample>, y: int, m: Month): seq<Sample>
  {
    if s == [] then []
    else (if s[0].year == y && s[0].month == m then [s[0]] else []) + MonthSamples(s[1..], y, m)
  }

  /** The group of a sample's month key is that sample's (year, month) pair. */
  lemma {:induction false} GroupIsMonthSamples(s: seq<Sample>, x0: Row)
    ensures Group(ByMonth, s, KeyOf(ByMonth, x0)) == MonthSamples(s, x0.year, x0.month)
  {
    if s != [] {
      KeyOfIsFaithful(ByMonth, s[0], x0);
      GroupIsMonthSamples(s[1..], x0);
    }
  }

  /** Row i carries the year and month of a sample with the i-th key. */
  lemma MonthRowRepresentative(s: seq<Sample>, i: nat)
    requires i < |MonthlyAvg(s)|
    ensures exists x :: x in s && KeyOf(ByMonth, x) == GroupKeys(ByMonth, s)[i]
              && x.year == MonthlyAvg(s)[i].year && x.month == MonthlyAvg(s)[i].month
  {
    var k := GroupKeys(ByMonth, s)[i];
    ObservedGroupIsNonEmpty(ByMonth, s, k);
    var g := Group(ByMonth, s, k);
    GroupMembers(ByMonth, s, k);
    assert g[0] in g;
  }

  /** Every monthly row is the (year, month) pair of some sample: no
      combination is filled in. */
  lemma MonthlyRowsObserved(s: seq<Sample>)
    ensures forall i :: 0 <= i < |MonthlyAvg(s)| ==>
              exists x :: x in s && x.year == MonthlyAvg(s)[i].year && x.month == MonthlyAvg(s)[i].month
  {
    var rows := MonthlyAvg(s);
    forall i | 0 <= i < |rows|
      ensures exists x :: x in s && x.year == rows[i].year && x.month == rows[i].month
    {
      MonthRowRepresentative(s, i);
    }
  }

  /** The row holding a sample's (year, month) pair. */
  lemma MonthRowFor(s: seq<Sample>, x: Sample) returns (i: nat)
    requires x in s
    ensures i < |MonthlyAvg(s)|
    ensures MonthlyAvg(s)[i].year == x.year && MonthlyAvg(s)[i].month == x.month
  {
    var ks := GroupKeys(ByMonth, s);
    assert KeyOf(ByMonth, x) in ks by {
      GroupKeysSorted(ByMonth, s);
    }
    var j :| 0 <= j < |ks| && ks[j] == KeyOf(ByMonth, x);
    i := j;
    MonthRowRepresentative(s, i);
    var x0 :| x0 in s && KeyOf(ByMonth, x0) == ks[i]
      && x0.year == MonthlyAvg(s)[i].year && x0.month == MonthlyAvg(s)[i].month;
    KeyOfIsFaithful(ByMonth, x0, x);
  }

  /** Every sample's (year, month) pair has a monthly row. */
  lemma MonthlyRowsCoverSamples(s: seq<Sample>)
    ensures forall x :: x in s ==>
              exists i :: 0 <= i < |MonthlyAvg(s)|
                && MonthlyAvg(s)[i].year == x.year && MonthlyAvg(s)[i].month == x.month
  {
    forall x | x in s
      ensures exists i :: 0 <= i < |MonthlyAvg(s)|
                && MonthlyAvg(s)[i].year == x.year && MonthlyAvg(s)[i].month == x.month
    {
      var i := MonthRowFor(s, x);
    }
  }

  /** The monthly rows come by year, then by month. */
  predicate MonthTableOrdered(rows: seq<MonthRow>)
  {
    forall i, j :: 0 <= i < j < |rows| ==>
      rows[i].year < rows[j].year || (rows[i].year == rows[j].year && rows[i].month < rows[j].month)
  }

  lemma MonthlyRowsOrdered(s: seq<Sample>)
    ensures MonthTableOrdered(MonthlyAvg(s))
  {
    var rows := MonthlyAvg(s);
    var ks := GroupKeys(ByMonth, s);
    assert StrictlyIncreasing(ks) by {
      GroupKeysSorted(ByMonth, s);
    }
    forall i, j | 0 <= i < j < |rows|
      ensures rows[i].year < rows[j].year || (rows[i].year == rows[j].year && rows[i].month < rows[j].month)
    {
      MonthRowRepresentative(s, i);
      MonthRowRepresentative(s, j);
      var a :| a in s && KeyOf(ByMonth, a) == ks[i] && a.year == rows[i].year && a.month == rows[i].month;
      var b :| b in s && KeyOf(ByMonth, b) == ks[j] && b.year == rows[j].year && b.month == rows[j].month;
      KeyOfIsFaithful(ByMonth, a, b);
    }
  }

  /** A monthly row's value is the mean of the readings of exactly the
      samples of its (year, month) pair, and lies between the coldest and
      the hottest of them. */
  lemma MonthlyRowMean(s: seq<Sample>, i: nat)
    requires i < |MonthlyAvg(s)|
    ensures var r := MonthlyAvg(s)[i];
      && |MonthSamples(s, r.year, r.month)| > 0
      && r.mean == Mean(Temps(MonthSamples(s, r.year, r.month)))
      && (exists x :: x in s && x.year == r.year && x.month == r.month && TempF(x) <= r.mean)
      && (exists x :: x in s && x.year == r.year && x.month == r.month && r.mean <= TempF(x))
  {
    var r := MonthlyAvg(s)[i];
    var k := GroupKeys(ByMonth, s)[i];
    MonthRowRepresentative(s, i);
    var x0 :| x0 in s && KeyOf(ByMonth, x0) == k && x0.year == r.year && x0.month == r.month;
    GroupIsMonthSamples(s, x0);
    assert k in GroupKeys(ByMonth, s);
    GroupStatsBounds(ByMonth, s, k);
    var ts := Temps(Group(ByMonth, s, k));
    var a :| a in s && KeyOf(ByMonth, a) == k && TempF(a) == Max(ts);
    KeyOfIsFaithful(ByMonth, x0, a);
    var b :| b in s && KeyOf(ByMonth, b) == k && TempF(b) == Min(ts);
    KeyOfIsFaithful(ByMonth, x0, b);
  }

  // ---------------------------------------------------------------------
  // Latest-year slice (lines 316-317)

  function MaxYear(rows: seq<MonthRow>): int
    requires rows != []
  {
    if |rows| == 1 then rows[0].year
    else
      var rest := MaxYear(rows[1..]);
      if rows[0].year >= rest then rows[0].year else rest
  }

  lemma {:induction false} MaxYearIsLatest(rows: seq<MonthRow>)
    requires rows != []
    ensures forall i :: 0 <= i < |rows| ==> rows[i].year <= MaxYear(rows)
    ensures exists i :: 0 <= i < |rows| && rows[i].year == MaxYear(rows)
  {
    if |rows| > 1 {
      MaxYearIsLatest(rows[1..]);
      forall i | 1 <= i < |rows|
        ensures rows[i].year <= MaxYear(rows)
      {
        assert rows[i] == rows[1..][i - 1];
      }
      if rows[0].year < MaxYear(rows[1..]) {
        var i :| 0 <= i < |rows[1..]| && rows[1..][i].year == MaxYear(rows[1..]);
        assert rows[i + 1].year == MaxYear(rows);
      }
    } else {
      assert rows[0].year == MaxYear(rows);
    }
  }

  /** `monthly_avg['year'].max()`: None (NaN) for an empty table. */
  function LatestYear(rows: seq<MonthRow>): Option<int>
  {
    if rows == [] then None else Some(MaxYear(rows))
  }

  /** `monthly_avg[monthly_avg['year'] == latest_year]`. */
  function RowsOfYear(rows: seq<MonthRow>, y: int): seq<MonthRow>
  {
    if rows == [] then []
    else (if rows[0].year == y then [rows[0]] else []) + RowsOfYear(rows[1..], y)
  }

  /** The slice holds exactly the table's rows of that year. */
  lemma {:induction false} RowsOfYearMembers(rows: seq<MonthRow>, y: int)
    ensures forall r :: r in RowsOfYear(rows, y) <==> r in rows && r.year == y
  {
    if rows != [] {
      RowsOfYearMembers(rows[1..], y);
      assert rows == [rows[0]] + rows[1..];
    }
  }

  /** Slicing one year of an ordered table keeps its months ascending. */
  lemma {:induction false} RowsOfYearAscending(rows: seq<MonthRow>, y: int)
    requires MonthTableOrdered(rows)
    ensures forall i, j :: 0 <= i < j < |RowsOfYear(rows, y)| ==>
              RowsOfYear(rows, y)[i].month < RowsOfYear(rows, y)[j].month
  {
    if rows != [] {
      var rest := RowsOfYear(rows[1..], y);
      assert MonthTableOrdered(rows[1..]) by {
        forall i, j | 0 <= i < j < |rows[1..]|
          ensures rows[1..][i].year < rows[1..][j].year
                  || (rows[1..][i].year == rows[1..][j].year && rows[1..][i].month < rows[1..][j].month)
        {
          assert rows[1..][i] == rows[i + 1] && rows[1..][j] == rows[j + 1];
        }
      }
      RowsOfYearAscending(rows[1..], y);
      if rows[0].year == y {
        RowsOfYearMembers(rows[1..], y);
        forall j | 0 <= j < |rest|
          ensures rows[0].month < rest[j].month
        {
          assert rest[j] in rows[1..];
          var k :| 0 <= k < |rows[1..]| && rows[1..][k] == rest[j];
          assert rows[k + 1] == rest[j];
        }
      }
    }
  }

  /** Strictly ascending months from lo on number at most 13 - lo. */
  lemma {:induction false} AscendingMonthsFit(rs: seq<MonthRow>, lo: int)
    requires 1 <= lo <= 13
    requires forall i :: 0 <= i < |rs| ==> lo <= rs[i].month
    requires forall i, j :: 0 <= i < j < |rs| ==> rs[i].month < rs[j].month
    ensures |rs| <= 13 - lo
  {
    if rs != [] {
      assert rs[0].month <= 12;
      forall i | 0 <= i < |rs[1..]|
        ensures rs[0].month + 1 <= rs[1..][i].month
      {
        assert rs[1..][i] == rs[i + 1];
      }
      AscendingMonthsFit(rs[1..], rs[0].month + 1);
    }
  }

  /** The latest year is present exactly when there are samples, and it is
      the latest year of any sample. */
  lemma LatestYearOfSamples(s: seq<Sample>)
    ensures LatestYear(MonthlyAvg(s)).None? <==> s == []
    ensures s != [] ==>
      && (forall x :: x in s ==> x.year <= LatestYear(MonthlyAvg(s)).value)
      && (exists x :: x in s && x.year == LatestYear(MonthlyAvg(s)).value)
  {
    var rows := MonthlyAvg(s);
    if s != [] {
      var i0 := MonthRowFor(s, s[0]);
      var latest := MaxYear(rows);
      MaxYearIsLatest(rows);
      forall x | x in s
        ensures x.year <= latest
      {
        var i := MonthRowFor(s, x);
      }
      MonthlyRowsObserved(s);
    }
  }

  /** The slice of the latest year holds exactly the monthly rows of that
      year, in month order, so at most twelve, and at least one. */
  lemma LatestYearSlice(s: seq<Sample>)
    requires s != []
    ensures LatestYear(MonthlyAvg(s)).Some?
    ensures var recent := RowsOfYear(MonthlyAvg(s), LatestYear(MonthlyAvg(s)).value);
      && (forall r :: r in recent <==> r in MonthlyAvg(s) && r.year == LatestYear(MonthlyAvg(s)).value)
      && (forall i, j :: 0 <= i < j < |recent| ==> recent[i].month < recent[j].month)
      && 0 < |recent| <= 12
  {
    var rows := MonthlyAvg(s);
    assert rows != [] by {
      LatestYearOfSamples(s);
    }
    var latest := MaxYear(rows);
    var recent := RowsOfYear(rows, latest);
    assert 0 < |recent| by {
      MaxYearIsLatest(rows);
      var il :| 0 <= il < |rows| && rows[il].year == latest;
      RowsOfYearMembers(rows, latest);
      assert rows[il] in recent;
    }
    RowsOfYearMembers(rows, latest);
    MonthlyRowsOrdered(s);
    RowsOfYearAscending(rows, latest);
    AscendingMonthsFit(recent, 1);
  }
}
