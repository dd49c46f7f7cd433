/** Choosing between the hourly and the daily series (Bank/weather_tool.py,
    lines 50-72). The two fetched frames are inputs: fetching them is not
    part of this model. */
module Granularity {
  import opened Wrappers
  import opened Calendar

  /** One fetched row: its timestamp and the Celsius reading, None when missing. */
  datatype RawObservation = RawObservation(time: Timestamp, temp: Option<real>)

  /** A fetched frame: for each column name, whether its dtype is a datetime
      type, and the rows. */
  datatype FetchedFrame = FetchedFrame(columns: map<string, bool>, rows: seq<RawObservation>)

  datatype Granularity = Hourly | Daily

  /** The series the rest of the pipeline works on; hasTemp records whether
      the chosen frame has the Celsius column `temp` that line 101 reads. */
  datatype Source = Source(granularity: Granularity, timeColumn: string, hasTemp: bool,
                           rows: seq<RawObservation>)

  datatype DataError =
    | NoDatetimeColumn      // the ValueError raised when neither scan found a column
    | StaleDatetimeColumn   // the daily frame lacks the column name kept from the hourly scan
    | NoTempColumn          // the chosen frame has no `temp` column for line 101 to read
    | NoTimeColumn          // the date lookup of lines 134-135 reads a column named "time"
    | NoSamples             // no row kept a temperature, so the headline figures cannot be formed

  /** The column names tried, in order. */
  const TimeColumnCandidates: seq<string> := ["time", "date"]

  predicate IsDatetimeColumn(columns: map<string, bool>, name: string)
  {
    name in columns && columns[name]
  }

  /** The first candidate that is a datetime column of the frame. */
  function FirstDatetimeColumn(columns: map<string, bool>, candidates: seq<string>): (r: Option<string>)
    ensures r.None? <==> forall i :: 0 <= i < |candidates| ==> !IsDatetimeColumn(columns, candidates[i])
    ensures r.Some? ==> exists i :: 0 <= i < |candidates| && candidates[i] == r.value
                          && IsDatetimeColumn(columns, candidates[i])
                          && forall j :: 0 <= j < i ==> !IsDatetimeColumn(columns, candidates[j])
  {
    if candidates == [] then None
    else if IsDatetimeColumn(columns, candidates[0]) then Some(candidates[0])
    else
      var r := FirstDatetimeColumn(columns, candidates[1..]);
      assert r.Some? ==> exists i :: 0 <= i < |candidates[1..]| && candidates[1..][i] == r.value
                          && IsDatetimeColumn(columns, candidates[1..][i])
                          && forall j :: 0 <= j < i ==> !IsDatetimeColumn(columns, candidates[1..][j]);
      assert r.Some? ==> exists i :: 1 <= i < |candidates| && candidates[i] == r.value
                          && IsDatetimeColumn(columns, candidates[i])
                          && forall j :: 0 <= j < i ==> !IsDatetimeColumn(columns, candidates[j]);
      r
  }

  /** The detection loop with its early exit (lines 51-54 and 62-65). */
  method FindDatetimeColumn(columns: map<string, bool>) returns (found: Option<string>)
    ensures found == FirstDatetimeColumn(columns, TimeColumnCandidates)
  {
    found := None;
    for i := 0 to |TimeColumnCandidates|
      invariant found.None?
      invariant FirstDatetimeColumn(columns, TimeColumnCandidates)
             == FirstDatetimeColumn(columns, TimeColumnCandidates[i..])
    {
      var name := TimeColumnCandidates[i];
      if IsDatetimeColumn(columns, name) {
        found := Some(name);
        break;
      }
      assert TimeColumnCandidates[i..][1..] == TimeColumnCandidates[i + 1..];
    }
  }

  /** The years a frame's timestamps cover (dt.year.nunique()). */
  function YearsOf(rows: seq<RawObservation>): set<int>
  {
    set r | r in rows :: r.time.year
  }

  /** The condition on line 56 under which the hourly frame is kept. */
  predicate HourlyUsable(hourly: FetchedFrame)
  {
    FirstDatetimeColumn(hourly.columns, TimeColumnCandidates).Some?
    && |hourly.rows| > 0
    && |YearsOf(hourly.rows)| >= 10
  }

  /** The empty-frame test on line 56 never decides anything on its own:
      an empty frame covers no year. */
  lemma EmptyFrameCoversNoYear(rows: seq<RawObservation>)
    requires |rows| == 0
    ensures |YearsOf(rows)| < 10
  {
    assert YearsOf(rows) == {};
  }

  /** The outcome of lines 50-74: the hourly frame when it is usable,
      otherwise the daily frame with its own datetime column. When the daily
      scan finds nothing, the run fails; if the hourly scan had found a
      column, its name is still set and the failure comes from reading that
      column of the daily frame (line 74) rather than from the check on
      line 66. */
  function SourceChoice(hourly: FetchedFrame, daily: FetchedFrame): Result<Source, DataError>
  {
    if HourlyUsable(hourly) then
      Success(Source(Hourly, FirstDatetimeColumn(hourly.columns, TimeColumnCandidates).value,
                     "temp" in hourly.columns, hourly.rows))
    else
      match FirstDatetimeColumn(daily.columns, TimeColumnCandidates)
      case Some(name) => Success(Source(Daily, name, "temp" in daily.columns, daily.rows))
      case None =>
        Failure(if FirstDatetimeColumn(hourly.columns, TimeColumnCandidates).Some?
                then StaleDatetimeColumn else NoDatetimeColumn)
  }

  /** The granularity is Hourly exactly when the hourly frame has a datetime
      column, rows, and at least ten distinct years; the choice fails exactly
      when the hourly frame is not usable and the daily frame has no
      datetime column; a chosen column is a datetime column of the chosen
      frame, the first candidate that is, and the chosen series records
      whether that frame has a `temp` column. */
  lemma GranularityDecision(hourly: FetchedFrame, daily: FetchedFrame)
    ensures var r := SourceChoice(hourly, daily);
      && (r.Success? && r.value.granularity == Hourly <==> HourlyUsable(hourly))
      && (r.Failure? <==> !HourlyUsable(hourly) && FirstDatetimeColumn(daily.columns, TimeColumnCandidates).None?)
      && (r.Success? ==>
            var frame := if r.value.granularity == Hourly then hourly else daily;
            && r.value.rows == frame.rows
            && r.value.hasTemp == ("temp" in frame.columns)
            && Some(r.value.timeColumn) == FirstDatetimeColumn(frame.columns, TimeColumnCandidates)
            && IsDatetimeColumn(frame.columns, r.value.timeColumn))
  {
    if HourlyUsable(hourly) {
      var c := FirstDatetimeColumn(hourly.columns, TimeColumnCandidates);
      var i :| 0 <= i < |TimeColumnCandidates| && TimeColumnCandidates[i] == c.value
               && IsDatetimeColumn(hourly.columns, TimeColumnCandidates[i]);
    } else if FirstDatetimeColumn(daily.columns, TimeColumnCandidates).Some? {
      var c := FirstDatetimeColumn(daily.columns, TimeColumnCandidates);
      var i :| 0 <= i < |TimeColumnCandidates| && TimeColumnCandidates[i] == c.value
               && IsDatetimeColumn(daily.columns, TimeColumnCandidates[i]);
    }
  }

  /** Lines 50-72 as written: the two detection loops share one variable,
      which the daily scan does not reset. */
  method ChooseSource(hourly: FetchedFrame, daily: FetchedFrame) returns (r: Result<Source, DataError>)
    ensures r == SourceChoice(hourly, daily)
  {
    var checked := FindDatetimeColumn(hourly.columns);
    if checked.None? || |hourly.rows| == 0 || |YearsOf(hourly.rows)| < 10 {
      var again := FindDatetimeColumn(daily.columns);
      if again.Some? {
        checked := again;
      }
      if checked.None? {
        return Failure(NoDatetimeColumn);
      }
      if again.None? {
        return Failure(StaleDatetimeColumn);
      }
      r := Success(Source(Daily, checked.value, "temp" in daily.columns, daily.rows));
    } else {
      r := Success(Source(Hourly, checked.value, "temp" in hourly.columns, hourly.rows));
    }
  }
}
