/** Normalising the chosen series into samples (Bank/weather_tool.py,
    lines 74-108): calendar fields, season, hour, the Fahrenheit reading,
    and dropping rows whose reading is missing. */
module Frame {
  import opened Wrappers
  import opened Calendar
  import opened Granularity

  /** A row of the frame once the derived columns are in place. `temp` is the
      Celsius reading and `tempF` the Fahrenheit one; None stands for NaN. */
  datatype Row = Row(time: Timestamp, temp: Option<real>, year: int, month: Month, day: int,
                     season: Season, hour: int, tempF: Option<real>)

  /** A row that survived the drop of missing readings. */
  type Sample = r: Row | r.tempF.Some?
    witness Row(Timestamp(2000, 1, 1, 0), Some(0.0), 2000, 1, 1, Winter, 0, Some(32.0))

  function TempF(x: Sample): real
  {
    x.tempF.value
  }

  /** Celsius to Fahrenheit, exactly (no rounding at this stage). */
  function ToFahrenheit(c: real): (f: real)
    ensures (f - 32.0) * 5.0 / 9.0 == c
  {
    c * 9.0 / 5.0 + 32.0
  }

  /** The conversion keeps a missing reading missing, as NaN arithmetic does. */
  function FahrenheitOf(temp: Option<real>): Option<real>
  {
    match temp
    case None => None
    case Some(c) => Some(ToFahrenheit(c))
  }

  /** The hour column is the timestamp's hour when the timestamp column is
      called "time", and the midday sentinel 12 otherwise (lines 91-99). */
  function HourOf(t: Timestamp, timeColumn: string): int
  {
    if timeColumn == "time" then t.hour else 12
  }

  /** What every column of a row says about the observation it came from. */
  predicate Derived(r: Row, o: RawObservation, timeColumn: string)
  {
    && r.time == o.time && r.temp == o.temp
    && r.year == o.time.year && r.month == o.time.month && r.day == o.time.day
    && r.season == GetSeason(r.month)
    && r.hour == HourOf(o.time, timeColumn)
    && r.tempF == FahrenheitOf(o.temp)
  }

  function MakeRow(o: RawObservation, timeColumn: string): Row
  {
    Row(o.time, o.temp, o.time.year, o.time.month, o.time.day,
        GetSeason(o.time.month), HourOf(o.time, timeColumn), FahrenheitOf(o.temp))
  }

  /** The frame after lines 74-101, before any row is dropped. */
  function Columns(raw: seq<RawObservation>, timeColumn: string): (rows: seq<Row>)
    ensures |rows| == |raw|
    ensures forall i :: 0 <= i < |raw| ==> Derived(rows[i], raw[i], timeColumn)
  {
    if raw == [] then [] else [MakeRow(raw[0], timeColumn)] + Columns(raw[1..], timeColumn)
  }

  /** Lines 74-101, one row at a time. */
  method AddColumns(raw: seq<RawObservation>, timeColumn: string) returns (rows: seq<Row>)
    ensures rows == Columns(raw, timeColumn)
  {
    rows := [];
    var i := |raw|;
    while i > 0
      invariant 0 <= i <= |raw|
      invariant rows == Columns(raw[i..], timeColumn)
    {
      i := i - 1;
      assert raw[i..][1..] == raw[i + 1..];
      rows := [MakeRow(raw[i], timeColumn)] + rows;
    }
    assert raw[0..] == raw;
  }

  /** `df[df['temp_f'].notna()]`: the rows with a Fahrenheit reading, in order. */
  function KeepPresent(rows: seq<Row>): (kept: seq<Sample>)
    ensures |kept| <= |rows|
    ensures forall x :: x in kept <==> x in rows && x.tempF.Some?
  {
    if rows == [] then []
    else if rows[0].tempF.Some? then var x: Sample := rows[0]; [x] + KeepPresent(rows[1..])
    else KeepPresent(rows[1..])
  }

  /** The drop keeps each row with a reading as many times as the frame has
      it and no other row. */
  lemma {:induction false} KeepPresentCounts(rows: seq<Row>)
    ensures forall x: Row :: multiset(KeepPresent(rows))[x] == if x.tempF.Some? then multiset(rows)[x] else 0
  {
    if rows != [] {
      KeepPresentCounts(rows[1..]);
      assert rows == [rows[0]] + rows[1..];
    }
  }

  /** `df['temp_f'] = df['temp'] * 9/5 + 32` on a frame that already has rows. */
  function RecomputeTempF(rows: seq<Row>): (r: seq<Row>)
    ensures |r| == |rows|
  {
    seq(|rows|, i requires 0 <= i < |rows| => rows[i].(tempF := FahrenheitOf(rows[i].temp)))
  }

  /** Dropping missing readings a second time removes nothing. */
  lemma {:induction false} KeepPresentIdempotent(rows: seq<Row>)
    ensures KeepPresent(KeepPresent(rows)) == KeepPresent(rows)
  {
    if rows != [] {
      KeepPresentIdempotent(rows[1..]);
      if rows[0].tempF.Some? {
        var k := KeepPresent(rows);
        assert k[0] == rows[0] && k[1..] == KeepPresent(rows[1..]);
      }
    }
  }

  /** Recomputing the Fahrenheit column of derived rows changes nothing. */
  lemma RecomputeIsIdentity(rows: seq<Row>)
    requires forall x :: x in rows ==> x.tempF == FahrenheitOf(x.temp)
    ensures RecomputeTempF(rows) == rows
  {
  }

  /** The samples the aggregations see: lines 74-108 as a whole. */
  function Normalized(raw: seq<RawObservation>, timeColumn: string): seq<Sample>
  {
    KeepPresent(Columns(raw, timeColumn))
  }

  /** Lines 74-108 as the source runs them: convert, drop, convert again,
      drop again. The second conversion and drop change nothing. */
  method Normalize(raw: seq<RawObservation>, timeColumn: string) returns (samples: seq<Sample>)
    ensures samples == Normalized(raw, timeColumn)
  {
    var rows := AddColumns(raw, timeColumn);
    samples := KeepPresent(rows);
    assert forall x :: x in samples ==> x.tempF == FahrenheitOf(x.temp);
    RecomputeIsIdentity(samples);
    var again := RecomputeTempF(samples);
    KeepPresentIdempotent(rows);
    samples := KeepPresent(again);
  }

  /** The observations that carry a reading, in order. */
  function PresentReadings(raw: seq<RawObservation>): (r: seq<RawObservation>)
    ensures forall o :: o in r ==> o in raw && o.temp.Some?
  {
    if raw == [] then []
    else if raw[0].temp.Some? then [raw[0]] + PresentReadings(raw[1..])
    else PresentReadings(raw[1..])
  }

  /** Normalisation keeps exactly the observations with a reading, in input
      order, and each kept sample carries temp * 9/5 + 32 and the calendar
      fields and season of its timestamp. */
  lemma {:induction false} NormalizedMatchesReadings(raw: seq<RawObservation>, timeColumn: string)
    ensures |Normalized(raw, timeColumn)| == |PresentReadings(raw)|
    ensures forall i :: 0 <= i < |PresentReadings(raw)| ==>
              Derived(Normalized(raw, timeColumn)[i], PresentReadings(raw)[i], timeColumn)
              && TempF(Normalized(raw, timeColumn)[i]) == ToFahrenheit(PresentReadings(raw)[i].temp.value)
  {
    if raw != [] {
      var tail := raw[1..];
      var row := MakeRow(raw[0], timeColumn);
      NormalizedMatchesReadings(tail, timeColumn);
      assert Columns(raw, timeColumn) == [row] + Columns(tail, timeColumn);
      assert ([row] + Columns(tail, timeColumn))[1..] == Columns(tail, timeColumn);
      if raw[0].temp.Some? {
        var x: Sample := row;
        var n, pr := Normalized(raw, timeColumn), PresentReadings(raw);
        assert n == [x] + Normalized(tail, timeColumn);
        assert pr == [raw[0]] + PresentReadings(tail);
        forall i | 0 <= i < |pr|
          ensures Derived(n[i], pr[i], timeColumn) && TempF(n[i]) == ToFahrenheit(pr[i].temp.value)
        {
          if i > 0 {
            assert n[i] == Normalized(tail, timeColumn)[i - 1];
            assert pr[i] == PresentReadings(tail)[i - 1];
          }
        }
      } else {
        assert Normalized(raw, timeColumn) == Normalized(tail, timeColumn);
      }
    }
  }

  /** When the timestamp column is "time", every sample's hour is the hour
      of its timestamp: the midday sentinel never appears. */
  lemma NormalizedHoursAreReal(raw: seq<RawObservation>, x: Sample)
    requires x in Normalized(raw, "time")
    ensures x.hour == x.time.hour
  {
    var rows := Columns(raw, "time");
    assert x in rows;
    var i :| 0 <= i < |rows| && rows[i] == x;
    assert Derived(rows[i], raw[i], "time");
  }
}
