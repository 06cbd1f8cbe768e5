/** scripts/build-schedule.ts: GTFS Schedule `stop_times.txt` rows grouped into
    the timetable (trip id -> stop id -> "h:mm AM/PM") and the per-trip stop
    lists that the predictions endpoint reads. Reading and writing the files
    is not modelled: the parsed rows are the input, the two tables the output. */
module BuildSchedule {
  import opened Wrappers
  import opened Builtins
  import opened Clock

  /** The fields of a `stop_times.txt` row the builder reads. */
  datatype StopTimeRow = StopTimeRow(tripId: string, stopId: string, departureTime: string)

  /** `m.toString()` on an undefined minutes part throws a TypeError. */
  datatype FormatError = MinutesUndefined

  // ---------------------------------------------------------------- formatGtfsTime

  /** `normalizedH % 12 || 12`: the 12-hour clock hour, 0 shown as 12. */
  function DisplayHour(normalizedH: nat): (d: nat)
    ensures 1 <= d <= 12
    ensures d % 12 == normalizedH % 12
  {
    if normalizedH % 12 == 0 then 12 else normalizedH % 12
  }

  function Meridiem(normalizedH: nat): string {
    if normalizedH >= 12 then "PM" else "AM"
  }

  /** `formatGtfsTime`: "" for "", otherwise "h:mm AM/PM" from the first two
      `:`-separated numbers, with the hour taken mod 24 (so 25:10 is 1:10 AM).
      A NaN hour shows as "12" with "AM" (NaN comparisons are false and NaN is
      falsy); a NaN minute shows as "NaN"; a missing minutes part throws. */
  function FormatGtfsTime(timeStr: string): (r: Result<string, FormatError>)
    ensures timeStr == "" ==> r == Success("")
    ensures r.Success? <==> HasMinutesPart(timeStr)
  {
    if timeStr == "" then Success("")
    else
      var h := JsNumber(SplitFirst(timeStr, ':'));
      var mText := SplitSecond(timeStr, ':');
      if mText.None? then Failure(MinutesUndefined)
      else
        var displayH := match h case None => "12" case Some(hv) => NatToString(DisplayHour(hv % 24));
        var ampm := match h case None => "AM" case Some(hv) => Meridiem(hv % 24);
        var displayM := match JsNumber(mText.value) case None => "NaN" case Some(mv) => PadStart2(NatToString(mv));
        Success(displayH + ":" + displayM + " " + ampm)
  }

  /** The text is empty or has a second `:`-separated part. */
  predicate HasMinutesPart(timeStr: string) {
    timeStr == "" || IndexOf(timeStr, ':') < |timeStr|
  }

  /** `HH:MM` followed by nothing or by `:SS`. */
  predicate GtfsClock(hs: string, ms: string, tail: string) {
    AllDigits(hs) && AllDigits(ms) && (tail == [] || tail[0] == ':')
  }

  /** Splitting `HH:MM[:SS]` on ':' gives back the two numbers. */
  lemma SplitGtfsClock(hs: string, ms: string, tail: string)
    requires GtfsClock(hs, ms, tail)
    ensures SplitFirst(hs + ":" + ms + tail, ':') == hs
    ensures SplitSecond(hs + ":" + ms + tail, ':') == Some(ms)
  {
    assert forall i :: 0 <= i < |hs| ==> hs[i] != ':';
    SplitOfJoin(hs, ':', ms + tail);
    assert hs + ":" + ms + tail == hs + [':'] + (ms + tail);
    assert IndexOf(ms + tail, ':') == |ms| by {
      assert forall i :: 0 <= i < |ms| ==> (ms + tail)[i] == ms[i] && ms[i] != ':';
      assert |ms| < |ms + tail| ==> (ms + tail)[|ms|] == tail[0];
    }
    assert (ms + tail)[..|ms|] == ms;
  }

  /** The formatted text: the display hour, the minute digits (exactly two for
      minutes below 100, as GTFS minutes are), and the period that says
      whether the hour mod 24 is past noon. */
  lemma {:induction false} FormatShape(hs: string, ms: string, tail: string)
    requires GtfsClock(hs, ms, tail)
    ensures var nh := DigitsValue(hs) % 24;
      var minutes := PadStart2(NatToString(DigitsValue(ms)));
      && FormatGtfsTime(hs + ":" + ms + tail)
           == Success(NatToString(DisplayHour(nh)) + ":" + minutes + " " + Meridiem(nh))
      && 1 <= DisplayHour(nh) <= 12 && (nh == 0 ==> DisplayHour(nh) == 12)
      && (Meridiem(nh) == "PM" <==> nh >= 12)
      && |minutes| >= 2 && AllDigits(minutes) && DigitsValue(minutes) == DigitsValue(ms)
      && (DigitsValue(ms) < 100 ==> |minutes| == 2)
  {
    SplitGtfsClock(hs, ms, tail);
    PadStart2Digits(NatToString(DigitsValue(ms)));
    if DigitsValue(ms) < 100 {
      TwoMinuteDigits(DigitsValue(ms));
    }
  }

  /** Minutes below 100 pad to exactly two digits. */
  lemma TwoMinuteDigits(m: nat)
    requires m < 100
    ensures |PadStart2(NatToString(m))| == 2
  {
    if m >= 10 {
      assert |NatToString(m / 10)| == 1;
    }
  }

  /** Padding a digit string with zeros keeps its value. The minutes, as
      `padStart(2, '0')` leaves them, read back as the number they came from. */
  lemma PadStart2Digits(s: string)
    requires AllDigits(s)
    ensures AllDigits(PadStart2(s)) && DigitsValue(PadStart2(s)) == DigitsValue(s)
  {
    if |s| == 1 {
      assert PadStart2(s) == "0" + s;
      DigitsValueZeroPrefix(s);
    } else if |s| == 0 {
      assert PadStart2(s) == "0" + "0";
      DigitsValueZeroPrefix("0");
      DigitsValueZeroPrefix("");
      assert "0" + "" == "0";
    }
  }

  /** The 12-hour display and its period convert back to the 24-hour hour. */
  lemma DisplayHourRoundTrip(nh: nat)
    requires nh < 24
    ensures HourTo24(DisplayHour(nh), Some(Meridiem(nh))) == nh
  {
  }

  /** Round trip with the clock parser of the predictions endpoint: for
      `HH:MM[:SS]`, parsing `formatGtfsTime`'s text gives back the hour mod 24
      and the minute (for any minute value, not only 0..59). */
  lemma {:induction false} FormatThenParse(hs: string, ms: string, tail: string)
    requires GtfsClock(hs, ms, tail)
    ensures FormatGtfsTime(hs + ":" + ms + tail).Success?
    ensures ParseClock(FormatGtfsTime(hs + ":" + ms + tail).value) == Some((DigitsValue(hs) % 24, DigitsValue(ms)))
  {
    var nh := DigitsValue(hs) % 24;
    var m := DigitsValue(ms);
    FormatShape(hs, ms, tail);
    PadStart2Digits(NatToString(m));
    var dh := NatToString(DisplayHour(nh));
    var dm := PadStart2(NatToString(m));
    ParseCanonical(dh, dm, Meridiem(nh));
    assert DigitsValue(dh) == DisplayHour(nh);
    assert DigitsValue(dm) == m;
    DisplayHourRoundTrip(nh);
  }

  // ---------------------------------------------------------------- buildSchedule

  datatype ScheduleTables = ScheduleTables(schedule: map<string, map<string, string>>,
                                           tripStops: map<string, seq<string>>)

  /** A row formatter; the builder uses `FormatGtfsTime`. The table lemmas
      below hold for any formatter. */
  type Formatter = string -> Result<string, FormatError>

  predicate AllFormat(rows: seq<StopTimeRow>, format: Formatter) {
    forall i :: 0 <= i < |rows| ==> format(rows[i].departureTime).Success?
  }

  /** `schedule[tripId][stopId] = formatGtfsTime(row.departure_time)` for every
      row in order: a later row of the same trip and stop overwrites. */
  function ScheduleOf(rows: seq<StopTimeRow>, format: Formatter): map<string, map<string, string>>
    requires AllFormat(rows, format)
  {
    if rows == [] then map[]
    else
      var row := rows[|rows| - 1];
      var m := ScheduleOf(rows[..|rows| - 1], format);
      var inner := if row.tripId in m then m[row.tripId] else map[];
      m[row.tripId := inner[row.stopId := format(row.departureTime).value]]
  }

  /** `tripStops[tripId].push(stopId)` for every row in order. */
  function TripStopsOf(rows: seq<StopTimeRow>): map<string, seq<string>> {
    if rows == [] then map[]
    else
      var row := rows[|rows| - 1];
      var m := TripStopsOf(rows[..|rows| - 1]);
      m[row.tripId := (if row.tripId in m then m[row.tripId] else []) + [row.stopId]]
  }

  /** The stop ids of the rows of trip t, in row order, duplicates kept. */
  function StopsOfTrip(rows: seq<StopTimeRow>, t: string): seq<string> {
    if rows == [] then []
    else StopsOfTrip(rows[..|rows| - 1], t)
         + (if rows[|rows| - 1].tripId == t then [rows[|rows| - 1].stopId] else [])
  }

  /** A trip has a stop list iff some row is for it, and the list is exactly its
      rows' stop ids in order. */
  lemma {:induction false} TripStopsInRowOrder(rows: seq<StopTimeRow>)
    ensures forall t :: t in TripStopsOf(rows) <==> exists i :: 0 <= i < |rows| && rows[i].tripId == t
    ensures forall t :: t in TripStopsOf(rows) ==> TripStopsOf(rows)[t] == StopsOfTrip(rows, t)
  {
    if rows != [] {
      var init := rows[..|rows| - 1];
      TripStopsInRowOrder(init);
      forall t ensures t in TripStopsOf(rows) <==> exists i :: 0 <= i < |rows| && rows[i].tripId == t {
        if t in TripStopsOf(init) {
          var i :| 0 <= i < |init| && init[i].tripId == t;
          assert rows[i].tripId == t;
        }
        if exists i :: 0 <= i < |rows| && rows[i].tripId == t {
          var i :| 0 <= i < |rows| && rows[i].tripId == t;
          if i < |init| { assert init[i].tripId == t; }
        }
      }
      forall t | t in TripStopsOf(rows) ensures TripStopsOf(rows)[t] == StopsOfTrip(rows, t) {
        if t !in TripStopsOf(init) {
          assert StopsOfTrip(init, t) == [] by { StopsOfTripAbsent(init, t); }
        }
      }
    }
  }

  lemma {:induction false} StopsOfTripAbsent(rows: seq<StopTimeRow>, t: string)
    requires forall i :: 0 <= i < |rows| ==> rows[i].tripId != t
    ensures StopsOfTrip(rows, t) == []
  {
    if rows != [] {
      StopsOfTripAbsent(rows[..|rows| - 1], t);
    }
  }

  /** Row i is the last row of its trip and stop. */
  predicate LastForStop(rows: seq<StopTimeRow>, i: nat)
    requires i < |rows|
  {
    forall j :: i < j < |rows| ==> rows[j].tripId != rows[i].tripId || rows[j].stopId != rows[i].stopId
  }

  /** The timetable has an entry for (t, s) iff some row is for trip t at stop s. */
  lemma {:induction false} ScheduleKeys(rows: seq<StopTimeRow>, format: Formatter, t: string, s: string)
    requires AllFormat(rows, format)
    ensures t in ScheduleOf(rows, format) && s in ScheduleOf(rows, format)[t] <==>
      exists i :: 0 <= i < |rows| && rows[i].tripId == t && rows[i].stopId == s
  {
    if rows != [] {
      var init := rows[..|rows| - 1];
      assert AllFormat(init, format) by {
        assert forall i :: 0 <= i < |init| ==> init[i] == rows[i];
      }
      ScheduleKeys(init, format, t, s);
      if t in ScheduleOf(init, format) && s in ScheduleOf(init, format)[t] {
        var i :| 0 <= i < |init| && init[i].tripId == t && init[i].stopId == s;
        assert rows[i].tripId == t && rows[i].stopId == s;
      }
      if exists i :: 0 <= i < |rows| && rows[i].tripId == t && rows[i].stopId == s {
        var i :| 0 <= i < |rows| && rows[i].tripId == t && rows[i].stopId == s;
        if i < |init| { assert init[i].tripId == t && init[i].stopId == s; }
      }
    }
  }

  /** The entry holds the formatted departure time of the last row for that
      trip and stop. */
  lemma {:induction false} ScheduleLastRowWins(rows: seq<StopTimeRow>, format: Formatter, i: nat)
    requires AllFormat(rows, format)
    requires i < |rows| && LastForStop(rows, i)
    ensures rows[i].tripId in ScheduleOf(rows, format) && rows[i].stopId in ScheduleOf(rows, format)[rows[i].tripId]
    ensures ScheduleOf(rows, format)[rows[i].tripId][rows[i].stopId] == format(rows[i].departureTime).value
  {
    var init := rows[..|rows| - 1];
    assert AllFormat(init, format) by {
      assert forall k :: 0 <= k < |init| ==> init[k] == rows[k];
    }
    if i < |init| {
      assert LastForStop(init, i) by {
        assert forall k :: 0 <= k < |init| ==> init[k] == rows[k];
      }
      ScheduleLastRowWins(init, format, i);
      assert init[i] == rows[i];
    }
  }

  /** `buildSchedule`'s row loop: both tables, or the TypeError of the first row
      whose departure time has no minutes part. */
  method BuildScheduleTables(rows: seq<StopTimeRow>) returns (r: Result<ScheduleTables, FormatError>)
    ensures r.Failure? <==> !AllFormat(rows, FormatGtfsTime)
    ensures r.Success? ==> r.value == ScheduleTables(ScheduleOf(rows, FormatGtfsTime), TripStopsOf(rows))
  {
    r := FillTables(rows, FormatGtfsTime);
  }

  /** The `forEach` over the rows, with the formatter as a parameter. */
  method FillTables(rows: seq<StopTimeRow>, format: Formatter) returns (r: Result<ScheduleTables, FormatError>)
    ensures r.Failure? <==> !AllFormat(rows, format)
    ensures r.Success? ==> r.value == ScheduleTables(ScheduleOf(rows, format), TripStopsOf(rows))
  {
    var schedule: map<string, map<string, string>> := map[];
    var tripStops: map<string, seq<string>> := map[];
    var i := 0;
    while i < |rows|
      invariant 0 <= i <= |rows|
      invariant AllFormat(rows[..i], format)
      invariant schedule == ScheduleOf(rows[..i], format)
      invariant tripStops == TripStopsOf(rows[..i])
    {
      var row := rows[i];
      if row.tripId !in schedule {
        schedule := schedule[row.tripId := map[]];
      }
      var formatted := format(row.departureTime);
      if formatted.Failure? {
        assert !format(rows[i].departureTime).Success?;
        return Failure(formatted.error);
      }
      schedule := schedule[row.tripId := schedule[row.tripId][row.stopId := formatted.value]];
      if row.tripId !in tripStops {
        tripStops := tripStops[row.tripId := []];
      }
      tripStops := tripStops[row.tripId := tripStops[row.tripId] + [row.stopId]];
      RowStep(rows, i, format);
      i := i + 1;
    }
    assert rows[..|rows|] == rows;
    r := Success(ScheduleTables(schedule, tripStops));
  }

  /** One more row: what the loop body does to the two tables. */
  lemma RowStep(rows: seq<StopTimeRow>, i: nat, format: Formatter)
    requires i < |rows| && AllFormat(rows[..i], format) && format(rows[i].departureTime).Success?
    ensures AllFormat(rows[..i + 1], format)
    ensures var m := ScheduleOf(rows[..i], format);
            var inner := if rows[i].tripId in m then m[rows[i].tripId] else map[];
            ScheduleOf(rows[..i + 1], format) == m[rows[i].tripId := inner[rows[i].stopId := format(rows[i].departureTime).value]]
    ensures var m := TripStopsOf(rows[..i]);
            TripStopsOf(rows[..i + 1]) == m[rows[i].tripId := (if rows[i].tripId in m then m[rows[i].tripId] else []) + [rows[i].stopId]]
  {
    assert rows[..i + 1][..i] == rows[..i];
    assert forall k :: 0 <= k < i + 1 ==> rows[..i + 1][k] == rows[k];
  }
}
