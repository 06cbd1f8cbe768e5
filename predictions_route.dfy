/** app/api/predictions/route.ts: the parameter check and the loop that merges
    a GTFS-Realtime feed (TripUpdate records holding StopTimeUpdates with epoch
    second arrival and departure times) with the static timetable and trip stop
    lists into board rows sorted by time. The upstream fetch is not modelled:
    the parsed feed, the two static tables, the current time, the start of the
    current local day and the clock formatter are parameters. */
module PredictionsRoute {
  import opened Wrappers
  import opened Builtins
  import opened Types
  import opened Clock
  import EtaCalculations

  datatype Trip = Trip(tripId: string, routeId: string)

  /** `Arrival?.Time` and `Departure?.Time`, in epoch seconds. */
  datatype StopTimeUpdate = StopTimeUpdate(stopId: string, arrival: Option<int>, departure: Option<int>)

  datatype TripUpdate = TripUpdate(trip: Trip, updates: seq<StopTimeUpdate>)

  /** One element of `json.data`, holding its `predictions`. */
  datatype FeedEntry = FeedEntry(predictions: seq<TripUpdate>)

  /** The query parameters `station`, `stop1` and `stop2`, absent when not given. */
  datatype Params = Params(station: Option<string>, stop1: Option<string>, stop2: Option<string>)

  datatype ApiError = MissingParameters

  /** What one request works with besides the feed. `clockText` stands for
      `toLocaleTimeString` with the "h:mm AM/PM" options; `midnightMs` is the
      start of the local day that `setHours` anchors on. */
  datatype Context = Context(stop1: string, stop2: string,
                             schedule: map<string, map<string, string>>,
                             tripStops: map<string, seq<string>>,
                             nowMs: int, midnightMs: int, clockText: int -> string)

  // ---------------------------------------------------------------- one update

  /** JavaScript truthiness of an optional number: present and not 0. */
  predicate TruthyTime(t: Option<int>) {
    t.Some? && t.value != 0
  }

  /** `Departure?.Time || Arrival?.Time`, None when neither is truthy. */
  function ChosenTimestamp(u: StopTimeUpdate): (r: Option<int>)
    ensures r.Some? <==> TruthyTime(u.departure) || TruthyTime(u.arrival)
    ensures r.Some? ==> r.value != 0
    ensures TruthyTime(u.departure) ==> r == u.departure
    ensures !TruthyTime(u.departure) ==> r == (if TruthyTime(u.arrival) then u.arrival else None)
  {
    if TruthyTime(u.departure) then u.departure
    else if TruthyTime(u.arrival) then u.arrival
    else None
  }

  /** `differenceInMinutes(later, earlier)`: whole minutes, truncated toward zero. */
  function DifferenceInMinutes(laterMs: int, earlierMs: int): int {
    TruncDiv(laterMs - earlierMs, 60000)
  }

  /** `etaMinutes <= 0 ? "Now" : `${etaMinutes} min``. */
  function EtaLabel(minutes: int): string {
    if minutes <= 0 then "Now" else NatToString(minutes) + " min"
  }

  /** The label reads back, through `extractETAMinutes`, as the minutes clamped at 0. */
  lemma EtaLabelReadsBack(minutes: int)
    ensures EtaCalculations.ExtractETAMinutes(EtaLabel(minutes)) == Max(0, minutes)
  {
    if minutes <= 0 {
      assert !IsDigit('N') && !IsDigit('o') && !IsDigit('w');
      assert NoDigits("Now");
    } else {
      var text := NatToString(minutes) + " min";
      assert !IsDigit(' ');
      EtaCalculations.ExtractAfterPrefix("", minutes, " min");
      assert "" + NatToString(minutes) + " min" == text;
      assert EtaLabel(minutes) == text;
    }
  }

  /** `parseInt(stopId) % 2 !== 0 ? "NB" : "SB"`; a NaN id is not 0 mod 2, so NB. */
  function DirectionOf(stopId: string): (d: Direction)
    ensures ParseInt(stopId).None? ==> d == NB
    ensures ParseInt(stopId).Some? ==> (d == SB <==> ParseInt(stopId).value % 2 == 0)
  {
    match ParseInt(stopId)
    case None => NB
    case Some(n) => if n % 2 != 0 then NB else SB
  }

  /** For a numeric stop id the direction is decided by its last digit: odd
      ids are northbound platforms, even ids southbound. */
  lemma DirectionByLastDigit(stopId: string)
    requires stopId != [] && AllDigits(stopId)
    ensures DirectionOf(stopId) == NB <==> DigitValue(stopId[|stopId| - 1]) % 2 == 1
  {
    var n := DigitsValue(stopId);
    var init := stopId[..|stopId| - 1];
    assert n == DigitsValue(init) * 10 + DigitValue(stopId[|stopId| - 1]);
    assert n % 2 == DigitValue(stopId[|stopId| - 1]) % 2;
  }

  /** The train-type rule: ids starting with 1 or 2 are locals, 3 to 6 limiteds,
      anything else (including the empty id) a bullet. */
  function TrainTypeOf(trainNumber: string): (t: TrainType)
    ensures t == Local <==> |trainNumber| > 0 && trainNumber[0] in "12"
    ensures t == Limited <==> |trainNumber| > 0 && trainNumber[0] in "3456"
    ensures t == Bullet <==> |trainNumber| == 0 || trainNumber[0] !in "123456"
  {
    if StartsWith(trainNumber, "1") || StartsWith(trainNumber, "2") then Local
    else if StartsWith(trainNumber, "3") || StartsWith(trainNumber, "4")
         || StartsWith(trainNumber, "5") || StartsWith(trainNumber, "6") then Limited
    else Bullet
  }

  predicate StartsWith(s: string, prefix: string) {
    prefix <= s
  }

  /** `schedule[trainNumber]?.[stopId]`, falling back to the predicted clock text
      when it is missing or empty. */
  function ScheduledTimeFor(schedule: map<string, map<string, string>>, trainNumber: string,
                            stopId: string, predicted: string): (s: string)
    ensures trainNumber in schedule && stopId in schedule[trainNumber] && schedule[trainNumber][stopId] != ""
            ==> s == schedule[trainNumber][stopId]
    ensures !(trainNumber in schedule && stopId in schedule[trainNumber]) ==> s == predicted
    ensures trainNumber in schedule && stopId in schedule[trainNumber] && schedule[trainNumber][stopId] == ""
            ==> s == predicted
    ensures s == predicted || (trainNumber in schedule && stopId in schedule[trainNumber])
  {
    if trainNumber in schedule && stopId in schedule[trainNumber] && schedule[trainNumber][stopId] != ""
    then schedule[trainNumber][stopId]
    else predicted
  }

  /** The ±2-minute rule, both bounds inclusive. */
  function Classify(delayMinutes: int): DelayStatus {
    if delayMinutes <= -2 then Early
    else if delayMinutes >= 2 then Delayed
    else OnTime
  }

  lemma ClassifyThresholds(d: int)
    ensures Classify(d) == Early <==> d <= -2
    ensures Classify(d) == Delayed <==> d >= 2
    ensures Classify(d) == OnTime <==> -2 < d < 2
  {
  }

  /** The delay fields: only when the scheduled text is non-empty and differs
      from the predicted one. Text whose numbers do not parse gives a NaN delay,
      which no threshold test accepts, so the status stays "on-time". */
  function DelayOf(scheduled: string, predicted: string, dateMs: int, midnightMs: int): (r: Option<Delay>)
    ensures r.Some? <==> scheduled != "" && scheduled != predicted
  {
    if scheduled != "" && scheduled != predicted then
      match ParseClock(scheduled)
      case None => Some(Delay(NotANumber, OnTime))
      case Some((h, m)) =>
        var d := DifferenceInMinutes(dateMs, SameDayMs(midnightMs, h, m));
        Some(Delay(Minutes(d), Classify(d)))
    else None
  }

  /** For well-formed "h:mm PERIOD" text the delay is the truncated minute
      difference from that clock time today, under the 12 AM/PM rules. */
  lemma DelayOfClockText(hs: string, ms: string, period: string, predicted: string, dateMs: int, midnightMs: int)
    requires AllDigits(hs) && AllDigits(ms)
    requires forall i :: 0 <= i < |period| ==> period[i] != ' '
    requires hs + ":" + ms + " " + period != predicted
    ensures var h := HourTo24(DigitsValue(hs), Some(period));
      var d := DifferenceInMinutes(dateMs, SameDayMs(midnightMs, h, DigitsValue(ms)));
      DelayOf(hs + ":" + ms + " " + period, predicted, dateMs, midnightMs) == Some(Delay(Minutes(d), Classify(d)))
  {
    ParseCanonical(hs, ms, period);
  }

  /** `tripStops[trip.TripId] || stopTimeUpdates.map(u => u.StopId)`: an array,
      even an empty one, is truthy, so a present key always wins. */
  function StopIdsFor(tripStops: map<string, seq<string>>, trip: Trip, updates: seq<StopTimeUpdate>): (r: seq<string>)
    ensures trip.tripId in tripStops ==> r == tripStops[trip.tripId]
    ensures trip.tripId !in tripStops ==> |r| == |updates| && forall k :: 0 <= k < |updates| ==> r[k] == updates[k].stopId
  {
    if trip.tripId in tripStops then tripStops[trip.tripId]
    else seq(|updates|, k requires 0 <= k < |updates| => updates[k].stopId)
  }

  /** The row pushed for one update, or None when it is returned from early. */
  function RecordFor(ctx: Context, trip: Trip, tripStopIds: seq<string>, u: StopTimeUpdate): Option<TrainPrediction> {
    if u.stopId != ctx.stop1 && u.stopId != ctx.stop2 then None
    else match ChosenTimestamp(u)
      case None => None
      case Some(ts) =>
        var dateMs := ts * 1000;
        var minutes := DifferenceInMinutes(dateMs, ctx.nowMs);
        if minutes < -5 then None
        else
          var predicted := ctx.clockText(dateMs);
          var scheduled := ScheduledTimeFor(ctx.schedule, trip.tripId, u.stopId, predicted);
          Some(TrainPrediction(trip.tripId, TrainTypeOf(trip.tripId), EtaLabel(minutes), predicted,
                               trip.routeId, u.stopId, DirectionOf(u.stopId), dateMs, tripStopIds,
                               Some(scheduled), DelayOf(scheduled, predicted, dateMs, ctx.midnightMs)))
  }

  /** An update yields a row exactly when its stop is one of the station's two,
      it has a truthy timestamp, and that time is not more than 5 whole minutes
      past. */
  lemma RecordExistsIff(ctx: Context, trip: Trip, tripStopIds: seq<string>, u: StopTimeUpdate)
    ensures RecordFor(ctx, trip, tripStopIds, u).Some? <==>
      && (u.stopId == ctx.stop1 || u.stopId == ctx.stop2)
      && ChosenTimestamp(u).Some?
      && DifferenceInMinutes(ChosenTimestamp(u).value * 1000, ctx.nowMs) >= -5
  {
  }

  /** The row that is pushed reports what the update and the tables say. */
  ghost predicate RowOf(ctx: Context, trip: Trip, tripStopIds: seq<string>, u: StopTimeUpdate, p: TrainPrediction) {
    && ChosenTimestamp(u).Some?
    && p.timestamp == ChosenTimestamp(u).value * 1000
    && p.trainNumber == trip.tripId
    && p.routeId == trip.routeId
    && p.stopId == u.stopId
    && p.stopIds == tripStopIds
    && p.departure == ctx.clockText(p.timestamp)
    && Fresh(ctx, p)
    && EtaCalculations.ExtractETAMinutes(p.eta) == Max(0, DifferenceInMinutes(p.timestamp, ctx.nowMs))
    && p.direction == DirectionOf(u.stopId)
    && p.trainType == TrainTypeOf(trip.tripId)
    && p.scheduledTime == Some(ScheduledTimeFor(ctx.schedule, trip.tripId, u.stopId, p.departure))
    && (p.delay.Some? <==> p.scheduledTime.value != "" && p.scheduledTime.value != p.departure)
    && p.delay == DelayOf(p.scheduledTime.value, p.departure, p.timestamp, ctx.midnightMs)
  }

  /** The properties every row of the board has, whatever update it came from. */
  ghost predicate Fresh(ctx: Context, p: TrainPrediction) {
    && (p.stopId == ctx.stop1 || p.stopId == ctx.stop2)
    && DifferenceInMinutes(p.timestamp, ctx.nowMs) >= -5
    && p.timestamp != 0
  }

  lemma RecordFields(ctx: Context, trip: Trip, tripStopIds: seq<string>, u: StopTimeUpdate)
    requires RecordFor(ctx, trip, tripStopIds, u).Some?
    ensures RowOf(ctx, trip, tripStopIds, u, RecordFor(ctx, trip, tripStopIds, u).value)
  {
    var p := RecordFor(ctx, trip, tripStopIds, u).value;
    EtaLabelReadsBack(DifferenceInMinutes(p.timestamp, ctx.nowMs));
  }

  // ---------------------------------------------------------------- the three nested loops

  /** The rows pushed for the updates of one trip, in feed order. */
  function RecordsOfUpdates(ctx: Context, trip: Trip, tripStopIds: seq<string>, updates: seq<StopTimeUpdate>): seq<TrainPrediction> {
    if updates == [] then []
    else
      var last := updates[|updates| - 1];
      RecordsOfUpdates(ctx, trip, tripStopIds, updates[..|updates| - 1])
        + match RecordFor(ctx, trip, tripStopIds, last) case None => [] case Some(p) => [p]
  }

  function RecordsOfTrips(ctx: Context, trips: seq<TripUpdate>): seq<TrainPrediction> {
    if trips == [] then []
    else
      var t := trips[|trips| - 1];
      RecordsOfTrips(ctx, trips[..|trips| - 1])
        + RecordsOfUpdates(ctx, t.trip, StopIdsFor(ctx.tripStops, t.trip, t.updates), t.updates)
  }

  /** Every row pushed for the whole feed, before sorting. */
  function RecordsOfFeed(ctx: Context, feed: seq<FeedEntry>): seq<TrainPrediction> {
    if feed == [] then []
    else RecordsOfFeed(ctx, feed[..|feed| - 1]) + RecordsOfTrips(ctx, feed[|feed| - 1].predictions)
  }

  lemma {:induction false} RecordsOfUpdatesFresh(ctx: Context, trip: Trip, tripStopIds: seq<string>, updates: seq<StopTimeUpdate>)
    ensures forall p :: p in RecordsOfUpdates(ctx, trip, tripStopIds, updates) ==>
      Fresh(ctx, p) && p.trainNumber == trip.tripId && p.stopIds == tripStopIds
  {
    if updates != [] {
      var last := updates[|updates| - 1];
      RecordsOfUpdatesFresh(ctx, trip, tripStopIds, updates[..|updates| - 1]);
      if RecordFor(ctx, trip, tripStopIds, last).Some? {
        RecordFields(ctx, trip, tripStopIds, last);
      }
    }
  }

  lemma {:induction false} RecordsOfTripsFresh(ctx: Context, trips: seq<TripUpdate>)
    ensures forall p :: p in RecordsOfTrips(ctx, trips) ==> Fresh(ctx, p)
  {
    if trips != [] {
      var t := trips[|trips| - 1];
      RecordsOfTripsFresh(ctx, trips[..|trips| - 1]);
      RecordsOfUpdatesFresh(ctx, t.trip, StopIdsFor(ctx.tripStops, t.trip, t.updates), t.updates);
    }
  }

  /** Every row of the feed is for one of the station's two stops, has a truthy
      timestamp and is at most 5 minutes stale. */
  lemma {:induction false} RecordsOfFeedFresh(ctx: Context, feed: seq<FeedEntry>)
    ensures forall p :: p in RecordsOfFeed(ctx, feed) ==> Fresh(ctx, p)
  {
    if feed != [] {
      RecordsOfFeedFresh(ctx, feed[..|feed| - 1]);
      RecordsOfTripsFresh(ctx, feed[|feed| - 1].predictions);
    }
  }

  /** The innermost `stopTimeUpdates.forEach`. */
  method PushUpdates(ctx: Context, trip: Trip, tripStopIds: seq<string>, updates: seq<StopTimeUpdate>,
                     predictions: seq<TrainPrediction>) returns (out: seq<TrainPrediction>)
    ensures out == predictions + RecordsOfUpdates(ctx, trip, tripStopIds, updates)
  {
    out := predictions;
    var k := 0;
    while k < |updates|
      invariant 0 <= k <= |updates|
      invariant out == predictions + RecordsOfUpdates(ctx, trip, tripStopIds, updates[..k])
    {
      assert updates[..k + 1][..k] == updates[..k];
      var update := updates[k];
      var rec := RecordFor(ctx, trip, tripStopIds, update);
      assert RecordsOfUpdates(ctx, trip, tripStopIds, updates[..k + 1])
          == RecordsOfUpdates(ctx, trip, tripStopIds, updates[..k]) + (if rec.Some? then [rec.value] else []);
      if rec.Some? {
        out := out + [rec.value];
      }
      k := k + 1;
    }
    assert updates[..|updates|] == updates;
  }

  /** `entry.predictions.forEach`. */
  method PushTrips(ctx: Context, trips: seq<TripUpdate>, predictions: seq<TrainPrediction>)
    returns (out: seq<TrainPrediction>)
    ensures out == predictions + RecordsOfTrips(ctx, trips)
  {
    out := predictions;
    var j := 0;
    while j < |trips|
      invariant 0 <= j <= |trips|
      invariant out == predictions + RecordsOfTrips(ctx, trips[..j])
    {
      assert trips[..j + 1][..j] == trips[..j];
      var trip := trips[j].trip;
      var tripStopIds := StopIdsFor(ctx.tripStops, trip, trips[j].updates);
      out := PushUpdates(ctx, trip, tripStopIds, trips[j].updates, out);
      j := j + 1;
    }
    assert trips[..|trips|] == trips;
  }

  /** `json.data.forEach`. */
  method PushFeed(ctx: Context, feed: seq<FeedEntry>) returns (predictions: seq<TrainPrediction>)
    ensures predictions == RecordsOfFeed(ctx, feed)
  {
    predictions := [];
    var i := 0;
    while i < |feed|
      invariant 0 <= i <= |feed|
      invariant predictions == RecordsOfFeed(ctx, feed[..i])
    {
      assert feed[..i + 1][..i] == feed[..i];
      predictions := PushTrips(ctx, feed[i].predictions, predictions);
      i := i + 1;
    }
    assert feed[..|feed|] == feed;
  }

  // ---------------------------------------------------------------- the sort

  ghost predicate SortedByTime(s: seq<TrainPrediction>) {
    forall i, j :: 0 <= i < j < |s| ==> s[i].timestamp <= s[j].timestamp
  }

  /** `predictions.sort((a, b) => a.timestamp - b.timestamp)`, in place: an
      insertion sort that swaps each row down past the later ones. */
  method SortByTimestamp(a: array<TrainPrediction>)
    modifies a
    ensures SortedByTime(a[..])
    ensures multiset(a[..]) == multiset(old(a[..]))
  {
    var i := 0;
    while i < a.Length
      invariant 0 <= i <= a.Length
      invariant forall p, q :: 0 <= p < q < i ==> a[p].timestamp <= a[q].timestamp
      invariant multiset(a[..]) == multiset(old(a[..]))
    {
      SiftDown(a, i);
      i := i + 1;
    }
  }

  /** Moves a[i] down into the sorted prefix a[..i]. */
  method SiftDown(a: array<TrainPrediction>, i: nat)
    requires i < a.Length
    requires forall p, q :: 0 <= p < q < i ==> a[p].timestamp <= a[q].timestamp
    modifies a
    ensures forall p, q :: 0 <= p < q <= i ==> a[p].timestamp <= a[q].timestamp
    ensures multiset(a[..]) == multiset(old(a[..]))
  {
    var j := i;
    while j > 0 && a[j - 1].timestamp > a[j].timestamp
      invariant 0 <= j <= i
      invariant forall p, q :: 0 <= p < q <= i && p != j && q != j ==> a[p].timestamp <= a[q].timestamp
      invariant forall q :: j < q <= i ==> a[j].timestamp < a[q].timestamp
      invariant multiset(a[..]) == multiset(old(a[..]))
    {
      SwapDown(a, j);
      j := j - 1;
    }
  }

  /** Exchanges a[k - 1] and a[k]. */
  method SwapDown(a: array<TrainPrediction>, k: nat)
    requires 0 < k < a.Length
    modifies a
    ensures a[k - 1] == old(a[k]) && a[k] == old(a[k - 1])
    ensures forall m :: 0 <= m < a.Length && m != k - 1 && m != k ==> a[m] == old(a[m])
    ensures multiset(a[..]) == multiset(old(a[..]))
  {
    ghost var before := a[..];
    a[k - 1], a[k] := a[k], a[k - 1];
    assert a[..] == before[k - 1 := before[k]][k := before[k - 1]];
  }

  // ---------------------------------------------------------------- the endpoint

  /** `!stationUrlName || !stop1 || !stop2`. */
  predicate ParamsMissing(params: Params) {
    !Truthy(params.station) || !Truthy(params.stop1) || !Truthy(params.stop2)
  }

  /** The records-building part of `GET`: a 400 error when a parameter is
      missing, otherwise every row of the feed, sorted by timestamp. */
  method GetPredictions(params: Params, feed: seq<FeedEntry>,
                        schedule: map<string, map<string, string>>, tripStops: map<string, seq<string>>,
                        nowMs: int, midnightMs: int, clockText: int -> string)
    returns (r: Result<seq<TrainPrediction>, ApiError>)
    ensures r.Failure? <==> ParamsMissing(params)
    ensures r.Success? ==>
      var ctx := Context(params.stop1.value, params.stop2.value, schedule, tripStops, nowMs, midnightMs, clockText);
      && SortedByTime(r.value)
      && multiset(r.value) == multiset(RecordsOfFeed(ctx, feed))
  {
    if ParamsMissing(params) {
      return Failure(MissingParameters);
    }
    var ctx := Context(params.stop1.value, params.stop2.value, schedule, tripStops, nowMs, midnightMs, clockText);
    var predictions := PushFeed(ctx, feed);
    var a := new TrainPrediction[|predictions|](k requires 0 <= k < |predictions| => predictions[k]);
    assert a[..] == predictions;
    SortByTimestamp(a);
    r := Success(a[..]);
  }

  /** Sorting keeps the rows, so every returned row has the properties of a row. */
  lemma ReturnedRowsFresh(ctx: Context, feed: seq<FeedEntry>, rows: seq<TrainPrediction>)
    requires multiset(rows) == multiset(RecordsOfFeed(ctx, feed))
    ensures forall p :: p in rows ==> Fresh(ctx, p)
  {
    RecordsOfFeedFresh(ctx, feed);
    forall p | p in rows ensures Fresh(ctx, p) {
      assert p in multiset(rows);
      assert p in multiset(RecordsOfFeed(ctx, feed));
    }
  }
}
