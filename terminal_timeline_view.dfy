/** components/TerminalTimelineView.tsx: the strict passed test, the
    per-station time information and its precedence, the clock-based
    "has this station passed" check, the ASCII progress bar and the
    relative-time label. The progress, `getRealTimeETA` and the visible /
    hidden stations follow the progress view. */
module TimelineView {
  import opened Wrappers
  import opened Types
  import opened Builtins
  import opened Geometry
  import opened Clock
  import EtaCalculations
  import HorizontalView
  import ProgressView

  // ---------------------------------------------------------------- passed by position

  /** `getIsPassed`, strict: SB passed below the progress, NB above it. */
  predicate IsPassedStrict(dir: Direction, stationPercent: real, progress: real) {
    if dir == SB then stationPercent / 100.0 < progress else stationPercent / 100.0 > progress
  }

  /** The strict test implies the inclusive one, and the two differ exactly
      for a station level with the train. */
  lemma StrictAndInclusive(dir: Direction, stationPercent: real, progress: real)
    ensures IsPassedStrict(dir, stationPercent, progress) ==> ProgressView.IsPassedInclusive(dir, stationPercent, progress)
    ensures (ProgressView.IsPassedInclusive(dir, stationPercent, progress) && !IsPassedStrict(dir, stationPercent, progress))
            <==> stationPercent / 100.0 == progress
  {
  }

  // ---------------------------------------------------------------- visible and hidden stations

  /** `destIdx`: looked up only for a non-empty passed destination. */
  function TimelineDestination(passedDestination: Option<string>): (d: Option<string>)
    ensures d.Some? <==> Truthy(passedDestination)
    ensures d.Some? ==> d == passedDestination
  {
    if Truthy(passedDestination) then passedDestination else None
  }

  /** The destination's route index, or None (the view's -1). */
  function DestIdx(route: seq<RouteStation>, passedDestination: Option<string>): Option<nat> {
    match TimelineDestination(passedDestination)
    case None => None
    case Some(d) => FindOnRoute(route, d)
  }

  /** `getVisibleStations` of this view: the progress view's rule with the
      destination index taken from the passed destination alone. */
  method VisibleStations(route: seq<RouteStation>, origin: string, passedDestination: Option<string>)
    returns (idx: seq<nat>, shown: seq<RouteStation>)
    ensures FindOnRoute(route, origin).None? ==> shown == route
    ensures FindOnRoute(route, origin).Some? ==>
              var d := DestIdx(route, passedDestination);
              && |shown| == |idx|
              && (forall k :: 0 <= k < |idx| ==> idx[k] < |route| && shown[k] == route[idx[k]])
              && (forall a, b :: 0 <= a < b < |idx| ==> idx[a] < idx[b])
              && (forall i :: i in idx <==> i in ProgressView.VisibleSet(|route|, FindOnRoute(route, origin).value, d))
  {
    idx, shown := ProgressView.VisibleStations(route, origin, TimelineDestination(passedDestination));
  }

  /** `getHiddenBefore` / `getHiddenAfter` of this view: a missing origin
      (index -1) hides nothing before it, and a missing origin or
      destination hides nothing after it. */
  lemma HiddenSets(route: seq<RouteStation>, origin: string, passedDestination: Option<string>)
    ensures FindOnRoute(route, origin).None? ==> ProgressView.HiddenBefore(FindOnRoute(route, origin)) == {}
    ensures !Truthy(passedDestination) ==> ProgressView.HiddenAfter(FindOnRoute(route, origin), DestIdx(route, passedDestination)) == {}
    ensures forall i :: i in ProgressView.HiddenBefore(FindOnRoute(route, origin)) ==> i + 2 < FindOnRoute(route, origin).value
  {
    if FindOnRoute(route, origin).Some? && FindOnRoute(route, origin).value > 2 {
      var o := FindOnRoute(route, origin).value;
      forall i | i in ProgressView.HiddenBefore(FindOnRoute(route, origin)) ensures i + 2 < o {
        assert i in ProgressView.Interval(0, o - 2);
      }
    }
  }

  // ---------------------------------------------------------------- time information

  /** `getStationTimeInfo`'s result; an absent field is None. */
  datatype TimeInfo = TimeInfo(departureTime: Option<string>, scheduledTime: Option<string>, etaMinutes: int)

  /** What a prediction row contributes: its departure, its scheduled time
      and its first digit run (not clamped). */
  function FromPrediction(p: TrainPrediction): TimeInfo {
    TimeInfo(Some(p.departure), p.scheduledTime, HorizontalView.MatchedMinutes(p.eta))
  }

  /** The inputs every station's time information depends on. */
  datatype TimeSources = TimeSources(
    origin: string,
    passedDestination: Option<string>,
    trainNumber: string,
    originPredictions: seq<TrainPrediction>,
    destinationPredictions: seq<TrainPrediction>,
    etaMap: Option<map<string, EtaCalculations.EtaEntry>>,
    loading: bool)

  /** `getStationTimeInfo`. */
  function StationTimeInfo(src: TimeSources, name: string): TimeInfo {
    var originPred := FindTrain(src.originPredictions, src.trainNumber);
    var destPred := FindTrain(src.destinationPredictions, src.trainNumber);
    if name == src.origin && originPred.Some? then
      FromPrediction(src.originPredictions[originPred.value])
    else if Truthy(src.passedDestination) && name == src.passedDestination.value && destPred.Some? then
      FromPrediction(src.destinationPredictions[destPred.value])
    else if src.etaMap.Some? && name in src.etaMap.value then
      TimeInfo(None, Some(src.etaMap.value[name].arrivalTime), src.etaMap.value[name].etaMinutes)
    else if src.loading then TimeInfo(None, None, -1)
    else TimeInfo(None, None, 0)
  }

  /** The precedence: the origin's prediction, then the destination's, then
      the ETA map with its arrival time as the scheduled time, then -1 while
      loading, then 0. A departure is known only from a prediction. */
  lemma TimeInfoPrecedence(src: TimeSources, name: string)
    ensures name == src.origin && FindTrain(src.originPredictions, src.trainNumber).Some? ==>
              var p := src.originPredictions[FindTrain(src.originPredictions, src.trainNumber).value];
              && p.trainNumber == src.trainNumber
              && StationTimeInfo(src, name) == TimeInfo(Some(p.departure), p.scheduledTime, EtaCalculations.ExtractETAMinutes(p.eta))
    ensures (name != src.origin || FindTrain(src.originPredictions, src.trainNumber).None?)
            && Truthy(src.passedDestination) && name == src.passedDestination.value
            && FindTrain(src.destinationPredictions, src.trainNumber).Some? ==>
              var p := src.destinationPredictions[FindTrain(src.destinationPredictions, src.trainNumber).value];
              && p.trainNumber == src.trainNumber
              && StationTimeInfo(src, name) == TimeInfo(Some(p.departure), p.scheduledTime, EtaCalculations.ExtractETAMinutes(p.eta))
    ensures StationTimeInfo(src, name).departureTime.Some? <==>
              (name == src.origin && FindTrain(src.originPredictions, src.trainNumber).Some?)
              || (Truthy(src.passedDestination) && name == src.passedDestination.value
                  && FindTrain(src.destinationPredictions, src.trainNumber).Some?)
    ensures StationTimeInfo(src, name).departureTime.None? && src.etaMap.Some? && name in src.etaMap.value ==>
              StationTimeInfo(src, name) == TimeInfo(None, Some(src.etaMap.value[name].arrivalTime), src.etaMap.value[name].etaMinutes)
    ensures StationTimeInfo(src, name).departureTime.None? && (src.etaMap.None? || name !in src.etaMap.value) ==>
              StationTimeInfo(src, name) == TimeInfo(None, None, if src.loading then -1 else 0)
  {
    var originPred := FindTrain(src.originPredictions, src.trainNumber);
    var destPred := FindTrain(src.destinationPredictions, src.trainNumber);
    if originPred.Some? {
      HorizontalView.MatchedMinutesIsExtract(src.originPredictions[originPred.value].eta);
    }
    if destPred.Some? {
      HorizontalView.MatchedMinutesIsExtract(src.destinationPredictions[destPred.value].eta);
    }
  }

  // ---------------------------------------------------------------- passed by the clock

  /** The time `isStationPassed` checks: a non-empty departure, else a
      non-empty scheduled time. */
  function TimeToCheck(info: TimeInfo): Option<string> {
    if Truthy(info.departureTime) then info.departureTime
    else if Truthy(info.scheduledTime) then info.scheduledTime
    else None
  }

  /** `isStationPassed` on the day starting at `midnightMs`, at `nowMs`: the
      checked time set on today's date lies before now. Unparsable text makes
      an invalid date, which compares false. */
  function StationPassed(info: TimeInfo, midnightMs: int, nowMs: int): bool {
    match TimeToCheck(info)
    case None => false
    case Some(t) =>
      match ParseClock(t)
      case None => false
      case Some(hm) => SameDayMs(midnightMs, hm.0, hm.1) < nowMs
  }

  /** The check as the view writes it, step by step. */
  method IsStationPassed(info: TimeInfo, midnightMs: int, nowMs: int) returns (passed: bool)
    ensures passed == StationPassed(info, midnightMs, nowMs)
  {
    if !Truthy(info.departureTime) && !Truthy(info.scheduledTime) {
      return false;
    }
    var timeToCheck := if Truthy(info.departureTime) then info.departureTime.value else info.scheduledTime.value;
    var timePart := SplitFirst(timeToCheck, ' ');
    var period := SplitSecond(timeToCheck, ' ');
    var hours := JsNumber(SplitFirst(timePart, ':'));
    var minutesText := SplitSecond(timePart, ':');
    if hours.None? || minutesText.None? {
      return false;
    }
    var minutes := JsNumber(minutesText.value);
    if minutes.None? {
      return false;
    }
    var hour24 := hours.value;
    if period == Some("PM") && hours.value != 12 {
      hour24 := hour24 + 12;
    }
    if period == Some("AM") && hours.value == 12 {
      hour24 := 0;
    }
    var stationTime := SameDayMs(midnightMs, hour24, minutes.value);
    passed := stationTime < nowMs;
  }

  /** No known time means not passed; a departure outranks the scheduled
      time; and for well-formed "h:mm AM/PM" text the station has passed
      exactly when that minute of today is before now. */
  lemma StationPassedProperties(info: TimeInfo, midnightMs: int, nowMs: int)
    ensures !Truthy(info.departureTime) && !Truthy(info.scheduledTime) ==> !StationPassed(info, midnightMs, nowMs)
    ensures Truthy(info.departureTime) ==>
              StationPassed(info, midnightMs, nowMs) == StationPassed(TimeInfo(info.departureTime, None, 0), midnightMs, nowMs)
    ensures StationPassed(info, midnightMs, nowMs) ==> TimeToCheck(info).Some? && ParseClock(TimeToCheck(info).value).Some?
  {
  }

  /** A departure written "hs:ms period" in digits is passed exactly when
      its 24-hour minute of today lies before now. */
  lemma PassedAtCanonicalTime(hs: string, ms: string, period: string, scheduled: Option<string>, eta: int, midnightMs: int, nowMs: int)
    requires AllDigits(hs) && AllDigits(ms)
    requires forall i :: 0 <= i < |period| ==> period[i] != ' '
    ensures StationPassed(TimeInfo(Some(hs + ":" + ms + " " + period), scheduled, eta), midnightMs, nowMs)
            <==> midnightMs + (HourTo24(DigitsValue(hs), Some(period)) * 60 + DigitsValue(ms)) * 60000 < nowMs
  {
    ParseCanonical(hs, ms, period);
    assert (hs + ":" + ms + " " + period) != "" by {
      assert |hs + ":" + ms + " " + period| >= 2;
    }
  }

  /** The time shown: departure, else scheduled time, else "--:--". */
  function DisplayTime(info: TimeInfo): string {
    if Truthy(info.departureTime) then info.departureTime.value
    else if Truthy(info.scheduledTime) then info.scheduledTime.value
    else "--:--"
  }

  /** The time shown is the time checked, whenever one is known. */
  lemma DisplayIsChecked(info: TimeInfo)
    ensures TimeToCheck(info).Some? ==> DisplayTime(info) == TimeToCheck(info).value
    ensures TimeToCheck(info).None? ==> DisplayTime(info) == "--:--"
  {
  }

  // ---------------------------------------------------------------- text

  /** `getProgressBar`: 20 cells, `Math.round(percent / 100 * 20)` of them
      filled. A negative count makes `repeat` throw, which is None here. */
  function ProgressBar(percent: real): Option<string> {
    var filled := Round(percent / 100.0 * 20.0);
    var empty := 20 - filled;
    if filled < 0 || empty < 0 then None
    else Some("[" + Repeat('█', filled) + Repeat('░', empty) + "]")
  }

  /** For a percent in 0..100 the bar is 22 characters: brackets around
      round(percent / 5) filled cells followed by the empty ones. It only
      throws for a count outside 0..20. */
  lemma ProgressBarShape(percent: real)
    ensures ProgressBar(percent).None? <==> Round(percent / 100.0 * 20.0) < 0 || Round(percent / 100.0 * 20.0) > 20
    ensures 0.0 <= percent <= 100.0 ==>
              var filled := Round(percent / 5.0);
              && ProgressBar(percent).Some?
              && 0 <= filled <= 20
              && var bar := ProgressBar(percent).value;
              && |bar| == 22 && bar[0] == '[' && bar[21] == ']'
              && (forall i :: 1 <= i <= filled ==> bar[i] == '█')
              && (forall i :: filled < i <= 20 ==> bar[i] == '░')
  {
    assert percent / 100.0 * 20.0 == percent / 5.0;
    if 0.0 <= percent <= 100.0 {
      RoundBetween(percent / 5.0, 0, 20);
      var filled := Round(percent / 5.0);
      var bar := "[" + Repeat('█', filled) + Repeat('░', 20 - filled) + "]";
      assert forall i :: 1 <= i <= filled ==> bar[i] == Repeat('█', filled)[i - 1];
      assert forall i :: filled < i <= 20 ==> bar[i] == Repeat('░', 20 - filled)[i - 1 - filled];
    }
  }

  /** The relative-time label of a station row. */
  function RelativeLabel(passed: bool, etaMinutes: int): string {
    if passed then "PASSED"
    else if etaMinutes == 0 then "NOW"
    else if etaMinutes == -1 then "LOADING"
    else if etaMinutes > 0 then "in " + NatToString(etaMinutes) + "m"
    else "--"
  }

  /** Each label's condition, and the minutes read back from an "in Nm"
      label are the minutes. */
  lemma RelativeLabelCases(passed: bool, etaMinutes: int)
    ensures passed <==> RelativeLabel(passed, etaMinutes) == "PASSED"
    ensures RelativeLabel(passed, etaMinutes) == "NOW" <==> !passed && etaMinutes == 0
    ensures RelativeLabel(passed, etaMinutes) == "LOADING" <==> !passed && etaMinutes == -1
    ensures RelativeLabel(passed, etaMinutes) == "--" <==> !passed && etaMinutes < -1
    ensures !passed && etaMinutes > 0 ==>
              EtaCalculations.ExtractETAMinutes(RelativeLabel(passed, etaMinutes)) == etaMinutes
  {
    if !passed && etaMinutes > 0 {
      var s := "in " + NatToString(etaMinutes) + "m";
      assert s[0] == 'i' && s[1] == 'n';
      assert NoDigits("in ");
      EtaCalculations.ExtractAfterPrefix("in ", etaMinutes, "m");
    }
  }
}
