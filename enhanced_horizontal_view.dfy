/** components/prototypes/EnhancedHorizontalView.tsx, the parts beyond the
    shared locator and viewport: the ETA read from a prediction list, the
    destination fallback and the "reached the origin" test. */
module HorizontalView {
  import opened Wrappers
  import opened Types
  import opened Builtins
  import opened Geometry
  import EtaCalculations

  /** `parseInt(eta.match(/\d+/) ? eta.match(/\d+/)![0] : "0")`. */
  function MatchedMinutes(eta: string): int {
    ParseInt(FirstDigitRun(eta).GetOr("0")).GetOr(0)
  }

  /** The views' inline digit extraction is the library's `extractETAMinutes`. */
  lemma MatchedMinutesIsExtract(eta: string)
    ensures MatchedMinutes(eta) == EtaCalculations.ExtractETAMinutes(eta)
  {
    if FirstDigitRun(eta).None? {
      assert ParseInt("0") == Some(0) by {
        assert AllDigits("0");
        assert DigitsValue("0") == DigitsValue("") * 10 + DigitValue('0');
      }
    }
  }

  /** `getRealTimeETA`: the first prediction of this train, its first digit
      run clamped at 0; 0 when the train is not listed. */
  function RealTimeETA(trainNumber: string, preds: seq<TrainPrediction>): int {
    match FindTrain(preds, trainNumber)
    case None => 0
    case Some(i) => Max(0, MatchedMinutes(preds[i].eta))
  }

  /** It is `getTrainETAFromPredictions`, so never negative. */
  lemma RealTimeETAIsLibraryETA(trainNumber: string, preds: seq<TrainPrediction>)
    ensures RealTimeETA(trainNumber, preds) == EtaCalculations.TrainETAFromPredictions(trainNumber, preds)
    ensures RealTimeETA(trainNumber, preds) >= 0
  {
    match FindTrain(preds, trainNumber)
    case None =>
    case Some(i) => MatchedMinutesIsExtract(preds[i].eta);
  }

  /** `stations.find(s => s.stop1 === id || s.stop2 === id)`, as an index. */
  function FindStationById(stations: seq<Station>, id: string): (r: Option<nat>)
    ensures r.Some? ==> r.value < |stations| && (stations[r.value].stop1 == id || stations[r.value].stop2 == id)
    ensures r.Some? ==> forall j :: 0 <= j < r.value ==> stations[j].stop1 != id && stations[j].stop2 != id
    ensures r.None? ==> forall j :: 0 <= j < |stations| ==> stations[j].stop1 != id && stations[j].stop2 != id
  {
    if stations == [] then None
    else if stations[0].stop1 == id || stations[0].stop2 == id then Some(0)
    else match FindStationById(stations[1..], id)
      case None => None
      case Some(k) => Some(k + 1)
  }

  /** `passedDestination || destStation?.stopname || null`, where destStation
      serves the train's last stop id (an empty stop list has none). */
  function Destination(passed: Option<string>, stopIds: seq<string>, stations: seq<Station>): Option<string> {
    if Truthy(passed) then passed
    else if stopIds == [] then None
    else match FindStationById(stations, stopIds[|stopIds| - 1])
      case None => None
      case Some(i) => if stations[i].stopname != "" then Some(stations[i].stopname) else None
  }

  /** A given destination wins; otherwise the name comes from the first
      station serving the last stop id, and there is none when the train has
      no stops, no station serves the last one, or that station is unnamed. */
  lemma DestinationProperties(passed: Option<string>, stopIds: seq<string>, stations: seq<Station>)
    ensures Truthy(passed) ==> Destination(passed, stopIds, stations) == passed
    ensures !Truthy(passed) && Destination(passed, stopIds, stations).Some? ==>
      var name := Destination(passed, stopIds, stations).value;
      && name != "" && stopIds != []
      && exists i :: 0 <= i < |stations| && stations[i].stopname == name
           && (stations[i].stop1 == stopIds[|stopIds| - 1] || stations[i].stop2 == stopIds[|stopIds| - 1])
    ensures !Truthy(passed) && stopIds != []
            && (forall j :: 0 <= j < |stations| ==> stations[j].stop1 != stopIds[|stopIds| - 1] && stations[j].stop2 != stopIds[|stopIds| - 1])
            ==> Destination(passed, stopIds, stations).None?
    ensures !Truthy(passed) && stopIds == [] ==> Destination(passed, stopIds, stations).None?
  {
    if !Truthy(passed) && stopIds != [] {
      var r := FindStationById(stations, stopIds[|stopIds| - 1]);
      if r.Some? && stations[r.value].stopname != "" {
        assert stations[r.value].stopname == Destination(passed, stopIds, stations).value;
      }
    }
  }

  /** `originPercent` for a route: the origin station's percent when the
      origin is on it. */
  function OriginPercentOn(route: seq<RouteStation>, origin: string): Option<real> {
    match FindOnRoute(route, origin)
    case None => None
    case Some(i) => Some(route[i].percent)
  }

  /** `trainReachedOrigin` as written: the vehicle's percent (0-100) against
      the origin's percent divided by 100. */
  predicate ReachedOriginAsWritten(route: seq<RouteStation>, origin: string, trainPercent: Option<real>) {
    OriginPercentOn(route, origin).Some? && trainPercent.Some?
    && trainPercent.value >= OriginPercentOn(route, origin).value / 100.0
  }

  /** `trainReachedOrigin` with both sides on the 0-100 scale. */
  predicate ReachedOrigin(route: seq<RouteStation>, origin: string, trainPercent: Option<real>) {
    OriginPercentOn(route, origin).Some? && trainPercent.Some?
    && trainPercent.value >= OriginPercentOn(route, origin).value
  }

  /** The two agree only at the route's start: at 1% with the origin at 50%
      the test as written says the vehicle has reached the origin. */
  lemma ReachedOriginScaleMismatch()
    ensures var route := [RouteStation(Station("1", "2", "A", "a", 0.0, 0.0), 0.0),
                          RouteStation(Station("3", "4", "B", "b", 1.0, 0.0), 50.0),
                          RouteStation(Station("5", "6", "C", "c", 2.0, 0.0), 100.0)];
      ReachedOriginAsWritten(route, "B", Some(1.0)) && !ReachedOrigin(route, "B", Some(1.0))
  {
    var route := [RouteStation(Station("1", "2", "A", "a", 0.0, 0.0), 0.0),
                  RouteStation(Station("3", "4", "B", "b", 1.0, 0.0), 50.0),
                  RouteStation(Station("5", "6", "C", "c", 2.0, 0.0), 100.0)];
    assert route[0].station.stopname != "B";
    assert FindOnRoute(route, "B") == Some(1);
  }

  /** With the scales matched, a percent below the origin's has not reached
      it and one at or above it has; as written, any percent from a hundredth
      of the origin's on counts as arrived. */
  lemma ReachedOriginMeaning(route: seq<RouteStation>, origin: string, tp: real)
    requires OriginPercentOn(route, origin).Some?
    ensures ReachedOrigin(route, origin, Some(tp)) <==> tp >= OriginPercentOn(route, origin).value
    ensures OriginPercentOn(route, origin).value > 0.0 ==>
              (ReachedOriginAsWritten(route, origin, Some(tp)) && !ReachedOrigin(route, origin, Some(tp))
               <==> OriginPercentOn(route, origin).value / 100.0 <= tp < OriginPercentOn(route, origin).value)
  {
  }

  lemma NoDigitsConcat(a: string, b: string)
    requires NoDigits(a) && NoDigits(b)
    ensures NoDigits(a + b)
  {
    assert forall i :: |a| <= i < |a + b| ==> (a + b)[i] == b[i - |a|];
  }

  /** The headline line 254 builds from a reached-origin test. */
  function HeadlineText(reached: bool, origin: string, destination: Option<string>, etaToOrigin: nat): string {
    if reached
    then "Heading to " + (if destination.Some? then destination.value else "null")
    else "Arriving at " + origin + " in " + NatToString(etaToOrigin) + "m"
  }

  /** The headline as written: selected by `trainReachedOrigin` of line 237. */
  function Headline(route: seq<RouteStation>, origin: string, trainPercent: Option<real>,
                    destination: Option<string>, etaToOrigin: nat): string
  {
    HeadlineText(ReachedOriginAsWritten(route, origin, trainPercent), origin, destination, etaToOrigin)
  }

  /** The headline with the reached-origin test on one scale. */
  function CorrectedHeadline(route: seq<RouteStation>, origin: string, trainPercent: Option<real>,
                             destination: Option<string>, etaToOrigin: nat): string
  {
    HeadlineText(ReachedOrigin(route, origin, trainPercent), origin, destination, etaToOrigin)
  }

  /** The arrival headline gives the minutes to the origin, and those minutes
      read back from the text when the origin's name has no digit. */
  lemma ArrivingText(origin: string, destination: Option<string>, etaToOrigin: nat)
    ensures HeadlineText(false, origin, destination, etaToOrigin)
            == "Arriving at " + origin + " in " + NatToString(etaToOrigin) + "m"
    ensures NoDigits(origin) ==>
              EtaCalculations.ExtractETAMinutes(HeadlineText(false, origin, destination, etaToOrigin)) == etaToOrigin
  {
    var prefix := "Arriving at " + origin + " in ";
    assert HeadlineText(false, origin, destination, etaToOrigin) == prefix + NatToString(etaToOrigin) + "m";
    if NoDigits(origin) {
      NoDigitsConcat("Arriving at ", origin);
      NoDigitsConcat("Arriving at " + origin, " in ");
      EtaCalculations.ExtractAfterPrefix(prefix, etaToOrigin, "m");
    }
  }

  /** As written, the headline gives the minutes to the origin only while the
      vehicle is below a hundredth of the origin's percent, and announces the
      destination from there on. */
  lemma HeadlineBeforeOrigin(route: seq<RouteStation>, origin: string, tp: real,
                             destination: Option<string>, etaToOrigin: nat)
    requires OriginPercentOn(route, origin).Some?
    ensures tp < OriginPercentOn(route, origin).value / 100.0 ==>
              Headline(route, origin, Some(tp), destination, etaToOrigin)
              == "Arriving at " + origin + " in " + NatToString(etaToOrigin) + "m"
    ensures tp < OriginPercentOn(route, origin).value / 100.0 && NoDigits(origin) ==>
              EtaCalculations.ExtractETAMinutes(Headline(route, origin, Some(tp), destination, etaToOrigin)) == etaToOrigin
    ensures tp >= OriginPercentOn(route, origin).value / 100.0 ==>
              Headline(route, origin, Some(tp), destination, etaToOrigin)
              == "Heading to " + (if destination.Some? then destination.value else "null")
  {
    ArrivingText(origin, destination, etaToOrigin);
  }

  /** On one scale, the headline gives the minutes to the origin exactly while
      the vehicle's percent is below the origin's. */
  lemma CorrectedHeadlineBeforeOrigin(route: seq<RouteStation>, origin: string, tp: real,
                                      destination: Option<string>, etaToOrigin: nat)
    requires OriginPercentOn(route, origin).Some?
    ensures tp < OriginPercentOn(route, origin).value ==>
              CorrectedHeadline(route, origin, Some(tp), destination, etaToOrigin)
              == "Arriving at " + origin + " in " + NatToString(etaToOrigin) + "m"
    ensures tp < OriginPercentOn(route, origin).value && NoDigits(origin) ==>
              EtaCalculations.ExtractETAMinutes(CorrectedHeadline(route, origin, Some(tp), destination, etaToOrigin)) == etaToOrigin
    ensures tp >= OriginPercentOn(route, origin).value ==>
              CorrectedHeadline(route, origin, Some(tp), destination, etaToOrigin)
              == "Heading to " + (if destination.Some? then destination.value else "null")
  {
    ArrivingText(origin, destination, etaToOrigin);
  }
}
