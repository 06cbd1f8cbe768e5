/** lib/etaCalculations.ts: ETA minutes read off board strings, station
    positions by cumulative distance, and per-station ETAs interpolated
    piecewise-linearly from the origin's and the destination's ETAs. */
module EtaCalculations {
  import opened Wrappers
  import opened Builtins
  import opened Types
  import opened Geometry

  // ---------------------------------------------------------------- ETA strings

  /** `extractETAMinutes`: the value of the first run of digits, or 0 when the
      string has none (`Math.max(0, …)` never bites: a digit run is never negative). */
  function ExtractETAMinutes(eta: string): (r: nat)
    ensures NoDigits(eta) ==> r == 0
    ensures !NoDigits(eta) ==> r == DigitsValue(FirstDigitRun(eta).value)
  {
    match FirstDigitRun(eta)
    case None => 0
    case Some(run) => ParseInt(run).GetOr(0)
  }

  /** A number written in a string after a digit-free prefix, and not followed
      by another digit, is what `extractETAMinutes` reads back. */
  lemma ExtractAfterPrefix(p: string, n: nat, q: string)
    requires NoDigits(p)
    requires q == [] || !IsDigit(q[0])
    ensures ExtractETAMinutes(p + NatToString(n) + q) == n
  {
    var d := NatToString(n);
    assert p + d + q == p + (d + q);
    FirstRunAfterPrefix(p, d + q);
    LeadingDigitsOfDigitsThen(d, q);
  }

  /** After a digit-free prefix, the first run of digits is the one t starts with. */
  lemma FirstRunAfterPrefix(p: string, t: string)
    requires NoDigits(p)
    requires t != [] && IsDigit(t[0])
    ensures FirstDigitRun(p + t) == Some(LeadingDigits(t))
  {
    var s := p + t;
    var k := FirstDigitAt(s);
    assert s[|p|] == t[0];
    assert forall i :: 0 <= i < |p| ==> s[i] == p[i];
    assert k == |p|;
    assert s[k..] == t;
  }

  /** `getTrainETAFromPredictions`: the ETA of the first prediction of the same
      train, or 0 when the train is not in the list. */
  function TrainETAFromPredictions(trainNumber: string, preds: seq<TrainPrediction>): (r: nat)
    ensures (forall j :: 0 <= j < |preds| ==> preds[j].trainNumber != trainNumber) ==> r == 0
    ensures forall i :: 0 <= i < |preds| && preds[i].trainNumber == trainNumber
                        && (forall j :: 0 <= j < i ==> preds[j].trainNumber != trainNumber)
                        ==> r == ExtractETAMinutes(preds[i].eta)
  {
    forall i | 0 <= i < |preds| && preds[i].trainNumber == trainNumber
               && (forall j :: 0 <= j < i ==> preds[j].trainNumber != trainNumber)
      ensures FindTrain(preds, trainNumber) == Some(i)
    {
      FindTrainFirst(preds, trainNumber, i);
    }
    match FindTrain(preds, trainNumber)
    case None => 0
    case Some(k) => ExtractETAMinutes(preds[k].eta)
  }

  /** `getArrivalTime`: "Loading..." for a negative ETA, otherwise the clock text
      of now plus the ETA; the time-zone formatting itself is the parameter `fmt`. */
  function ArrivalTime(etaMinutes: int, nowMs: int, fmt: int -> string): string
  {
    if etaMinutes < 0 then "Loading..." else fmt(nowMs + etaMinutes * 60000)
  }

  // ---------------------------------------------------------------- station percents

  /** `percentMap.set(name, percent)` for every route station in order: a later
      station of the same name overwrites an earlier one. */
  function PercentMapOf(route: seq<RouteStation>): map<string, real>
  {
    if route == [] then map[]
    else PercentMapOf(route[..|route| - 1])[route[|route| - 1].station.stopname := route[|route| - 1].percent]
  }

  /** No later station on the route shares station i's name. */
  ghost predicate LastOfItsName(route: seq<RouteStation>, i: nat)
    requires i < |route|
  {
    forall j :: i < j < |route| ==> route[j].station.stopname != route[i].station.stopname
  }

  /** The map has a key for exactly the names on the route, and each holds the
      percent of the last station of that name. */
  lemma {:induction false} PercentMapEntries(route: seq<RouteStation>)
    ensures forall name :: name in PercentMapOf(route) <==>
      exists i :: 0 <= i < |route| && route[i].station.stopname == name
    ensures forall i :: 0 <= i < |route| && LastOfItsName(route, i) ==>
                          PercentMapOf(route)[route[i].station.stopname] == route[i].percent
  {
    if route != [] {
      var init := route[..|route| - 1];
      PercentMapEntries(init);
      forall name ensures name in PercentMapOf(route) <==>
        exists i :: 0 <= i < |route| && route[i].station.stopname == name
      {
        if name in PercentMapOf(init) {
          var i :| 0 <= i < |init| && init[i].station.stopname == name;
          assert route[i].station.stopname == name;
        }
        if exists i :: 0 <= i < |route| && route[i].station.stopname == name {
          var i :| 0 <= i < |route| && route[i].station.stopname == name;
          if i < |init| { assert init[i].station.stopname == name; }
        }
      }
      forall i | 0 <= i < |route| && LastOfItsName(route, i)
        ensures PercentMapOf(route)[route[i].station.stopname] == route[i].percent
      {
        if i < |init| {
          assert init[i] == route[i];
          assert forall j :: i < j < |init| ==> init[j] == route[j];
        }
      }
    }
  }

  /** Every value of the map is one of the route's percents, so within 0..100
      on a valid route. */
  lemma {:induction false} PercentMapBounds(route: seq<RouteStation>)
    requires ValidRoute(route)
    ensures forall name :: name in PercentMapOf(route) ==> 0.0 <= PercentMapOf(route)[name] <= 100.0
  {
    if route != [] {
      var init := route[..|route| - 1];
      assert ValidRoute(init) by {
        assert forall i :: 0 <= i < |init| ==> init[i] == route[i];
      }
      PercentMapBounds(init);
    }
  }

  /** The percents of `calculateStationPercents`, ordered by stop1. */
  function StationPercentsOf(stations: seq<Station>, dist: DistFn): map<string, real> {
    PercentMapOf(RouteOf(SortedStations(stations), dist))
  }

  /** Sorting keeps the station names: a name is a key iff some input station has it. */
  lemma StationPercentsKeys(stations: seq<Station>, dist: DistFn, name: string)
    ensures name in StationPercentsOf(stations, dist) <==>
      exists i :: 0 <= i < |stations| && stations[i].stopname == name
  {
    var st := SortedStations(stations);
    var route := RouteOf(st, dist);
    PercentMapEntries(route);
    if exists i :: 0 <= i < |stations| && stations[i].stopname == name {
      var i :| 0 <= i < |stations| && stations[i].stopname == name;
      assert stations[i] in multiset(stations);
      assert stations[i] in multiset(st);
      var k :| 0 <= k < |st| && st[k] == stations[i];
      assert route[k].station.stopname == name;
    }
    if name in StationPercentsOf(stations, dist) {
      var k :| 0 <= k < |route| && route[k].station.stopname == name;
      assert st[k] in multiset(st);
      assert st[k] in multiset(stations);
      var i :| 0 <= i < |stations| && stations[i] == st[k];
    }
  }

  /** With non-negative distances every percent is within 0..100. */
  lemma StationPercentsBounds(stations: seq<Station>, dist: DistFn)
    requires NonNegativeDist(dist)
    ensures forall name :: name in StationPercentsOf(stations, dist) ==>
      0.0 <= StationPercentsOf(stations, dist)[name] <= 100.0
  {
    RouteOfValid(SortedStations(stations), dist);
    PercentMapBounds(RouteOf(SortedStations(stations), dist));
  }

  /** `calculateStationPercents`: normalise the sorted stations, then set each
      name's percent in station order. */
  method CalculateStationPercents(stations: seq<Station>, dist: DistFn) returns (percentMap: map<string, real>)
    ensures percentMap == StationPercentsOf(stations, dist)
  {
    var route := NormalizeStations(stations, dist);
    percentMap := SetPercents(route);
  }

  /** The `stationDistances.forEach(… percentMap.set …)` loop. */
  method SetPercents(route: seq<RouteStation>) returns (percentMap: map<string, real>)
    ensures percentMap == PercentMapOf(route)
  {
    percentMap := map[];
    var i := 0;
    while i < |route|
      invariant 0 <= i <= |route|
      invariant percentMap == PercentMapOf(route[..i])
    {
      assert route[..i + 1][..i] == route[..i];
      percentMap := percentMap[route[i].station.stopname := route[i].percent];
      i := i + 1;
    }
    assert route[..|route|] == route;
  }

  // ---------------------------------------------------------------- interpolation

  /** The zone rule of `calculateStationETAs` for a station at percent `sp`, with
      the origin at `op` and the destination at `dp`. Travel is increasing when
      `dp > op`, otherwise decreasing (equal percents take the decreasing rule).
      Percents lie within 0..100, which rules out every division by zero. */
  function StationEta(sp: real, op: real, dp: real, etaO: real, etaD: real): real
    requires 0.0 <= sp <= 100.0 && 0.0 <= op <= 100.0 && 0.0 <= dp <= 100.0
  {
    if dp > op then
      if sp <= op then (if sp == 0.0 then 0.0 else etaO * (sp / op))
      else if sp <= dp then etaO + (etaD - etaO) * ((sp - op) / (dp - op))
      else etaD
    else
      if sp >= op then (if sp == 100.0 then 0.0 else etaO * ((100.0 - sp) / (100.0 - op)))
      else if sp >= dp then etaO + (etaD - etaO) * ((op - sp) / (op - dp))
      else etaD
  }

  lemma RatioInUnit(a: real, b: real)
    requires 0.0 <= a <= b && b > 0.0
    ensures 0.0 <= a / b <= 1.0
    ensures a == b ==> a / b == 1.0
    ensures 0.0 < a < b ==> 0.0 < a / b < 1.0
  {
    DivMonotone(0.0, a, b);
    DivMonotone(a, b, b);
    if 0.0 < a < b {
      var q := a / b;
      assert q * b == a;
    }
  }

  /** The point a fraction t of the way from x to y. */
  function Lerp(x: real, y: real, t: real): real {
    x + (y - x) * t
  }

  /** For t in 0..1 that point lies between x and y. */
  lemma LerpBetween(x: real, y: real, t: real)
    requires 0.0 <= t <= 1.0
    ensures MinReal(x, y) <= Lerp(x, y, t) <= MaxReal(x, y)
  {
    if x <= y {
      ScaleDown(y - x, t);
    } else {
      ScaleDown(x - y, t);
      assert (y - x) * t == -((x - y) * t);
    }
  }

  /** `x * t` for t in 0..1 and x >= 0 lies in 0..x. */
  lemma ScaleDown(x: real, t: real)
    requires x >= 0.0 && 0.0 <= t <= 1.0
    ensures 0.0 <= x * t <= x
  {
    assert x * t <= x * 1.0;
  }

  function MinReal(a: real, b: real): real {
    if a <= b then a else b
  }

  /** The origin gets its own ETA, except at the start of the line (percent 0,
      increasing) or its end (percent 100, decreasing), which get 0. */
  lemma StationEtaAtOrigin(op: real, dp: real, etaO: real, etaD: real)
    requires 0.0 <= op <= 100.0 && 0.0 <= dp <= 100.0
    ensures dp > op ==> StationEta(op, op, dp, etaO, etaD) == (if op == 0.0 then 0.0 else etaO)
    ensures dp <= op ==> StationEta(op, op, dp, etaO, etaD) == (if op == 100.0 then 0.0 else etaO)
  {
  }

  /** When the percents differ the destination gets exactly its own ETA. */
  lemma StationEtaAtDestination(op: real, dp: real, etaO: real, etaD: real)
    requires 0.0 <= op <= 100.0 && 0.0 <= dp <= 100.0 && op != dp
    ensures StationEta(dp, op, dp, etaO, etaD) == etaD
  {
    if dp > op {
      RatioInUnit(dp - op, dp - op);
    } else {
      RatioInUnit(op - dp, op - dp);
    }
  }

  /** Stations strictly between origin and destination get a convex combination
      of the two anchor ETAs, with a weight strictly inside 0..1. */
  lemma StationEtaBetween(sp: real, op: real, dp: real, etaO: real, etaD: real)
    requires 0.0 <= sp <= 100.0 && 0.0 <= op <= 100.0 && 0.0 <= dp <= 100.0
    requires op < sp < dp || dp < sp < op
    ensures exists t :: 0.0 < t < 1.0 && StationEta(sp, op, dp, etaO, etaD) == Lerp(etaO, etaD, t)
    ensures MinReal(etaO, etaD) <= StationEta(sp, op, dp, etaO, etaD) <= MaxReal(etaO, etaD)
  {
    if dp > op {
      var t := (sp - op) / (dp - op);
      RatioInUnit(sp - op, dp - op);
      assert StationEta(sp, op, dp, etaO, etaD) == etaO + (etaD - etaO) * t;
      LerpBetween(etaO, etaD, t);
    } else {
      var t := (op - sp) / (op - dp);
      RatioInUnit(op - sp, op - dp);
      assert StationEta(sp, op, dp, etaO, etaD) == etaO + (etaD - etaO) * t;
      LerpBetween(etaO, etaD, t);
    }
  }

  /** Stations beyond the destination are pinned to the destination's ETA. */
  lemma StationEtaBeyond(sp: real, op: real, dp: real, etaO: real, etaD: real)
    requires 0.0 <= sp <= 100.0 && 0.0 <= op <= 100.0 && 0.0 <= dp <= 100.0
    requires (dp > op && sp > dp) || (dp <= op && sp < dp)
    ensures StationEta(sp, op, dp, etaO, etaD) == etaD
  {
  }

  /** Stations at or before the origin lie between 0 and the origin's ETA. */
  lemma StationEtaBeforeOrigin(sp: real, op: real, dp: real, etaO: real, etaD: real)
    requires 0.0 <= sp <= 100.0 && 0.0 <= op <= 100.0 && 0.0 <= dp <= 100.0
    requires etaO >= 0.0
    requires (dp > op && sp <= op) || (dp <= op && sp >= op)
    ensures 0.0 <= StationEta(sp, op, dp, etaO, etaD) <= etaO
  {
    if dp > op && sp != 0.0 {
      RatioInUnit(sp, op);
      ScaleDown(etaO, sp / op);
    } else if dp <= op && sp != 100.0 {
      RatioInUnit(100.0 - sp, 100.0 - op);
      ScaleDown(etaO, (100.0 - sp) / (100.0 - op));
    }
  }

  /** With non-negative anchors every station's ETA lies between 0 and the
      larger anchor. */
  lemma StationEtaBounds(sp: real, op: real, dp: real, etaO: real, etaD: real)
    requires 0.0 <= sp <= 100.0 && 0.0 <= op <= 100.0 && 0.0 <= dp <= 100.0
    requires etaO >= 0.0 && etaD >= 0.0
    ensures 0.0 <= StationEta(sp, op, dp, etaO, etaD) <= MaxReal(etaO, etaD)
  {
    if (dp > op && sp <= op) || (dp <= op && sp >= op) {
      StationEtaBeforeOrigin(sp, op, dp, etaO, etaD);
    } else if (dp > op && sp <= dp) || (dp <= op && sp >= dp) {
      if sp == dp {
        StationEtaAtDestination(op, dp, etaO, etaD);
      } else {
        StationEtaBetween(sp, op, dp, etaO, etaD);
      }
    }
  }

  // ---------------------------------------------------------------- the ETA map

  datatype EtaEntry = EtaEntry(etaMinutes: int, arrivalTime: string)

  /** The inputs every station's entry depends on. */
  datatype EtaInputs = EtaInputs(percents: map<string, real>, originPercent: real,
                                 destPercent: real, etaO: nat, etaD: nat,
                                 nowMs: int, fmt: int -> string)

  ghost predicate InRange(inp: EtaInputs) {
    && 0.0 <= inp.originPercent <= 100.0 && 0.0 <= inp.destPercent <= 100.0
    && forall name :: name in inp.percents ==> 0.0 <= inp.percents[name] <= 100.0
  }

  /** `stationPercents.get(name) ?? 0`. */
  function PercentFor(percents: map<string, real>, name: string): real {
    if name in percents then percents[name] else 0.0
  }

  /** The entry written for a station named `name`. */
  function EntryFor(inp: EtaInputs, name: string): (e: EtaEntry)
    requires InRange(inp)
    ensures e.etaMinutes >= 0
  {
    var eta := StationEta(PercentFor(inp.percents, name), inp.originPercent, inp.destPercent,
                          inp.etaO as real, inp.etaD as real);
    EtaEntry(Round(MaxReal(0.0, eta)), ArrivalTime(Round(eta), inp.nowMs, inp.fmt))
  }

  /** `etaMap.set(station.stopname, …)` for every station in the input order. */
  function FillEtas(stations: seq<Station>, inp: EtaInputs): map<string, EtaEntry>
    requires InRange(inp)
  {
    if stations == [] then map[]
    else FillEtas(stations[..|stations| - 1], inp)[stations[|stations| - 1].stopname
                                                    := EntryFor(inp, stations[|stations| - 1].stopname)]
  }

  lemma {:induction false} FillEtasEntries(stations: seq<Station>, inp: EtaInputs)
    requires InRange(inp)
    ensures forall name :: name in FillEtas(stations, inp) <==>
      exists i :: 0 <= i < |stations| && stations[i].stopname == name
    ensures forall name :: name in FillEtas(stations, inp) ==> FillEtas(stations, inp)[name] == EntryFor(inp, name)
  {
    if stations != [] {
      var init := stations[..|stations| - 1];
      FillEtasEntries(init, inp);
      forall name ensures name in FillEtas(stations, inp) <==>
        exists i :: 0 <= i < |stations| && stations[i].stopname == name
      {
        if name in FillEtas(init, inp) {
          var i :| 0 <= i < |init| && init[i].stopname == name;
          assert stations[i].stopname == name;
        }
        if exists i :: 0 <= i < |stations| && stations[i].stopname == name {
          var i :| 0 <= i < |stations| && stations[i].stopname == name;
          if i < |init| { assert init[i].stopname == name; }
        }
      }
    }
  }

  /** The inputs `calculateStationETAs` derives: the two anchor ETAs (the
      destination's falls back to the origin's when no destination is given),
      and the origin's and destination's percents (0 and 100 when not found). */
  function InputsOf(trainNumber: string, origin: string, destination: Option<string>,
                    stations: seq<Station>, originPreds: seq<TrainPrediction>,
                    destPreds: seq<TrainPrediction>, nowMs: int, fmt: int -> string,
                    dist: DistFn): (inp: EtaInputs)
    requires NonNegativeDist(dist)
    ensures InRange(inp)
  {
    var etaO := TrainETAFromPredictions(trainNumber, originPreds);
    var etaD := if Truthy(destination) then TrainETAFromPredictions(trainNumber, destPreds) else etaO;
    var percents := StationPercentsOf(stations, dist);
    StationPercentsBounds(stations, dist);
    var destKey := destination.GetOr("");
    EtaInputs(percents, PercentFor(percents, origin),
              if destKey in percents then percents[destKey] else 100.0,
              etaO, etaD, nowMs, fmt)
  }

  /** The "origin not found" guard: origin percent 0 and the origin is not the
      first station of the list as given. */
  predicate OriginRejected(origin: string, stations: seq<Station>, inp: EtaInputs) {
    inp.originPercent == 0.0 && (stations == [] || origin != stations[0].stopname)
  }

  /** The result of `calculateStationETAs`. */
  function StationETAsOf(trainNumber: string, origin: string, destination: Option<string>,
                         stations: seq<Station>, originPreds: seq<TrainPrediction>,
                         destPreds: seq<TrainPrediction>, nowMs: int, fmt: int -> string,
                         dist: DistFn): map<string, EtaEntry>
    requires NonNegativeDist(dist)
  {
    EtasFrom(origin, stations, InputsOf(trainNumber, origin, destination, stations, originPreds, destPreds, nowMs, fmt, dist))
  }

  /** The guard, then the loop. */
  function EtasFrom(origin: string, stations: seq<Station>, inp: EtaInputs): map<string, EtaEntry>
    requires InRange(inp)
  {
    if OriginRejected(origin, stations, inp) then map[] else FillEtas(stations, inp)
  }

  /** Any entry of the map is the entry for its name. */
  lemma EtasFromEntry(origin: string, stations: seq<Station>, inp: EtaInputs, name: string)
    requires InRange(inp)
    requires name in EtasFrom(origin, stations, inp)
    ensures EtasFrom(origin, stations, inp)[name] == EntryFor(inp, name)
    ensures exists i :: 0 <= i < |stations| && stations[i].stopname == name
  {
    FillEtasEntries(stations, inp);
  }

  /** `calculateStationETAs`. */
  method CalculateStationETAs(trainNumber: string, origin: string, destination: Option<string>,
                              stations: seq<Station>, originPreds: seq<TrainPrediction>,
                              destPreds: seq<TrainPrediction>, nowMs: int, fmt: int -> string,
                              dist: DistFn) returns (etaMap: map<string, EtaEntry>)
    requires NonNegativeDist(dist)
    ensures etaMap == StationETAsOf(trainNumber, origin, destination, stations, originPreds,
                                    destPreds, nowMs, fmt, dist)
  {
    etaMap := map[];
    var etaToOrigin := TrainETAFromPredictions(trainNumber, originPreds);
    var etaToDestination := if Truthy(destination) then TrainETAFromPredictions(trainNumber, destPreds)
                            else etaToOrigin;
    var stationPercents := CalculateStationPercents(stations, dist);
    StationPercentsBounds(stations, dist);
    var originPercent := PercentFor(stationPercents, origin);
    var destKey := destination.GetOr("");
    var destPercent := if destKey in stationPercents then stationPercents[destKey] else 100.0;
    var inp := EtaInputs(stationPercents, originPercent, destPercent, etaToOrigin,
                         etaToDestination, nowMs, fmt);
    assert inp == InputsOf(trainNumber, origin, destination, stations, originPreds, destPreds, nowMs, fmt, dist);
    if originPercent == 0.0 && (stations == [] || origin != stations[0].stopname) {
      return;
    }
    etaMap := FillEtaMap(stations, inp);
  }

  /** The `stations.forEach` loop that reassigns `stationEta` and sets each entry. */
  method FillEtaMap(stations: seq<Station>, inp: EtaInputs) returns (etaMap: map<string, EtaEntry>)
    requires InRange(inp)
    ensures etaMap == FillEtas(stations, inp)
  {
    etaMap := map[];
    var i := 0;
    while i < |stations|
      invariant 0 <= i <= |stations|
      invariant etaMap == FillEtas(stations[..i], inp)
    {
      assert stations[..i + 1][..i] == stations[..i];
      var station := stations[i];
      var stationPercent := PercentFor(inp.percents, station.stopname);
      var stationEta := StationEta(stationPercent, inp.originPercent, inp.destPercent,
                                   inp.etaO as real, inp.etaD as real);
      etaMap := etaMap[station.stopname := EtaEntry(Round(MaxReal(0.0, stationEta)),
                                                    ArrivalTime(Round(stationEta), inp.nowMs, inp.fmt))];
      i := i + 1;
    }
    assert stations[..|stations|] == stations;
  }

  // ---------------------------------------------------------------- properties of the ETA map

  /** An origin no station is named after gives an empty map. */
  lemma OriginAbsentGivesEmpty(trainNumber: string, origin: string, destination: Option<string>,
                               stations: seq<Station>, originPreds: seq<TrainPrediction>,
                               destPreds: seq<TrainPrediction>, nowMs: int, fmt: int -> string,
                               dist: DistFn)
    requires NonNegativeDist(dist)
    requires forall i :: 0 <= i < |stations| ==> stations[i].stopname != origin
    ensures StationETAsOf(trainNumber, origin, destination, stations, originPreds, destPreds,
                          nowMs, fmt, dist) == map[]
  {
    StationPercentsKeys(stations, dist, origin);
  }

  /** Unless the guard rejects the origin, every station name gets an entry and
      nothing else does. The guard holds exactly when the origin's percent is 0
      and it is not the first station of the list as given. */
  lemma AcceptedOriginCoversAllStations(trainNumber: string, origin: string, destination: Option<string>,
                                        stations: seq<Station>, originPreds: seq<TrainPrediction>,
                                        destPreds: seq<TrainPrediction>, nowMs: int,
                                        fmt: int -> string, dist: DistFn)
    requires NonNegativeDist(dist)
    ensures var inp := InputsOf(trainNumber, origin, destination, stations, originPreds, destPreds, nowMs, fmt, dist);
      var m := StationETAsOf(trainNumber, origin, destination, stations, originPreds, destPreds, nowMs, fmt, dist);
      && (OriginRejected(origin, stations, inp) ==> m == map[])
      && (!OriginRejected(origin, stations, inp) ==>
            forall name :: name in m <==> exists i :: 0 <= i < |stations| && stations[i].stopname == name)
  {
    var inp := InputsOf(trainNumber, origin, destination, stations, originPreds, destPreds, nowMs, fmt, dist);
    FillEtasEntries(stations, inp);
  }

  /** Entries are whole non-negative minutes, at most the larger anchor ETA. */
  lemma EntriesBounded(trainNumber: string, origin: string, destination: Option<string>,
                       stations: seq<Station>, originPreds: seq<TrainPrediction>,
                       destPreds: seq<TrainPrediction>, nowMs: int, fmt: int -> string,
                       dist: DistFn, name: string)
    requires NonNegativeDist(dist)
    requires name in StationETAsOf(trainNumber, origin, destination, stations, originPreds, destPreds, nowMs, fmt, dist)
    ensures var inp := InputsOf(trainNumber, origin, destination, stations, originPreds, destPreds, nowMs, fmt, dist);
      var e := StationETAsOf(trainNumber, origin, destination, stations, originPreds, destPreds, nowMs, fmt, dist)[name];
      0 <= e.etaMinutes <= Max(inp.etaO, inp.etaD)
  {
    var inp := InputsOf(trainNumber, origin, destination, stations, originPreds, destPreds, nowMs, fmt, dist);
    var m := StationETAsOf(trainNumber, origin, destination, stations, originPreds, destPreds, nowMs, fmt, dist);
    assert m == EtasFrom(origin, stations, inp);
    EtasFromEntry(origin, stations, inp, name);
    EntryForBounded(inp, name, m[name]);
  }

  /** A station's entry: whole minutes in 0..max(anchors), and an arrival text
      that is the formatted time that many minutes from now (never "Loading...",
      since the interpolated ETA is never negative). */
  lemma EntryForBounded(inp: EtaInputs, name: string, e: EtaEntry)
    requires InRange(inp)
    requires e == EntryFor(inp, name)
    ensures 0 <= e.etaMinutes <= Max(inp.etaO, inp.etaD)
    ensures e.arrivalTime == inp.fmt(inp.nowMs + e.etaMinutes * 60000)
  {
    var sp := PercentFor(inp.percents, name);
    StationEtaBounds(sp, inp.originPercent, inp.destPercent, inp.etaO as real, inp.etaD as real);
    var eta := StationEta(sp, inp.originPercent, inp.destPercent, inp.etaO as real, inp.etaD as real);
    RoundBetween(eta, 0, Max(inp.etaO, inp.etaD));
  }

  /** The origin's entry is exactly the origin's ETA, except that it is 0 at
      percent 0 on increasing travel or percent 100 on decreasing travel. */
  lemma OriginEntry(trainNumber: string, origin: string, destination: Option<string>,
                    stations: seq<Station>, originPreds: seq<TrainPrediction>,
                    destPreds: seq<TrainPrediction>, nowMs: int, fmt: int -> string,
                    dist: DistFn)
    requires NonNegativeDist(dist)
    requires origin in StationETAsOf(trainNumber, origin, destination, stations, originPreds, destPreds, nowMs, fmt, dist)
    ensures var inp := InputsOf(trainNumber, origin, destination, stations, originPreds, destPreds, nowMs, fmt, dist);
      var e := StationETAsOf(trainNumber, origin, destination, stations, originPreds, destPreds, nowMs, fmt, dist)[origin];
      var atEnd := (inp.destPercent > inp.originPercent && inp.originPercent == 0.0)
                || (inp.destPercent <= inp.originPercent && inp.originPercent == 100.0);
      e.etaMinutes == (if atEnd then 0 else inp.etaO)
  {
    var inp := InputsOf(trainNumber, origin, destination, stations, originPreds, destPreds, nowMs, fmt, dist);
    FillEtasEntries(stations, inp);
    var i :| 0 <= i < |stations| && stations[i].stopname == origin;
    StationPercentsKeys(stations, dist, origin);
    StationEtaAtOrigin(inp.originPercent, inp.destPercent, inp.etaO as real, inp.etaD as real);
  }

  /** A given destination on the route, at a percent other than the origin's,
      gets exactly the destination's ETA. */
  lemma DestinationEntry(trainNumber: string, origin: string, destination: Option<string>,
                         stations: seq<Station>, originPreds: seq<TrainPrediction>,
                         destPreds: seq<TrainPrediction>, nowMs: int, fmt: int -> string,
                         dist: DistFn)
    requires NonNegativeDist(dist)
    requires destination.Some?
    requires destination.value in StationETAsOf(trainNumber, origin, destination, stations, originPreds, destPreds, nowMs, fmt, dist)
    requires var inp := InputsOf(trainNumber, origin, destination, stations, originPreds, destPreds, nowMs, fmt, dist);
      inp.destPercent != inp.originPercent
    ensures var inp := InputsOf(trainNumber, origin, destination, stations, originPreds, destPreds, nowMs, fmt, dist);
      StationETAsOf(trainNumber, origin, destination, stations, originPreds, destPreds, nowMs, fmt, dist)[destination.value].etaMinutes
        == inp.etaD
  {
    var inp := InputsOf(trainNumber, origin, destination, stations, originPreds, destPreds, nowMs, fmt, dist);
    var d := destination.value;
    FillEtasEntries(stations, inp);
    StationPercentsKeys(stations, dist, d);
    StationEtaAtDestination(inp.originPercent, inp.destPercent, inp.etaO as real, inp.etaD as real);
  }

  /** Without a destination both anchors are the origin's ETA and the
      destination sits at 100. */
  lemma NoDestinationDefaults(trainNumber: string, origin: string,
                              stations: seq<Station>, originPreds: seq<TrainPrediction>,
                              destPreds: seq<TrainPrediction>, nowMs: int, fmt: int -> string,
                              dist: DistFn)
    requires NonNegativeDist(dist)
    requires forall i :: 0 <= i < |stations| ==> stations[i].stopname != ""
    ensures var inp := InputsOf(trainNumber, origin, None, stations, originPreds, destPreds, nowMs, fmt, dist);
      inp.etaD == inp.etaO && inp.destPercent == 100.0
  {
    StationPercentsKeys(stations, dist, "");
  }
}
