/** The record shapes of lib/types.ts that the core computes with. */
module Types {
  import opened Wrappers

  datatype Direction = NB | SB

  datatype TrainType = Local | Limited | Bullet

  datatype DelayStatus = OnTime | Early | Delayed

  /** `delayMinutes`: a whole number of minutes, or NaN when the scheduled
      clock text did not parse into numbers. */
  datatype DelayMinutes = Minutes(n: int) | NotANumber

  datatype Delay = Delay(minutes: DelayMinutes, status: DelayStatus)

  /** A station of lib/stations.json: the odd (northbound) and even
      (southbound) platform stop ids, names and the northbound coordinates. */
  datatype Station = Station(stop1: string, stop2: string, stopname: string,
                             urlname: string, lat: real, lon: real)

  /** One board row as the predictions endpoint returns it. `timestamp` is in
      epoch milliseconds; `scheduledTime` and `delay` may be absent. */
  datatype TrainPrediction = TrainPrediction(
    trainNumber: string,
    trainType: TrainType,
    eta: string,
    departure: string,
    routeId: string,
    stopId: string,
    direction: Direction,
    timestamp: int,
    stopIds: seq<string>,
    scheduledTime: Option<string>,
    delay: Option<Delay>)

  /** `predictions.find(p => p.TrainNumber === number)`, as an index. */
  function FindTrain(preds: seq<TrainPrediction>, number: string): (r: Option<nat>)
    ensures r.Some? ==> r.value < |preds| && preds[r.value].trainNumber == number
    ensures r.Some? ==> forall j :: 0 <= j < r.value ==> preds[j].trainNumber != number
    ensures r.None? ==> forall j :: 0 <= j < |preds| ==> preds[j].trainNumber != number
  {
    if preds == [] then None
    else if preds[0].trainNumber == number then Some(0)
    else match FindTrain(preds[1..], number)
      case None => None
      case Some(k) => Some(k + 1)
  }

  /** The index found is the one before which the number does not occur. */
  lemma FindTrainFirst(preds: seq<TrainPrediction>, number: string, i: nat)
    requires i < |preds| && preds[i].trainNumber == number
    requires forall j :: 0 <= j < i ==> preds[j].trainNumber != number
    ensures FindTrain(preds, number) == Some(i)
  {
  }

  /** `stations.find(s => s.stopname === name)`, as an index. */
  function FindStationByName(stations: seq<Station>, name: string): (r: Option<nat>)
    ensures r.Some? ==> r.value < |stations| && stations[r.value].stopname == name
    ensures r.Some? ==> forall j :: 0 <= j < r.value ==> stations[j].stopname != name
    ensures r.None? ==> forall j :: 0 <= j < |stations| ==> stations[j].stopname != name
  {
    if stations == [] then None
    else if stations[0].stopname == name then Some(0)
    else match FindStationByName(stations[1..], name)
      case None => None
      case Some(k) => Some(k + 1)
  }

  /** JavaScript truthiness of an optional string: present and not empty. */
  predicate Truthy(s: Option<string>) {
    s.Some? && s.value != ""
  }
}
