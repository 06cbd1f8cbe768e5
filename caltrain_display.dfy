/** components/CaltrainDisplay.tsx: the travel direction implied by the
    chosen origin and destination, the predictions kept for it, the
    northbound / southbound split and the rule that keeps a train selected. */
module Display {
  import opened Wrappers
  import opened Types
  import opened Builtins

  /** A destination filter is in force: not empty and not "All". */
  predicate HasDestination(destination: string) {
    destination != "" && destination != "All"
  }

  /** `journeyDirection`: set only with a destination filter and both
      stations found, and then SB exactly when both platform ids parse and
      the origin's is lower (a NaN comparison is false, giving NB). */
  function JourneyDirection(stations: seq<Station>, origin: string, destination: string): (r: Option<Direction>)
    ensures r.Some? <==>
              HasDestination(destination)
              && FindStationByName(stations, origin).Some? && FindStationByName(stations, destination).Some?
    ensures r == Some(SB) <==>
              && HasDestination(destination)
              && FindStationByName(stations, origin).Some? && FindStationByName(stations, destination).Some?
              && var o := ParseInt(stations[FindStationByName(stations, origin).value].stop1);
                 var d := ParseInt(stations[FindStationByName(stations, destination).value].stop1);
                 o.Some? && d.Some? && o.value < d.value
  {
    if !HasDestination(destination) then None
    else match (FindStationByName(stations, origin), FindStationByName(stations, destination))
      case (Some(oi), Some(di)) =>
        var originId := ParseInt(stations[oi].stop1);
        var destId := ParseInt(stations[di].stop1);
        if originId.Some? && destId.Some? && originId.value < destId.value then Some(SB) else Some(NB)
      case _ => None
  }

  /** The `filter` callback of `filteredPredictions`, as written. */
  predicate Keep(p: TrainPrediction, stations: seq<Station>, origin: string, destination: string) {
    if !HasDestination(destination) then true
    else if FindStationByName(stations, origin).None? || FindStationByName(stations, destination).None? then true
    else
      var jd := JourneyDirection(stations, origin, destination);
      !(jd.Some? && p.direction != jd.value)
  }

  /** `predictions.filter(Keep)`. */
  function FilteredPredictions(preds: seq<TrainPrediction>, stations: seq<Station>, origin: string, destination: string): seq<TrainPrediction> {
    if preds == [] then []
    else (if Keep(preds[0], stations, origin, destination) then [preds[0]] else [])
         + FilteredPredictions(preds[1..], stations, origin, destination)
  }

  /** The predictions travelling in direction d, in their order. */
  function OnlyDirection(preds: seq<TrainPrediction>, d: Direction): seq<TrainPrediction> {
    if preds == [] then []
    else (if preds[0].direction == d then [preds[0]] else []) + OnlyDirection(preds[1..], d)
  }

  /** Selecting from a concatenation concatenates the selections, so the
      order of the predictions is kept. */
  lemma {:induction false} OnlyDirectionConcat(a: seq<TrainPrediction>, b: seq<TrainPrediction>, d: Direction)
    ensures OnlyDirection(a + b, d) == OnlyDirection(a, d) + OnlyDirection(b, d)
  {
    if a == [] {
      assert a + b == b;
    } else {
      var head := if a[0].direction == d then [a[0]] else [];
      assert a + b != [] && (a + b)[0] == a[0] && (a + b)[1..] == a[1..] + b;
      calc {
        OnlyDirection(a + b, d);
        head + OnlyDirection(a[1..] + b, d);
        { OnlyDirectionConcat(a[1..], b, d); }
        head + (OnlyDirection(a[1..], d) + OnlyDirection(b, d));
        (head + OnlyDirection(a[1..], d)) + OnlyDirection(b, d);
      }
    }
  }

  /** Exactly the predictions travelling in d, none more often than in the
      input. */
  lemma {:induction false} OnlyDirectionMembers(a: seq<TrainPrediction>, d: Direction)
    ensures forall p :: p in OnlyDirection(a, d) <==> p in a && p.direction == d
    ensures multiset(OnlyDirection(a, d)) <= multiset(a)
  {
    if a != [] {
      OnlyDirectionMembers(a[1..], d);
      assert a == [a[0]] + a[1..];
    }
  }

  /** With no direction in force every prediction is kept as it is;
      otherwise just those travelling in the journey's direction. */
  lemma {:induction false} FilteredIsDirection(preds: seq<TrainPrediction>, stations: seq<Station>, origin: string, destination: string)
    ensures JourneyDirection(stations, origin, destination).None? ==>
              FilteredPredictions(preds, stations, origin, destination) == preds
    ensures JourneyDirection(stations, origin, destination).Some? ==>
              FilteredPredictions(preds, stations, origin, destination)
              == OnlyDirection(preds, JourneyDirection(stations, origin, destination).value)
  {
    if preds != [] {
      FilteredIsDirection(preds[1..], stations, origin, destination);
      assert preds == [preds[0]] + preds[1..];
    }
  }

  /** `nbPredictions` and `sbPredictions` split the filtered list: together
      they hold each of its predictions exactly once. */
  lemma DirectionSplit(f: seq<TrainPrediction>)
    ensures multiset(OnlyDirection(f, NB)) + multiset(OnlyDirection(f, SB)) == multiset(f)
    ensures forall p :: p in OnlyDirection(f, NB) ==> p !in OnlyDirection(f, SB)
  {
    SplitCounts(f);
    OnlyDirectionMembers(f, NB);
    OnlyDirectionMembers(f, SB);
  }

  lemma {:induction false} SplitCounts(f: seq<TrainPrediction>)
    ensures multiset(OnlyDirection(f, NB)) + multiset(OnlyDirection(f, SB)) == multiset(f)
  {
    if f != [] {
      SplitCounts(f[1..]);
      assert f == [f[0]] + f[1..];
    }
  }

  // ---------------------------------------------------------------- selection

  /** The selection after the auto-select effect runs on `filtered`. */
  function AutoSelected(selected: Option<TrainPrediction>, filtered: seq<TrainPrediction>): Option<TrainPrediction> {
    if selected.None? then (if |filtered| > 0 then Some(filtered[0]) else None)
    else if FindTrain(filtered, selected.value.trainNumber).Some? then selected
    else if |filtered| > 0 then Some(filtered[0])
    else None
  }

  /** A train stays selected while its number is listed; otherwise the first
      listed train is chosen. Nothing is selected exactly when nothing is
      listed, whatever is selected is listed by number, and running the
      effect again changes nothing. */
  lemma AutoSelectProperties(selected: Option<TrainPrediction>, filtered: seq<TrainPrediction>)
    ensures AutoSelected(selected, filtered).None? <==> |filtered| == 0
    ensures AutoSelected(selected, filtered).Some? ==>
              exists k :: 0 <= k < |filtered| && filtered[k].trainNumber == AutoSelected(selected, filtered).value.trainNumber
    ensures selected.Some? && (exists k :: 0 <= k < |filtered| && filtered[k].trainNumber == selected.value.trainNumber) ==>
              AutoSelected(selected, filtered) == selected
    ensures AutoSelected(AutoSelected(selected, filtered), filtered) == AutoSelected(selected, filtered)
  {
    var r := AutoSelected(selected, filtered);
    if r.Some? && r != selected {
      assert filtered[0].trainNumber == r.value.trainNumber;
    }
    if r.Some? {
      assert FindTrain(filtered, r.value.trainNumber).Some?;
    }
  }

  /** The component's selection state. */
  class Selection {
    var selectedTrain: Option<TrainPrediction>

    constructor ()
      ensures selectedTrain == None
    {
      selectedTrain := None;
    }

    /** The auto-select effect: both checks read the selection the effect
        started with. */
    method AutoSelect(filtered: seq<TrainPrediction>)
      modifies this
      ensures selectedTrain == AutoSelected(old(selectedTrain), filtered)
    {
      var current := selectedTrain;
      if |filtered| > 0 && current.None? {
        selectedTrain := Some(filtered[0]);
      }
      if current.Some? && FindTrain(filtered, current.value.trainNumber).None? {
        selectedTrain := if |filtered| > 0 then Some(filtered[0]) else None;
      }
    }
  }
}
