/** components/prototypes/AnimatedProgressView.tsx: progress from the
    nearest station, the inclusive passed test, the ETA fallbacks, the
    per-station ETA lookup and the visible / hidden station sets. Indices are
    positions on the normalised route. */
module ProgressView {
  import opened Wrappers
  import opened Types
  import opened Builtins
  import opened Geometry
  import EtaCalculations
  import HorizontalView

  /** `getRealTimeETA` of this view: a listed train gives its first digit run
      clamped at 0; otherwise the selected train's own ETA text is read. */
  function RealTimeETAOr(trainNumber: string, preds: seq<TrainPrediction>, ownEta: string): int {
    match FindTrain(preds, trainNumber)
    case None => HorizontalView.MatchedMinutes(ownEta)
    case Some(i) => Max(0, HorizontalView.MatchedMinutes(preds[i].eta))
  }

  /** The same reading as the library's, with the train's own ETA as the
      fallback; never negative. */
  lemma RealTimeETAOrProperties(trainNumber: string, preds: seq<TrainPrediction>, ownEta: string)
    ensures FindTrain(preds, trainNumber).Some? ==>
              RealTimeETAOr(trainNumber, preds, ownEta) == EtaCalculations.TrainETAFromPredictions(trainNumber, preds)
    ensures FindTrain(preds, trainNumber).None? ==>
              RealTimeETAOr(trainNumber, preds, ownEta) == EtaCalculations.ExtractETAMinutes(ownEta)
    ensures RealTimeETAOr(trainNumber, preds, ownEta) >= 0
  {
    HorizontalView.MatchedMinutesIsExtract(ownEta);
    match FindTrain(preds, trainNumber)
    case None =>
    case Some(i) => HorizontalView.MatchedMinutesIsExtract(preds[i].eta);
  }

  /** `getIsPassed`, inclusive: SB passed at or below the progress, NB at or
      above it (progress is a fraction, percents are 0-100). */
  predicate IsPassedInclusive(dir: Direction, stationPercent: real, progress: real) {
    if dir == SB then stationPercent / 100.0 <= progress else stationPercent / 100.0 >= progress
  }

  /** On a valid route the stations passed southbound are a prefix of the
      route and those passed northbound a suffix. */
  lemma PassedInclusiveOrdered(route: seq<RouteStation>, dir: Direction, progress: real, i: nat, j: nat)
    requires ValidRoute(route) && i <= j < |route|
    ensures dir == SB && IsPassedInclusive(dir, route[j].percent, progress) ==> IsPassedInclusive(dir, route[i].percent, progress)
    ensures dir == NB && IsPassedInclusive(dir, route[i].percent, progress) ==> IsPassedInclusive(dir, route[j].percent, progress)
  {
    assert route[i].percent <= route[j].percent;
    DivMonotone(route[i].percent, route[j].percent, 100.0);
  }

  /** `trainReachedOrigin` of this view: progress and origin on the same
      0-1 scale. */
  predicate ProgressReachedOrigin(route: seq<RouteStation>, origin: string, progress: real) {
    HorizontalView.OriginPercentOn(route, origin).Some?
    && progress >= HorizontalView.OriginPercentOn(route, origin).value / 100.0
  }

  /** The corrected horizontal-view test is this view's test at progress
      percent / 100. */
  lemma ReachedOriginAgrees(route: seq<RouteStation>, origin: string, tp: real)
    ensures HorizontalView.ReachedOrigin(route, origin, Some(tp)) == ProgressReachedOrigin(route, origin, tp / 100.0)
  {
  }

  /** `originStation?.percent ?? 0`. */
  function OriginPercent(route: seq<RouteStation>, origin: string): real {
    HorizontalView.OriginPercentOn(route, origin).GetOr(0.0)
  }

  /** `destStation?.percent ?? 100`; a null destination names no station. */
  function DestPercent(route: seq<RouteStation>, destination: Option<string>): real {
    if destination.None? then 100.0 else HorizontalView.OriginPercentOn(route, destination.value).GetOr(100.0)
  }

  /** `calculatedEtaToDestination`: a zero destination ETA is replaced by the
      origin ETA scaled by destPercent / originPercent when both are positive. */
  function DestinationEta(etaO: int, etaD: int, originPercent: real, destPercent: real): int {
    if etaD == 0 && originPercent > 0.0 && destPercent > 0.0
    then Round(etaO as real * (destPercent / originPercent))
    else etaD
  }

  /** A non-zero destination ETA is kept; the fallback is never negative,
      gives the origin ETA back when the two percents agree, and is at least
      the origin ETA when the destination lies beyond the origin. */
  lemma DestinationEtaProperties(etaO: nat, etaD: int, o: real, d: real)
    ensures etaD != 0 ==> DestinationEta(etaO, etaD, o, d) == etaD
    ensures etaD == 0 && o > 0.0 && d > 0.0 ==> DestinationEta(etaO, etaD, o, d) >= 0
    ensures etaD == 0 && o > 0.0 && d == o ==> DestinationEta(etaO, etaD, o, d) == etaO
    ensures etaD == 0 && o > 0.0 && d >= o ==> DestinationEta(etaO, etaD, o, d) >= etaO
    ensures etaD == 0 && (o <= 0.0 || d <= 0.0) ==> DestinationEta(etaO, etaD, o, d) == 0
  {
    if etaD == 0 && o > 0.0 && d > 0.0 {
      var q := d / o;
      assert q > 0.0;
      var x := etaO as real * q;
      assert x >= 0.0;
      if d >= o {
        DivMonotone(o, d, o);
        assert o / o == 1.0;
        assert q >= 1.0;
        assert x - etaO as real == etaO as real * (q - 1.0);
        assert x >= etaO as real;
      }
      if d == o {
        assert q == 1.0;
      }
    }
  }

  /** `getStationETA`'s result. */
  datatype StationEta = StationEta(relativeMinutes: int, arrivalTime: string)

  /** The map entry when there is one, else -1 / "Loading..." while loading,
      else 0 / "--:--". */
  function GetStationETA(etaMap: Option<map<string, EtaCalculations.EtaEntry>>, name: string, loading: bool): StationEta {
    if etaMap.Some? && name in etaMap.value then
      StationEta(etaMap.value[name].etaMinutes, etaMap.value[name].arrivalTime)
    else if loading then StationEta(-1, "Loading...")
    else StationEta(0, "--:--")
  }

  /** With a map from `calculateStationETAs` (non-negative minutes) the
      minutes shown are -1 exactly for a station missing while loading, and
      otherwise never negative. */
  lemma StationEtaMinutes(etaMap: Option<map<string, EtaCalculations.EtaEntry>>, name: string, loading: bool)
    requires etaMap.Some? ==> forall k :: k in etaMap.value ==> etaMap.value[k].etaMinutes >= 0
    ensures GetStationETA(etaMap, name, loading).relativeMinutes == -1
            <==> loading && (etaMap.None? || name !in etaMap.value)
    ensures GetStationETA(etaMap, name, loading).relativeMinutes >= -1
  {
  }

  // ---------------------------------------------------------------- visible and hidden stations

  predicate Between(lo: int, i: int, hi: int) { lo <= i < hi }

  /** The indices lo, lo + 1, ..., hi - 1. */
  function Interval(lo: int, hi: int): set<nat> {
    set i: nat | i < hi && Between(lo, i, hi)
  }

  /** The origin, up to 2 stations on each side, and the destination. */
  function VisibleSet(n: nat, o: nat, d: Option<nat>): set<nat> {
    {o} + Interval(Max(0, o - 2), o) + Interval(o + 1, MinInt(n - 1, o + 2) + 1)
    + (if d.Some? then {d.value} else {})
  }

  /** `normalizedStations.slice(0, originIdx - 2)` when originIdx > 2. */
  function HiddenBefore(o: Option<nat>): set<nat> {
    if o.None? || o.value <= 2 then {} else Interval(0, o.value - 2)
  }

  /** `normalizedStations.slice(originIdx + 3, destIdx)` when destIdx > originIdx + 2. */
  function HiddenAfter(o: Option<nat>, d: Option<nat>): set<nat> {
    if o.None? || d.None? || d.value <= o.value + 2 then {} else Interval(o.value + 3, d.value)
  }

  /** `getVisibleStations`: the indices of the stations drawn, ascending. */
  method VisibleIndices(n: nat, originIdx: Option<nat>, destIdx: Option<nat>) returns (idx: seq<nat>)
    requires originIdx.Some? ==> originIdx.value < n
    requires destIdx.Some? ==> destIdx.value < n
    ensures originIdx.None? ==> |idx| == n && forall k :: 0 <= k < n ==> idx[k] == k
    ensures originIdx.Some? ==>
              && (forall a, b :: 0 <= a < b < |idx| ==> idx[a] < idx[b])
              && (forall i :: i in idx <==> i in VisibleSet(n, originIdx.value, destIdx))
  {
    if originIdx.None? {
      idx := AllIndices(n);
      return;
    }
    var o := originIdx.value;
    var visibleIndices: set<nat> := {o};
    var i := Max(0, o - 2);
    while i < o
      invariant Max(0, o - 2) <= i <= o
      invariant visibleIndices == {o} + Interval(Max(0, o - 2), i)
    {
      IntervalStep(Max(0, o - 2), i);
      visibleIndices := visibleIndices + {i};
      i := i + 1;
    }
    i := o + 1;
    while i <= MinInt(n - 1, o + 2)
      invariant o + 1 <= i <= Max(o + 1, MinInt(n - 1, o + 2) + 1)
      invariant visibleIndices == {o} + Interval(Max(0, o - 2), o) + Interval(o + 1, i)
    {
      IntervalStep(o + 1, i);
      visibleIndices := visibleIndices + {i};
      i := i + 1;
    }
    if destIdx.Some? {
      visibleIndices := visibleIndices + {destIdx.value};
    }
    assert visibleIndices == VisibleSet(n, o, destIdx);
    VisibleSetBelow(n, o, destIdx);
    idx := SortedMembers(visibleIndices, n);
  }

  /** `normalizedStations` unfiltered: the indices 0, 1, ..., n - 1. */
  function AllIndices(n: nat): (idx: seq<nat>)
    ensures |idx| == n && forall k :: 0 <= k < n ==> idx[k] == k
  {
    seq(n, k requires 0 <= k < n => k as nat)
  }

  lemma IntervalStep(lo: int, i: nat)
    requires lo <= i
    ensures Interval(lo, i) + {i} == Interval(lo, i + 1)
  {
    assert forall j: nat :: j in Interval(lo, i + 1) <==> j in Interval(lo, i) || j == i;
  }

  /** Every visible index is on the route. */
  lemma VisibleSetBelow(n: nat, o: nat, d: Option<nat>)
    requires o < n && (d.Some? ==> d.value < n)
    ensures forall i :: i in VisibleSet(n, o, d) ==> i < n
  {
  }

  /** `getVisibleStations` by station names: the stations at the indices
      above, the destination's index coming from its name on the route. */
  method VisibleStations(route: seq<RouteStation>, origin: string, destination: Option<string>)
    returns (idx: seq<nat>, shown: seq<RouteStation>)
    ensures FindOnRoute(route, origin).None? ==> shown == route
    ensures FindOnRoute(route, origin).Some? ==>
              var d := if destination.Some? then FindOnRoute(route, destination.value) else None;
              && |shown| == |idx|
              && (forall k :: 0 <= k < |idx| ==> idx[k] < |route| && shown[k] == route[idx[k]])
              && (forall a, b :: 0 <= a < b < |idx| ==> idx[a] < idx[b])
              && (forall i :: i in idx <==> i in VisibleSet(|route|, FindOnRoute(route, origin).value, d))
  {
    var originIdx := FindOnRoute(route, origin);
    if originIdx.None? {
      idx := [];
      shown := route;
      return;
    }
    var destIdx := if destination.Some? then FindOnRoute(route, destination.value) else None;
    idx := VisibleIndices(|route|, originIdx, destIdx);
    assert forall k :: 0 <= k < |idx| ==> idx[k] in VisibleSet(|route|, originIdx.value, destIdx);
    shown := StationsAt(route, idx);
  }

  /** `indices.map(i => route[i])`. */
  method StationsAt(route: seq<RouteStation>, idx: seq<nat>) returns (shown: seq<RouteStation>)
    requires forall k :: 0 <= k < |idx| ==> idx[k] < |route|
    ensures |shown| == |idx|
    ensures forall k :: 0 <= k < |idx| ==> shown[k] == route[idx[k]]
  {
    shown := [];
    var k := 0;
    while k < |idx|
      invariant 0 <= k <= |idx| && |shown| == k
      invariant forall m :: 0 <= m < k ==> shown[m] == route[idx[m]]
    {
      shown := shown + [route[idx[k]]];
      k := k + 1;
    }
  }

  /** `Array.from(set).sort((a, b) => a - b)` for a set of indices below n. */
  method SortedMembers(s: set<nat>, n: nat) returns (idx: seq<nat>)
    requires forall i :: i in s ==> i < n
    ensures forall a, b :: 0 <= a < b < |idx| ==> idx[a] < idx[b]
    ensures forall i :: i in idx <==> i in s
  {
    idx := [];
    var k := 0;
    while k < n
      invariant 0 <= k <= n
      invariant forall a, b :: 0 <= a < b < |idx| ==> idx[a] < idx[b]
      invariant forall a :: 0 <= a < |idx| ==> idx[a] < k
      invariant forall i :: i in idx <==> i in s && i < k
    {
      if k in s {
        idx := idx + [k];
      }
      k := k + 1;
    }
  }

  /** With the destination at or after the origin, the three sets do not
      overlap, and together they cover every station up to the later of the
      destination and the last one shown after the origin. */
  lemma HiddenAndVisibleDisjoint(n: nat, o: nat, d: Option<nat>)
    requires o < n && (d.Some? ==> o <= d.value < n)
    ensures VisibleSet(n, o, d) * HiddenBefore(Some(o)) == {}
    ensures VisibleSet(n, o, d) * HiddenAfter(Some(o), d) == {}
    ensures HiddenBefore(Some(o)) * HiddenAfter(Some(o), d) == {}
    ensures forall i: nat :: i <= MinInt(n - 1, o + 2) || (d.Some? && i <= d.value) ==>
              i in VisibleSet(n, o, d) || i in HiddenBefore(Some(o)) || i in HiddenAfter(Some(o), d)
  {
    forall i: nat | i <= MinInt(n - 1, o + 2) || (d.Some? && i <= d.value)
      ensures i in VisibleSet(n, o, d) || i in HiddenBefore(Some(o)) || i in HiddenAfter(Some(o), d)
    {
      if i < Max(0, o - 2) {
        assert i in HiddenBefore(Some(o));
      } else if i < o {
        assert i in Interval(Max(0, o - 2), o);
      } else if i == o {
      } else if i <= MinInt(n - 1, o + 2) {
        assert i in Interval(o + 1, MinInt(n - 1, o + 2) + 1);
      } else if i == d.value {
      } else {
        assert i in HiddenAfter(Some(o), d);
      }
    }
  }
}
