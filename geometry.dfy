/** Route geometry: stations sorted by their northbound stop id and placed on a
    0-100 line by cumulative great-circle distance (lib/etaCalculations.ts and
    the station normalisation repeated in every view). The haversine distance
    is kept abstract: `dist` is any function, assumed only to be non-negative. */
module Geometry {
  import opened Wrappers
  import opened Types
  import opened Sorting
  import Builtins

  datatype Point = Point(lat: real, lon: real)

  /** The haversine `getDistance`, abstracted. */
  type DistFn = (Point, Point) -> real

  ghost predicate NonNegativeDist(dist: DistFn) {
    forall p, q :: dist(p, q) >= 0.0
  }

  function Pos(s: Station): Point {
    Point(s.lat, s.lon)
  }

  /** The sort key `parseInt(stop1)`; an id whose parseInt is NaN is keyed as 0. */
  function Stop1Key(s: Station): int {
    Builtins.ParseInt(s.stop1).GetOr(0)
  }

  /** `[...stations].sort((a, b) => parseInt(a.stop1) - parseInt(b.stop1))`:
      stations sharing a stop1 key keep their input order. */
  function SortedStations(stations: seq<Station>): (r: seq<Station>)
    ensures SortedBy(r, Stop1Key) && multiset(r) == multiset(stations) && |r| == |stations|
    ensures forall k :: WithKey(r, Stop1Key, k) == WithKey(stations, Stop1Key, k)
  {
    SortBy(stations, Stop1Key)
  }

  /** A station with its normalised position on the route. */
  datatype RouteStation = RouteStation(station: Station, percent: real)

  /** Distance along the route from the first station to station i. */
  function CumDist(st: seq<Station>, dist: DistFn, i: nat): real
    requires i < |st|
  {
    if i == 0 then 0.0 else CumDist(st, dist, i - 1) + dist(Pos(st[i - 1]), Pos(st[i]))
  }

  function TotalDist(st: seq<Station>, dist: DistFn): real {
    if st == [] then 0.0 else CumDist(st, dist, |st| - 1)
  }

  /** `totalDist > 0 ? (dist / totalDist) * 100 : 0`. */
  function PercentOf(st: seq<Station>, dist: DistFn, i: nat): real
    requires i < |st|
  {
    Scale(CumDist(st, dist, i), TotalDist(st, dist))
  }

  /** `total > 0 ? (d / total) * 100 : 0`. */
  function Scale(d: real, total: real): real {
    if total > 0.0 then (d / total) * 100.0 else 0.0
  }

  lemma DivMonotone(a: real, b: real, t: real)
    requires a <= b && t > 0.0
    ensures a / t <= b / t
  {
    var qa, qb := a / t, b / t;
    assert (qb - qa) * t == b - a;
  }

  lemma ScaleBounds(a: real, b: real, t: real)
    requires 0.0 <= a <= b <= t
    ensures 0.0 <= Scale(a, t) <= Scale(b, t) <= 100.0
  {
    if t > 0.0 {
      DivMonotone(0.0, a, t);
      DivMonotone(a, b, t);
      DivMonotone(b, t, t);
    }
  }

  lemma ScaleTotal(t: real)
    requires t > 0.0
    ensures Scale(t, t) == 100.0
  {
  }

  /** The stations, in the given order, each with its position percent. */
  function RouteOf(st: seq<Station>, dist: DistFn): (route: seq<RouteStation>)
    ensures |route| == |st|
    ensures forall i :: 0 <= i < |st| ==> route[i] == RouteStation(st[i], PercentOf(st, dist, i))
  {
    seq(|st|, i requires 0 <= i < |st| => RouteStation(st[i], PercentOf(st, dist, i)))
  }

  /** `normalizedStations.findIndex(s => s.stopname === name)`, with -1
      written as None (`find` on the same predicate gives the same station). */
  function FindOnRoute(route: seq<RouteStation>, name: string): (r: Option<nat>)
    ensures r.Some? ==> r.value < |route| && route[r.value].station.stopname == name
    ensures r.Some? ==> forall j :: 0 <= j < r.value ==> route[j].station.stopname != name
    ensures r.None? ==> forall j :: 0 <= j < |route| ==> route[j].station.stopname != name
  {
    if route == [] then None
    else if route[0].station.stopname == name then Some(0)
    else match FindOnRoute(route[1..], name)
      case None => None
      case Some(k) => Some(k + 1)
  }

  /** Positions never decrease along the route and stay within 0..100. */
  ghost predicate ValidRoute(route: seq<RouteStation>) {
    && (forall i, j :: 0 <= i <= j < |route| ==> route[i].percent <= route[j].percent)
    && (forall i :: 0 <= i < |route| ==> 0.0 <= route[i].percent <= 100.0)
  }

  /** The station normalisation: sort, accumulate `totalDist` station by
      station, then divide every cumulative distance by the total. */
  method NormalizeStations(stations: seq<Station>, dist: DistFn) returns (route: seq<RouteStation>)
    ensures route == RouteOf(SortedStations(stations), dist)
  {
    var st := SortedStations(stations);
    var dists, totalDist := CumulativeDistances(st, dist);
    route := PlaceStations(st, dist, dists, totalDist);
  }

  /** The `stationPositions.map` that divides by the total. */
  method PlaceStations(st: seq<Station>, dist: DistFn, dists: seq<real>, totalDist: real) returns (route: seq<RouteStation>)
    requires |dists| == |st|
    requires forall k :: 0 <= k < |st| ==> dists[k] == CumDist(st, dist, k)
    requires totalDist == TotalDist(st, dist)
    ensures route == RouteOf(st, dist)
  {
    route := [];
    var i := 0;
    while i < |st|
      invariant 0 <= i <= |st|
      invariant |route| == i
      invariant forall k :: 0 <= k < i ==> route[k] == RouteStation(st[k], PercentOf(st, dist, k))
    {
      assert Scale(dists[i], totalDist) == PercentOf(st, dist, i);
      route := route + [RouteStation(st[i], Scale(dists[i], totalDist))];
      i := i + 1;
    }
    RouteOfEq(route, st, dist);
  }

  lemma RouteOfEq(route: seq<RouteStation>, st: seq<Station>, dist: DistFn)
    requires |route| == |st|
    requires forall k :: 0 <= k < |st| ==> route[k] == RouteStation(st[k], PercentOf(st, dist, k))
    ensures route == RouteOf(st, dist)
  {
  }

  /** The `sortedStations.map` callback that grows `totalDist` as it goes. */
  method CumulativeDistances(st: seq<Station>, dist: DistFn) returns (dists: seq<real>, totalDist: real)
    ensures |dists| == |st|
    ensures forall k :: 0 <= k < |st| ==> dists[k] == CumDist(st, dist, k)
    ensures totalDist == TotalDist(st, dist)
  {
    totalDist := 0.0;
    dists := [];
    var i := 0;
    while i < |st|
      invariant 0 <= i <= |st|
      invariant |dists| == i
      invariant forall k :: 0 <= k < i ==> dists[k] == CumDist(st, dist, k)
      invariant i == 0 ==> totalDist == 0.0
      invariant i > 0 ==> totalDist == CumDist(st, dist, i - 1)
    {
      if i > 0 {
        totalDist := totalDist + dist(Pos(st[i - 1]), Pos(st[i]));
      }
      assert totalDist == CumDist(st, dist, i);
      ghost var before := dists;
      dists := dists + [totalDist];
      assert forall k :: 0 <= k < i ==> dists[k] == before[k];
      i := i + 1;
    }
    assert st != [] ==> totalDist == CumDist(st, dist, |st| - 1);
  }

  lemma {:induction false} CumDistMonotone(st: seq<Station>, dist: DistFn, i: nat, j: nat)
    requires NonNegativeDist(dist)
    requires i <= j < |st|
    ensures 0.0 <= CumDist(st, dist, i) <= CumDist(st, dist, j)
    decreases j
  {
    if i < j {
      CumDistMonotone(st, dist, i, j - 1);
      assert dist(Pos(st[j - 1]), Pos(st[j])) >= 0.0;
    } else if i > 0 {
      CumDistMonotone(st, dist, 0, i - 1);
      assert dist(Pos(st[i - 1]), Pos(st[i])) >= 0.0;
    }
  }

  /** With non-negative distances, positions are non-decreasing in sort order
      and lie within 0..100. */
  lemma RouteOfValid(st: seq<Station>, dist: DistFn)
    requires NonNegativeDist(dist)
    ensures ValidRoute(RouteOf(st, dist))
  {
    var route := RouteOf(st, dist);
    forall i, j | 0 <= i <= j < |route|
      ensures route[i].percent <= route[j].percent
    {
      PercentsOrdered(st, dist, i, j);
    }
    forall i | 0 <= i < |route|
      ensures 0.0 <= route[i].percent <= 100.0
    {
      PercentsOrdered(st, dist, i, i);
    }
  }

  /** Two stations' percents, in sort order, within 0..100. */
  lemma PercentsOrdered(st: seq<Station>, dist: DistFn, i: nat, j: nat)
    requires NonNegativeDist(dist)
    requires i <= j < |st|
    ensures 0.0 <= PercentOf(st, dist, i) <= PercentOf(st, dist, j) <= 100.0
  {
    CumDistMonotone(st, dist, i, j);
    CumDistMonotone(st, dist, j, |st| - 1);
    ScaleBounds(CumDist(st, dist, i), CumDist(st, dist, j), TotalDist(st, dist));
  }

  /** The first station is at 0; the last is at 100 when the route has length;
      every station is at 0 when the total distance is 0 (so a single station,
      or coincident ones, give 0 without dividing by zero). */
  lemma RouteEnds(st: seq<Station>, dist: DistFn)
    requires |st| >= 1
    ensures RouteOf(st, dist)[0].percent == 0.0
    ensures TotalDist(st, dist) > 0.0 ==> RouteOf(st, dist)[|st| - 1].percent == 100.0
    ensures TotalDist(st, dist) == 0.0 ==> forall i :: 0 <= i < |st| ==> RouteOf(st, dist)[i].percent == 0.0
  {
    if TotalDist(st, dist) > 0.0 {
      ScaleTotal(TotalDist(st, dist));
    }
  }
}
