/** `getTrainPercent`, copied into every view: the station nearest the
    vehicle (first strict minimum), then an attempt to place the vehicle on the
    segment before it and, in most copies, the segment after it, accepting a
    segment when the two distances add up to at most 1.2 times its length. */
module Locator {
  import opened Wrappers
  import opened Types
  import opened Geometry
  import opened Sorting

  /** `{ percent, stationIdx, isInterpolated }`. */
  datatype TrainFix = TrainFix(percent: real, stationIdx: nat, isInterpolated: bool)

  /** Which neighbouring segments a copy tries: the previous one and then the
      next one (TrainApproachView, EnhancedHorizontalView), or the previous one
      only (TerminalCorridorView). */
  datatype Variant = PrevThenNext | PrevOnly

  /** Distance from the vehicle to station i. */
  function TrainDist(route: seq<RouteStation>, dist: DistFn, train: Point, i: nat): real
    requires i < |route|
  {
    dist(train, Pos(route[i].station))
  }

  /** Length of the segment from station a to station a + 1. */
  function SegLen(route: seq<RouteStation>, dist: DistFn, a: nat): real
    requires a + 1 < |route|
  {
    dist(Pos(route[a].station), Pos(route[a + 1].station))
  }

  /** No two consecutive stations coincide, so no accepted segment divides by 0. */
  ghost predicate PositiveSegments(route: seq<RouteStation>, dist: DistFn) {
    forall a :: 0 <= a < |route| - 1 ==> SegLen(route, dist, a) > 0.0
  }

  /** The vehicle's distance to every station, in route order. */
  function Dists(route: seq<RouteStation>, dist: DistFn, train: Point): (ds: seq<real>)
    ensures |ds| == |route|
    ensures forall i :: 0 <= i < |route| ==> ds[i] == TrainDist(route, dist, train, i)
  {
    seq(|route|, i requires 0 <= i < |route| => TrainDist(route, dist, train, i))
  }

  /** The `minD`/`closestIdx` scan: the first station at the least distance. */
  function Closest(route: seq<RouteStation>, dist: DistFn, train: Point): nat
    requires |route| >= 1
  {
    FirstMin(Dists(route, dist, train))
  }

  /** The vehicle is taken to be on segment a when `dA + dB <= 1.2 * length`. */
  predicate Accepted(route: seq<RouteStation>, dist: DistFn, train: Point, a: nat)
    requires a + 1 < |route|
  {
    TrainDist(route, dist, train, a) + TrainDist(route, dist, train, a + 1) <= SegLen(route, dist, a) * 1.2
  }

  /** `distToStart / segmentLength`. */
  function Factor(route: seq<RouteStation>, dist: DistFn, train: Point, a: nat): real
    requires a + 1 < |route| && SegLen(route, dist, a) > 0.0
  {
    TrainDist(route, dist, train, a) / SegLen(route, dist, a)
  }

  /** The previous segment is accepted. */
  predicate PrevAccepted(route: seq<RouteStation>, dist: DistFn, train: Point, c: nat)
    requires c < |route|
  {
    c > 0 && Accepted(route, dist, train, c - 1)
  }

  /** The next segment is tried (the copy tries it, there is one, the factor is
      still 0) and accepted. */
  predicate NextAccepted(route: seq<RouteStation>, dist: DistFn, train: Point, c: nat, variant: Variant, factor: real)
    requires c < |route|
  {
    variant == PrevThenNext && c < |route| - 1 && factor == 0.0 && Accepted(route, dist, train, c)
  }

  /** `startPercent + (endPercent - startPercent) * interpolationFactor`. */
  function Interpolate(route: seq<RouteStation>, s: nat, e: nat, factor: real): real
    requires s < |route| && e < |route|
  {
    route[s].percent + (route[e].percent - route[s].percent) * factor
  }

  /** The fix for a vehicle at `train`. */
  function FixAt(route: seq<RouteStation>, dist: DistFn, train: Point, variant: Variant): TrainFix
    requires |route| >= 1 && PositiveSegments(route, dist)
  {
    var c := Closest(route, dist, train);
    var prev := PrevAccepted(route, dist, train, c);
    var s1 := if prev then c - 1 else c;
    var f1 := if prev then Factor(route, dist, train, c - 1) else 0.0;
    if NextAccepted(route, dist, train, c, variant, f1)
    then TrainFix(Interpolate(route, c, c + 1, Factor(route, dist, train, c)), c, true)
    else TrainFix(Interpolate(route, s1, c, f1), c, prev)
  }

  /** `getTrainPercent()`: null without a vehicle position. */
  function TrainPercent(route: seq<RouteStation>, dist: DistFn, train: Option<Point>, variant: Variant): Option<TrainFix>
    requires train.Some? ==> |route| >= 1
    requires PositiveSegments(route, dist)
  {
    if train.None? then None else Some(FixAt(route, dist, train.value, variant))
  }

  /** The `forEach` that keeps the running minimum; `minD` starts at Infinity,
      written here as None. */
  method FindClosest(route: seq<RouteStation>, dist: DistFn, train: Point) returns (closestIdx: nat)
    requires |route| >= 1
    ensures closestIdx == Closest(route, dist, train)
  {
    closestIdx := 0;
    var minD: Option<real> := None;
    var i := 0;
    while i < |route|
      invariant 0 <= i <= |route|
      invariant i == 0 ==> minD.None? && closestIdx == 0
      invariant i > 0 ==> closestIdx == FirstMinIn(Dists(route, dist, train), i)
                          && minD == Some(TrainDist(route, dist, train, closestIdx))
    {
      var d := dist(train, Pos(route[i].station));
      if minD.None? || d < minD.value {
        minD := Some(d);
        closestIdx := i;
      }
      i := i + 1;
    }
  }

  /** `getTrainPercent` with its reassigned segment indices and factor. */
  method GetTrainPercent(route: seq<RouteStation>, dist: DistFn, train: Option<Point>, variant: Variant)
    returns (fix: Option<TrainFix>)
    requires train.Some? ==> |route| >= 1
    requires PositiveSegments(route, dist)
    ensures fix == TrainPercent(route, dist, train, variant)
  {
    if train.None? {
      return None;
    }
    var p := train.value;
    var closestIdx := FindClosest(route, dist, p);
    var segmentStartIdx, segmentEndIdx, interpolationFactor := TryPrevSegment(route, dist, p, closestIdx);
    ghost var prev := PrevAccepted(route, dist, p, closestIdx);
    ghost var f1 := interpolationFactor;
    ghost var next := NextAccepted(route, dist, p, closestIdx, variant, f1);
    segmentStartIdx, segmentEndIdx, interpolationFactor :=
      TryNextSegment(route, dist, p, closestIdx, variant, segmentStartIdx, segmentEndIdx, interpolationFactor);
    fix := Some(TrainFix(Interpolate(route, segmentStartIdx, segmentEndIdx, interpolationFactor),
                         closestIdx, segmentStartIdx != segmentEndIdx));
    ghost var expected :=
      if next then TrainFix(Interpolate(route, closestIdx, closestIdx + 1, Factor(route, dist, p, closestIdx)), closestIdx, true)
      else TrainFix(Interpolate(route, if prev then closestIdx - 1 else closestIdx, closestIdx, f1), closestIdx, prev);
    assert FixAt(route, dist, p, variant) == expected;
    assert fix.value == expected;
  }

  /** The `if (closestIdx > 0)` block: the segment ending at the nearest
      station when it is accepted, otherwise that station alone. */
  method TryPrevSegment(route: seq<RouteStation>, dist: DistFn, p: Point, closestIdx: nat)
    returns (segmentStartIdx: nat, segmentEndIdx: nat, interpolationFactor: real)
    requires closestIdx < |route| && PositiveSegments(route, dist)
    ensures var prev := PrevAccepted(route, dist, p, closestIdx);
            && segmentStartIdx == (if prev then closestIdx - 1 else closestIdx)
            && segmentEndIdx == closestIdx
            && interpolationFactor == (if prev then Factor(route, dist, p, closestIdx - 1) else 0.0)
  {
    segmentStartIdx := closestIdx;
    segmentEndIdx := closestIdx;
    interpolationFactor := 0.0;
    if closestIdx > 0 {
      var distToPrev := dist(p, Pos(route[closestIdx - 1].station));
      var distToCurr := dist(p, Pos(route[closestIdx].station));
      var segmentLength := dist(Pos(route[closestIdx - 1].station), Pos(route[closestIdx].station));
      assert segmentLength == SegLen(route, dist, closestIdx - 1);
      if distToPrev + distToCurr <= segmentLength * 1.2 {
        segmentStartIdx := closestIdx - 1;
        segmentEndIdx := closestIdx;
        interpolationFactor := distToPrev / segmentLength;
      }
    }
  }

  /** The copy's second block: the segment starting at the nearest station
      when it is tried and accepted; otherwise the indices and factor so far. */
  method TryNextSegment(route: seq<RouteStation>, dist: DistFn, p: Point, closestIdx: nat, variant: Variant,
                        start0: nat, end0: nat, factor0: real)
    returns (segmentStartIdx: nat, segmentEndIdx: nat, interpolationFactor: real)
    requires closestIdx < |route| && PositiveSegments(route, dist)
    ensures NextAccepted(route, dist, p, closestIdx, variant, factor0) ==>
              segmentStartIdx == closestIdx && segmentEndIdx == closestIdx + 1
              && interpolationFactor == Factor(route, dist, p, closestIdx)
    ensures !NextAccepted(route, dist, p, closestIdx, variant, factor0) ==>
              segmentStartIdx == start0 && segmentEndIdx == end0 && interpolationFactor == factor0
  {
    segmentStartIdx, segmentEndIdx, interpolationFactor := start0, end0, factor0;
    if variant == PrevThenNext && closestIdx < |route| - 1 && interpolationFactor == 0.0 {
      var distToCurr := dist(p, Pos(route[closestIdx].station));
      var distToNext := dist(p, Pos(route[closestIdx + 1].station));
      var segmentLength := dist(Pos(route[closestIdx].station), Pos(route[closestIdx + 1].station));
      assert segmentLength == SegLen(route, dist, closestIdx);
      if distToCurr + distToNext <= segmentLength * 1.2 {
        segmentStartIdx := closestIdx;
        segmentEndIdx := closestIdx + 1;
        interpolationFactor := distToCurr / segmentLength;
      }
    }
  }

  // ---------------------------------------------------------------- properties

  /** The reported station is the nearest one, and the first of the nearest:
      every earlier station is strictly farther. */
  lemma FixStationIsNearest(route: seq<RouteStation>, dist: DistFn, train: Point, variant: Variant)
    requires |route| >= 1 && PositiveSegments(route, dist)
    ensures var c := FixAt(route, dist, train, variant).stationIdx;
      && c < |route|
      && (forall j :: 0 <= j < |route| ==> TrainDist(route, dist, train, c) <= TrainDist(route, dist, train, j))
      && (forall j :: 0 <= j < c ==> TrainDist(route, dist, train, j) > TrainDist(route, dist, train, c))
  {
  }

  /** `isInterpolated` holds exactly when a segment was accepted; without one
      the percent is the nearest station's own percent. */
  lemma InterpolatedIffAccepted(route: seq<RouteStation>, dist: DistFn, train: Point, variant: Variant)
    requires |route| >= 1 && PositiveSegments(route, dist)
    ensures var fix := FixAt(route, dist, train, variant);
      var c := Closest(route, dist, train);
      var prev := PrevAccepted(route, dist, train, c);
      var f1 := if prev then Factor(route, dist, train, c - 1) else 0.0;
      && (fix.isInterpolated <==> prev || NextAccepted(route, dist, train, c, variant, f1))
      && (!fix.isInterpolated ==> fix.percent == route[c].percent)
  {
  }

  /** The segment after the nearest station is never tried by the
      previous-only copy. */
  lemma PrevOnlyIgnoresNext(route: seq<RouteStation>, dist: DistFn, train: Point)
    requires |route| >= 1 && PositiveSegments(route, dist)
    ensures var fix := FixAt(route, dist, train, PrevOnly);
      var c := Closest(route, dist, train);
      && (fix.isInterpolated <==> PrevAccepted(route, dist, train, c))
      && (PrevAccepted(route, dist, train, c) ==>
            fix.percent == Interpolate(route, c - 1, c, Factor(route, dist, train, c - 1)))
  {
  }

  /** An accepted segment gives a factor in [0, 1.2]: the tolerance lets the
      vehicle run up to a fifth of the segment past its far end. */
  lemma FactorBounds(route: seq<RouteStation>, dist: DistFn, train: Point, a: nat)
    requires NonNegativeDist(dist)
    requires a + 1 < |route| && SegLen(route, dist, a) > 0.0
    requires Accepted(route, dist, train, a)
    ensures 0.0 <= Factor(route, dist, train, a) <= 1.2
  {
    var dA, dB, len := TrainDist(route, dist, train, a), TrainDist(route, dist, train, a + 1), SegLen(route, dist, a);
    assert dB >= 0.0;
    assert dA <= len * 1.2;
    DivMonotone(dA, len * 1.2, len);
    DivMonotone(0.0, dA, len);
  }

  lemma InterpolateBounds(route: seq<RouteStation>, s: nat, e: nat, f: real)
    requires s < |route| && e < |route|
    requires route[s].percent <= route[e].percent
    requires 0.0 <= f <= 1.2
    ensures route[s].percent <= Interpolate(route, s, e, f)
              <= route[s].percent + (route[e].percent - route[s].percent) * 1.2
  {
    var d := route[e].percent - route[s].percent;
    MulNonNegative(d, f);
    MulNonNegative(d, 1.2 - f);
    assert d * 1.2 - d * f == d * (1.2 - f);
  }

  lemma MulNonNegative(x: real, y: real)
    requires x >= 0.0 && y >= 0.0
    ensures x * y >= 0.0
  {
  }

  /** On a valid route with non-negative distances the percent lies between
      the station it is measured from and that station plus 1.2 segments, so
      always within [0, 120]. */
  lemma FixBounds(route: seq<RouteStation>, dist: DistFn, train: Point, variant: Variant)
    requires NonNegativeDist(dist)
    requires |route| >= 1 && PositiveSegments(route, dist) && ValidRoute(route)
    ensures 0.0 <= FixAt(route, dist, train, variant).percent <= 120.0
  {
    var c := Closest(route, dist, train);
    var prev := PrevAccepted(route, dist, train, c);
    var f1 := if prev then Factor(route, dist, train, c - 1) else 0.0;
    if NextAccepted(route, dist, train, c, variant, f1) {
      FactorBounds(route, dist, train, c);
      InterpolateBounds(route, c, c + 1, Factor(route, dist, train, c));
    } else if prev {
      FactorBounds(route, dist, train, c - 1);
      InterpolateBounds(route, c - 1, c, f1);
    }
  }

  /** A concrete overshoot: stations 10 apart at 0% and 100%, the vehicle 1
      past the second one. The previous segment is accepted (11 + 1 <= 12) and
      the vehicle is drawn at 110%. */
  lemma OvershootExample()
    ensures var a := Station("1", "2", "A", "a", 0.0, 0.0);
      var b := Station("3", "4", "B", "b", 10.0, 0.0);
      var route := [RouteStation(a, 0.0), RouteStation(b, 100.0)];
      var dist: DistFn := (p: Point, q: Point) => if p.lat <= q.lat then q.lat - p.lat else p.lat - q.lat;
      PositiveSegments(route, dist)
      && FixAt(route, dist, Point(11.0, 0.0), PrevThenNext) == TrainFix(110.0, 1, true)
  {
    var a := Station("1", "2", "A", "a", 0.0, 0.0);
    var b := Station("3", "4", "B", "b", 10.0, 0.0);
    var route := [RouteStation(a, 0.0), RouteStation(b, 100.0)];
    var dist: DistFn := (p: Point, q: Point) => if p.lat <= q.lat then q.lat - p.lat else p.lat - q.lat;
    var t := Point(11.0, 0.0);
    assert TrainDist(route, dist, t, 0) == 11.0;
    assert TrainDist(route, dist, t, 1) == 1.0;
    var ds := Dists(route, dist, t);
    assert ds[0] == 11.0 && ds[1] == 1.0;
    assert FirstMinIn(ds, 1) == 0;
    assert Closest(route, dist, t) == 1;
    assert SegLen(route, dist, 0) == 10.0;
    assert Factor(route, dist, t, 0) == 1.1;
  }

  /** The nearest-only copies (AnimatedProgressView, TerminalTimelineView):
      the nearest station's percent over 100, and 0 without a position. */
  function NearestProgress(route: seq<RouteStation>, dist: DistFn, train: Option<Point>): real
    requires train.Some? ==> |route| >= 1
  {
    if train.None? then 0.0 else route[Closest(route, dist, train.value)].percent / 100.0
  }

  /** On a valid route the progress is a fraction in [0, 1], and it is a
      station's own percent scaled down. */
  lemma NearestProgressBounds(route: seq<RouteStation>, dist: DistFn, train: Option<Point>)
    requires train.Some? ==> |route| >= 1
    requires ValidRoute(route)
    ensures 0.0 <= NearestProgress(route, dist, train) <= 1.0
    ensures train.Some? ==> exists i :: 0 <= i < |route| && NearestProgress(route, dist, train) == route[i].percent / 100.0
  {
    if train.Some? {
      var c := Closest(route, dist, train.value);
      assert 0.0 <= route[c].percent <= 100.0;
    }
  }

  /** The nearest-only scan as the views write it. */
  method GetNearestProgress(route: seq<RouteStation>, dist: DistFn, train: Option<Point>) returns (progress: real)
    requires train.Some? ==> |route| >= 1
    ensures progress == NearestProgress(route, dist, train)
  {
    if train.None? {
      return 0.0;
    }
    var closestIdx := FindClosest(route, dist, train.value);
    progress := route[closestIdx].percent / 100.0;
  }
}
