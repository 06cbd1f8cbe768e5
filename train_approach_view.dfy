/** components/TrainApproachView.tsx: the viewport of at most 12 stations
    around the vehicle and the origin, display percents rescaled to the
    visible slice, the passed test and the next-stop label.
    components/prototypes/EnhancedHorizontalView.tsx repeats the locator,
    viewport and display rescaling unchanged (its lines 86-214), and uses
    these same definitions. */
module ApproachView {
  import opened Wrappers
  import opened Types
  import opened Builtins
  import opened Sorting
  import opened Geometry
  import opened Locator

  const MaxVisibleStations: nat := 12

  /** An inclusive index window [start, end]. */
  datatype Window = Window(start: nat, end: nat)

  /** `[min(focus, origin) - 1, max(focus, origin) + 1]`, clamped to the
      station indices. */
  function IdealWindow(n: nat, focus: nat, originIdx: nat): Window
    requires focus < n && originIdx < n
  {
    Window(Max(0, MinInt(focus, originIdx) - 1), MinInt(n - 1, Max(focus, originIdx) + 1))
  }

  function Span(w: Window): int {
    w.end - w.start + 1
  }

  /** The smart viewport: the ideal window when it holds at most 12 stations,
      otherwise 12 stations from 2 behind the focus (southbound) or up to 2
      behind it (northbound). */
  function ApproachWindow(n: nat, focus: nat, originIdx: nat, dir: Direction): Window
    requires focus < n && originIdx < n
  {
    var ideal := IdealWindow(n, focus, originIdx);
    if Span(ideal) <= MaxVisibleStations then ideal
    else if dir == SB then
      var start := Max(0, focus - 2);
      Window(start, MinInt(n - 1, start + MaxVisibleStations - 1))
    else
      var end := MinInt(n - 1, focus + 2);
      Window(Max(0, end - MaxVisibleStations + 1), end)
  }

  /** The window lies within the stations and holds the focus; a short path is
      the ideal window and holds the origin too; a long one holds at most 12
      stations, anchored 2 behind the focus in the direction of travel. */
  lemma ApproachWindowProperties(n: nat, focus: nat, originIdx: nat, dir: Direction)
    requires focus < n && originIdx < n
    ensures var w := ApproachWindow(n, focus, originIdx, dir);
      var ideal := IdealWindow(n, focus, originIdx);
      && w.start <= focus <= w.end < n
      && (Span(ideal) <= MaxVisibleStations ==> w == ideal && w.start <= originIdx <= w.end)
      && (Span(ideal) > MaxVisibleStations ==>
            && Span(w) <= MaxVisibleStations
            && (dir == SB ==> w.start == Max(0, focus - 2))
            && (dir == NB ==> w.end == MinInt(n - 1, focus + 2)))
  {
  }

  /** The viewport as the component computes it, reassigning its bounds. */
  method ComputeWindow(n: nat, focus: nat, originIdx: nat, dir: Direction) returns (startIdx: nat, endIdx: nat)
    requires focus < n && originIdx < n
    ensures Window(startIdx, endIdx) == ApproachWindow(n, focus, originIdx, dir)
  {
    var isSB := dir == SB;
    var idealStart := MinInt(focus, originIdx) - 1;
    var idealEnd := Max(focus, originIdx) + 1;
    idealStart := Max(0, idealStart);
    idealEnd := MinInt(n - 1, idealEnd);
    var span := idealEnd - idealStart + 1;
    var s: int := 0;
    var e: int := n - 1;
    if span <= MaxVisibleStations {
      s := idealStart;
      e := idealEnd;
    } else {
      if isSB {
        s := Max(0, focus - 2);
        e := MinInt(n - 1, s + MaxVisibleStations - 1);
      } else {
        e := MinInt(n - 1, focus + 2);
        s := Max(0, e - MaxVisibleStations + 1);
      }
    }
    startIdx, endIdx := s, e;
  }

  // ---------------------------------------------------------------- display percents

  /** `range > 0 ? ((p - minPercent) / range) * 100 : 50`. */
  function Rescale(p: real, minP: real, maxP: real): real {
    var range := maxP - minP;
    if range > 0.0 then ((p - minP) / range) * 100.0 else 50.0
  }

  /** The slice's ends map to 0 and 100 when it has length, and whatever lies
      between them to [0, 100]; a slice without length shows everything at 50. */
  lemma RescaleBounds(p: real, minP: real, maxP: real)
    ensures maxP - minP > 0.0 ==> Rescale(minP, minP, maxP) == 0.0 && Rescale(maxP, minP, maxP) == 100.0
    ensures maxP - minP > 0.0 && minP <= p <= maxP ==> 0.0 <= Rescale(p, minP, maxP) <= 100.0
    ensures maxP - minP <= 0.0 ==> Rescale(p, minP, maxP) == 50.0
  {
    var range := maxP - minP;
    if range > 0.0 {
      assert Rescale(p, minP, maxP) == Scale(p - minP, range);
      ScaleTotal(range);
      if minP <= p <= maxP {
        ScaleBounds(p - minP, p - minP, range);
      }
    }
  }

  /** Rescaling with length keeps the order of percents, in both directions. */
  lemma RescaleMonotone(a: real, b: real, minP: real, maxP: real)
    requires maxP - minP > 0.0
    ensures Rescale(a, minP, maxP) < Rescale(b, minP, maxP) <==> a < b
  {
    var range := maxP - minP;
    var qa, qb := (a - minP) / range, (b - minP) / range;
    assert (qb - qa) * range == b - a;
    if a < b {
      assert qa < qb;
    } else {
      assert qb <= qa;
    }
  }

  /** A station with its `displayPercent`. */
  datatype Shown = Shown(rs: RouteStation, displayPercent: real)

  /** The `slicedStations.map` giving each station its percent within the slice. */
  function Rescaled(slice: seq<RouteStation>): seq<Shown> {
    seq(|slice|, i requires 0 <= i < |slice| =>
      Shown(slice[i], Rescale(slice[i].percent, slice[0].percent, slice[|slice| - 1].percent)))
  }

  /** The stations drawn: the viewport slice rescaled when the origin is on
      the route, otherwise every station at its own percent. The focus is the
      vehicle's nearest station when there is a fix, else the origin. */
  function ApproachVisible(route: seq<RouteStation>, fix: Option<TrainFix>, origin: string, dir: Direction): seq<Shown>
    requires fix.Some? ==> fix.value.stationIdx < |route|
  {
    match FindOnRoute(route, origin)
    case None => Unscaled(route)
    case Some(oi) => WindowVisible(route, if fix.Some? then fix.value.stationIdx else oi, oi, dir)
  }

  /** Every station at its own percent. */
  function Unscaled(route: seq<RouteStation>): (vis: seq<Shown>)
    ensures |vis| == |route| && forall i :: 0 <= i < |route| ==> vis[i] == Shown(route[i], route[i].percent)
  {
    seq(|route|, i requires 0 <= i < |route| => Shown(route[i], route[i].percent))
  }

  /** The viewport's slice of the route, rescaled. */
  function WindowVisible(route: seq<RouteStation>, focus: nat, originIdx: nat, dir: Direction): seq<Shown>
    requires focus < |route| && originIdx < |route|
  {
    var w := ApproachWindow(|route|, focus, originIdx, dir);
    Rescaled(route[w.start..w.end + 1])
  }

  /** A rescaled slice of a valid route: display percents in [0, 100], the
      first at 0 and the last at 100 when the slice has length, all at 50
      when it has none. */
  lemma RescaledProperties(slice: seq<RouteStation>)
    requires |slice| >= 1 && ValidRoute(slice)
    ensures var vis := Rescaled(slice);
      && |vis| == |slice|
      && (forall k :: 0 <= k < |vis| ==> vis[k].rs == slice[k] && 0.0 <= vis[k].displayPercent <= 100.0)
      && (slice[|slice| - 1].percent > slice[0].percent ==>
            vis[0].displayPercent == 0.0 && vis[|vis| - 1].displayPercent == 100.0)
      && (slice[|slice| - 1].percent <= slice[0].percent ==>
            forall k :: 0 <= k < |vis| ==> vis[k].displayPercent == 50.0)
  {
    var lo, hi := slice[0].percent, slice[|slice| - 1].percent;
    var vis := Rescaled(slice);
    RescaleBounds(lo, lo, hi);
    forall k | 0 <= k < |vis|
      ensures 0.0 <= vis[k].displayPercent <= 100.0
    {
      RescaleBounds(slice[k].percent, lo, hi);
    }
  }

  lemma ValidRouteSlice(route: seq<RouteStation>, a: nat, b: nat)
    requires ValidRoute(route) && a <= b <= |route|
    ensures ValidRoute(route[a..b])
  {
    var s := route[a..b];
    assert forall i :: 0 <= i < |s| ==> s[i] == route[a + i];
  }

  /** Without the origin every station keeps its percent. With it, the
      visible stations are the window's, in order, rescaled as above. */
  lemma ApproachVisibleProperties(route: seq<RouteStation>, fix: Option<TrainFix>, origin: string, dir: Direction)
    requires fix.Some? ==> fix.value.stationIdx < |route|
    ensures var vis := ApproachVisible(route, fix, origin, dir);
      && (FindOnRoute(route, origin).None? ==>
            |vis| == |route| && forall i :: 0 <= i < |route| ==> vis[i] == Shown(route[i], route[i].percent))
      && (FindOnRoute(route, origin).Some? ==>
            var oi := FindOnRoute(route, origin).value;
            var w := ApproachWindow(|route|, if fix.Some? then fix.value.stationIdx else oi, oi, dir);
            && w.end < |route|
            && vis == Rescaled(route[w.start..w.end + 1]))
  {
    if FindOnRoute(route, origin).Some? {
      var oi := FindOnRoute(route, origin).value;
      var focus := if fix.Some? then fix.value.stationIdx else oi;
      ApproachVisibleWindow(route, fix, origin, dir);
      WindowVisibleSlice(route, focus, oi, dir);
    }
  }

  lemma ApproachVisibleWindow(route: seq<RouteStation>, fix: Option<TrainFix>, origin: string, dir: Direction)
    requires fix.Some? ==> fix.value.stationIdx < |route|
    requires FindOnRoute(route, origin).Some?
    ensures var oi := FindOnRoute(route, origin).value;
            ApproachVisible(route, fix, origin, dir) == WindowVisible(route, if fix.Some? then fix.value.stationIdx else oi, oi, dir)
  {
  }

  lemma WindowVisibleSlice(route: seq<RouteStation>, focus: nat, originIdx: nat, dir: Direction)
    requires focus < |route| && originIdx < |route|
    ensures var w := ApproachWindow(|route|, focus, originIdx, dir);
            && w.start <= w.end < |route|
            && WindowVisible(route, focus, originIdx, dir) == Rescaled(route[w.start..w.end + 1])
  {
    WindowInRange(|route|, focus, originIdx, dir);
  }

  lemma WindowInRange(n: nat, focus: nat, originIdx: nat, dir: Direction)
    requires focus < n && originIdx < n
    ensures ApproachWindow(n, focus, originIdx, dir).start <= ApproachWindow(n, focus, originIdx, dir).end < n
  {
    ApproachWindowProperties(n, focus, originIdx, dir);
  }

  /** `getTrainDisplayPercent`: the vehicle's percent rescaled like the
      visible stations; null without a fix or with nothing visible. */
  function TrainDisplayPercent(vis: seq<Shown>, trainPercent: Option<real>): Option<real> {
    if trainPercent.None? || vis == [] then None
    else Some(Rescale(trainPercent.value, vis[0].rs.percent, vis[|vis| - 1].rs.percent))
  }

  /** Without the origin the whole route is shown; when it runs from 0 to 100
      the vehicle's display percent is its route percent. */
  lemma TrainDisplayOnWholeRoute(route: seq<RouteStation>, fix: Option<TrainFix>, origin: string, dir: Direction, tp: real)
    requires fix.Some? ==> fix.value.stationIdx < |route|
    requires FindOnRoute(route, origin).None?
    requires |route| >= 1 && route[0].percent == 0.0 && route[|route| - 1].percent == 100.0
    ensures TrainDisplayPercent(ApproachVisible(route, fix, origin, dir), Some(tp)) == Some(tp)
  {
  }

  /** `isPassed`: northbound trains run towards lower percents, so a station
      above the vehicle is behind it; southbound, one below it. */
  predicate IsPassed(dir: Direction, stationDisplay: real, trainDisplay: Option<real>) {
    trainDisplay.Some? && (if dir == NB then stationDisplay > trainDisplay.value else stationDisplay < trainDisplay.value)
  }

  /** Rescaling does not change which stations are passed: on a slice with
      length, passed by display percent is passed by route percent. */
  lemma PassedByRoutePercent(vis: seq<Shown>, dir: Direction, tp: real, k: nat)
    requires k < |vis|
    requires forall i :: 0 <= i < |vis| ==>
               vis[i].displayPercent == Rescale(vis[i].rs.percent, vis[0].rs.percent, vis[|vis| - 1].rs.percent)
    requires vis[|vis| - 1].rs.percent - vis[0].rs.percent > 0.0
    ensures IsPassed(dir, vis[k].displayPercent, TrainDisplayPercent(vis, Some(tp)))
            <==> (if dir == NB then vis[k].rs.percent > tp else vis[k].rs.percent < tp)
  {
    RescaleMonotone(vis[k].rs.percent, tp, vis[0].rs.percent, vis[|vis| - 1].rs.percent);
    RescaleMonotone(tp, vis[k].rs.percent, vis[0].rs.percent, vis[|vis| - 1].rs.percent);
  }

  /** A station off the vehicle's mark is passed in exactly one direction. */
  lemma PassedInOneDirection(s: real, t: real)
    requires s != t
    ensures IsPassed(NB, s, Some(t)) != IsPassed(SB, s, Some(t))
  {
  }

  // ---------------------------------------------------------------- next stop

  /** NB looks at stop1, SB at stop2. */
  function DirectionalId(dir: Direction, s: Station): string {
    if dir == NB then s.stop1 else s.stop2
  }

  /** Ahead of the vehicle in its direction and a stop of this train. */
  predicate IsCandidate(r: RouteStation, dir: Direction, tp: real, stopIds: seq<string>) {
    (if dir == NB then r.percent < tp else r.percent > tp) && DirectionalId(dir, r.station) in stopIds
  }

  /** `normalizedStations.filter(…)`. */
  function Candidates(route: seq<RouteStation>, dir: Direction, tp: real, stopIds: seq<string>): seq<RouteStation> {
    if route == [] then []
    else
      var rest := Candidates(route[..|route| - 1], dir, tp, stopIds);
      if IsCandidate(route[|route| - 1], dir, tp, stopIds) then rest + [route[|route| - 1]] else rest
  }

  lemma {:induction false} CandidatesMembers(route: seq<RouteStation>, dir: Direction, tp: real, stopIds: seq<string>)
    ensures forall x :: x in Candidates(route, dir, tp, stopIds) <==> x in route && IsCandidate(x, dir, tp, stopIds)
  {
    if route != [] {
      CandidatesMembers(route[..|route| - 1], dir, tp, stopIds);
      assert route == route[..|route| - 1] + [route[|route| - 1]];
    }
  }

  lemma {:induction false} NoCandidates(route: seq<RouteStation>, dir: Direction, tp: real, stopIds: seq<string>)
    requires forall i :: 0 <= i < |route| ==> !IsCandidate(route[i], dir, tp, stopIds)
    ensures Candidates(route, dir, tp, stopIds) == []
  {
    if route != [] {
      NoCandidates(route[..|route| - 1], dir, tp, stopIds);
    }
  }

  /** Each candidate's distance to the vehicle, in percent. */
  function Gaps(cands: seq<RouteStation>, tp: real): (g: seq<real>)
    ensures |g| == |cands|
    ensures forall i :: 0 <= i < |cands| ==> g[i] == AbsReal(cands[i].percent - tp)
  {
    seq(|cands|, i requires 0 <= i < |cands| => AbsReal(cands[i].percent - tp))
  }

  /** The "Next Stop" label: "--" without a fix, "Terminus" without a
      candidate, else the first candidate after a stable sort by distance. */
  function NextStop(route: seq<RouteStation>, trainPercent: Option<real>, dir: Direction, stopIds: seq<string>): string {
    if trainPercent.None? then "--"
    else
      var cands := Candidates(route, dir, trainPercent.value, stopIds);
      if cands == [] then "Terminus"
      else cands[FirstMin(Gaps(cands, trainPercent.value))].station.stopname
  }

  /** "--" exactly without a fix; "Terminus" when no station is ahead and
      scheduled; otherwise the name of a station ahead and scheduled that no
      other such station is nearer to. */
  lemma NextStopProperties(route: seq<RouteStation>, trainPercent: Option<real>, dir: Direction, stopIds: seq<string>)
    ensures trainPercent.None? ==> NextStop(route, trainPercent, dir, stopIds) == "--"
    ensures trainPercent.Some? && (forall i :: 0 <= i < |route| ==> !IsCandidate(route[i], dir, trainPercent.value, stopIds))
            ==> NextStop(route, trainPercent, dir, stopIds) == "Terminus"
    ensures trainPercent.Some? && (exists i :: 0 <= i < |route| && IsCandidate(route[i], dir, trainPercent.value, stopIds))
            ==> exists best :: best in route && IsCandidate(best, dir, trainPercent.value, stopIds)
                  && NextStop(route, trainPercent, dir, stopIds) == best.station.stopname
                  && forall r :: r in route && IsCandidate(r, dir, trainPercent.value, stopIds)
                       ==> AbsReal(best.percent - trainPercent.value) <= AbsReal(r.percent - trainPercent.value)
  {
    if trainPercent.Some? {
      var tp := trainPercent.value;
      if exists i :: 0 <= i < |route| && IsCandidate(route[i], dir, tp, stopIds) {
        var i :| 0 <= i < |route| && IsCandidate(route[i], dir, tp, stopIds);
        CandidatesMembers(route, dir, tp, stopIds);
        assert route[i] in Candidates(route, dir, tp, stopIds);
        NextStopNearest(route, tp, dir, stopIds);
      } else {
        NoCandidates(route, dir, tp, stopIds);
      }
    }
  }

  /** With a candidate on the route, the next stop is a nearest candidate. */
  lemma NextStopNearest(route: seq<RouteStation>, tp: real, dir: Direction, stopIds: seq<string>)
    requires Candidates(route, dir, tp, stopIds) != []
    ensures exists best :: best in route && IsCandidate(best, dir, tp, stopIds)
              && NextStop(route, Some(tp), dir, stopIds) == best.station.stopname
              && forall r :: r in route && IsCandidate(r, dir, tp, stopIds)
                   ==> AbsReal(best.percent - tp) <= AbsReal(r.percent - tp)
  {
    var cands := Candidates(route, dir, tp, stopIds);
    var best := cands[FirstMin(Gaps(cands, tp))];
    NearestCandidate(route, dir, tp, stopIds);
    assert NextStop(route, Some(tp), dir, stopIds) == best.station.stopname;
  }

  /** The first-minimum candidate is a candidate of the route that no other
      candidate is nearer to. */
  lemma NearestCandidate(route: seq<RouteStation>, dir: Direction, tp: real, stopIds: seq<string>)
    requires Candidates(route, dir, tp, stopIds) != []
    ensures var cands := Candidates(route, dir, tp, stopIds);
            var best := cands[FirstMin(Gaps(cands, tp))];
            && best in route && IsCandidate(best, dir, tp, stopIds)
            && forall r :: r in route && IsCandidate(r, dir, tp, stopIds)
                 ==> AbsReal(best.percent - tp) <= AbsReal(r.percent - tp)
  {
    var cands := Candidates(route, dir, tp, stopIds);
    CandidatesMembers(route, dir, tp, stopIds);
    var g := Gaps(cands, tp);
    var m := FirstMin(g);
    assert cands[m] in cands;
    forall r | r in route && IsCandidate(r, dir, tp, stopIds)
      ensures AbsReal(cands[m].percent - tp) <= AbsReal(r.percent - tp)
    {
      assert r in cands;
      var jj :| 0 <= jj < |cands| && cands[jj] == r;
      assert g[m] <= g[jj];
    }
  }

  /** The label as the component builds it: collect the candidates, then take
      the head of the stable distance sort (the first nearest). */
  method NextStopName(route: seq<RouteStation>, trainPercent: Option<real>, dir: Direction, stopIds: seq<string>)
    returns (name: string)
    ensures name == NextStop(route, trainPercent, dir, stopIds)
  {
    if trainPercent.None? {
      return "--";
    }
    var tp := trainPercent.value;
    var candidates := CollectCandidates(route, dir, tp, stopIds);
    if |candidates| == 0 {
      return "Terminus";
    }
    var best := FirstNearest(candidates, tp);
    name := candidates[best].station.stopname;
  }

  /** The `filter` pass, one station at a time. */
  method CollectCandidates(route: seq<RouteStation>, dir: Direction, tp: real, stopIds: seq<string>)
    returns (candidates: seq<RouteStation>)
    ensures candidates == Candidates(route, dir, tp, stopIds)
  {
    candidates := [];
    var i := 0;
    while i < |route|
      invariant 0 <= i <= |route|
      invariant candidates == Candidates(route[..i], dir, tp, stopIds)
    {
      assert route[..i + 1][..i] == route[..i];
      var s := route[i];
      var isAhead := if dir == NB then s.percent < tp else s.percent > tp;
      if isAhead && DirectionalId(dir, s.station) in stopIds {
        candidates := candidates + [s];
      }
      i := i + 1;
    }
    assert route[..|route|] == route;
  }

  /** The head of the stable sort by distance: the first candidate no other
      is strictly nearer to. */
  method FirstNearest(candidates: seq<RouteStation>, tp: real) returns (best: nat)
    requires |candidates| >= 1
    ensures best == FirstMin(Gaps(candidates, tp))
  {
    ghost var gaps := Gaps(candidates, tp);
    best := 0;
    var j := 1;
    while j < |candidates|
      invariant 1 <= j <= |candidates|
      invariant best == FirstMinIn(gaps, j)
    {
      assert FirstMinIn(gaps, j + 1) == if gaps[j] < gaps[best] then j else best;
      if AbsReal(candidates[j].percent - tp) < AbsReal(candidates[best].percent - tp) {
        best := j;
      }
      j := j + 1;
    }
  }
}
