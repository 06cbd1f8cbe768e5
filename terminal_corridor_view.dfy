/** components/TerminalCorridorView.tsx: the 12-station window around the
    vehicle's nearest station (or the origin), the 60-character ASCII rail
    with the stations and the vehicle drawn on it, and the status line. The
    vehicle is placed by the previous-segment-only locator
    (`Locator.TrainPercent` with `PrevOnly`). */
module CorridorView {
  import opened Wrappers
  import opened Types
  import opened Builtins
  import opened Geometry
  import opened Locator
  import EtaCalculations
  import HorizontalView
  import ApproachView

  /** `MAX_VISIBLE`. */
  const MaxVisible: nat := 12

  /** `corridorWidth`. */
  const CorridorWidth: nat := 60

  // ---------------------------------------------------------------- window

  /** Start 3 stations before the focus, take up to 12, and slide the start
      back when the end of the route cuts the window short. */
  function CorridorWindow(n: nat, focus: nat): ApproachView.Window
    requires focus < n
  {
    var s0 := Max(0, focus - 3);
    var e := MinInt(n - 1, s0 + MaxVisible - 1);
    var s := if e - s0 + 1 < MaxVisible as int then Max(0, e - MaxVisible + 1) else s0;
    ApproachView.Window(s, e)
  }

  /** The window as the view computes it, with `let startIdx` adjusted. */
  method ComputeCorridorWindow(n: nat, focus: nat) returns (startIdx: nat, endIdx: nat)
    requires focus < n
    ensures ApproachView.Window(startIdx, endIdx) == CorridorWindow(n, focus)
  {
    startIdx := Max(0, focus - 3);
    endIdx := MinInt(n - 1, startIdx + MaxVisible - 1);
    if endIdx - startIdx + 1 < MaxVisible {
      startIdx := Max(0, endIdx - MaxVisible + 1);
    }
  }

  /** The window holds the focus, has exactly min(12, n) stations, and
      starts 3 before the focus unless the route's end pins it. */
  lemma CorridorWindowProperties(n: nat, focus: nat)
    requires focus < n
    ensures var w := CorridorWindow(n, focus);
      && w.start <= focus <= w.end < n
      && ApproachView.Span(w) == MinInt(MaxVisible, n)
      && (Max(0, focus - 3) + MaxVisible - 1 <= n - 1 ==> w.start == Max(0, focus - 3))
      && (Max(0, focus - 3) + MaxVisible - 1 > n - 1 ==> w.end == n - 1)
  {
  }

  /** `visibleStations`: every station without an origin, else the window
      around the vehicle's nearest station, or around the origin without a
      fix. */
  function CorridorVisible(route: seq<RouteStation>, origin: string, fix: Option<TrainFix>): seq<RouteStation>
    requires fix.Some? ==> fix.value.stationIdx < |route|
  {
    match FindOnRoute(route, origin)
    case None => route
    case Some(o) =>
      var focus := if fix.Some? then fix.value.stationIdx else o;
      var w := CorridorWindow(|route|, focus);
      route[w.start..w.end + 1]
  }

  /** With the origin found, a contiguous run of min(12, n) stations of the
      route containing the focus; its percents keep the route's order. */
  lemma CorridorVisibleProperties(route: seq<RouteStation>, origin: string, fix: Option<TrainFix>)
    requires fix.Some? ==> fix.value.stationIdx < |route|
    ensures FindOnRoute(route, origin).None? ==> CorridorVisible(route, origin, fix) == route
    ensures FindOnRoute(route, origin).Some? ==>
              var v := CorridorVisible(route, origin, fix);
              var focus := if fix.Some? then fix.value.stationIdx else FindOnRoute(route, origin).value;
              var s := CorridorWindow(|route|, focus).start;
              && |v| == MinInt(MaxVisible, |route|)
              && s <= focus < s + |v| <= |route| && v == route[s..s + |v|]
    ensures ValidRoute(route) ==> Monotone(CorridorVisible(route, origin, fix))
  {
    if FindOnRoute(route, origin).Some? {
      var focus := if fix.Some? then fix.value.stationIdx else FindOnRoute(route, origin).value;
      CorridorWindowProperties(|route|, focus);
      var w := CorridorWindow(|route|, focus);
      assert CorridorVisible(route, origin, fix) == route[w.start..w.start + MinInt(MaxVisible, |route|)];
    }
  }

  /** Percents never decrease along the stations. */
  ghost predicate Monotone(v: seq<RouteStation>) {
    forall i, j :: 0 <= i <= j < |v| ==> v[i].percent <= v[j].percent
  }

  // ---------------------------------------------------------------- rail

  /** `displayPercent`: `range = max - min || 100`, and 50 for a negative range. */
  function CorridorDisplay(p: real, minP: real, maxP: real): real {
    var range := if maxP - minP == 0.0 then 100.0 else maxP - minP;
    if range > 0.0 then ((p - minP) / range) * 100.0 else 50.0
  }

  /** `Math.round(displayPercent / 100 * (corridorWidth - 1))` against the
      first and last visible stations. */
  function RailPos(visible: seq<RouteStation>, p: real): int
    requires |visible| >= 1
  {
    Round(CorridorDisplay(p, visible[0].percent, visible[|visible| - 1].percent) / 100.0 * 59.0)
  }

  /** `railLine[pos] = c` guarded by `pos >= 0 && pos < corridorWidth`. */
  function Place(rail: seq<char>, pos: int, c: char): (r: seq<char>)
    ensures |r| == |rail|
    ensures forall i :: 0 <= i < |rail| ==> r[i] == (if i == pos then c else rail[i])
  {
    if 0 <= pos < |rail| then rail[pos := c] else rail
  }

  /** '●' for the origin, '○' for any other station. */
  function StationMark(s: RouteStation, origin: string): char {
    if s.station.stopname == origin then '●' else '○'
  }

  /** The rail after the first k stations are drawn on the blank line. */
  function RailAfter(visible: seq<RouteStation>, origin: string, k: nat): (r: seq<char>)
    requires k <= |visible|
    ensures |r| == CorridorWidth
  {
    if k == 0 then Repeat('─', CorridorWidth)
    else Place(RailAfter(visible, origin, k - 1), RailPos(visible, visible[k - 1].percent), StationMark(visible[k - 1], origin))
  }

  /** The finished rail: the stations, then the vehicle on top. */
  function Rail(visible: seq<RouteStation>, origin: string, trainPercent: Option<real>): seq<char>
    requires trainPercent.Some? ==> |visible| >= 1
  {
    var r := RailAfter(visible, origin, |visible|);
    if trainPercent.None? then r else Place(r, RailPos(visible, trainPercent.value), '▶')
  }

  /** The rail as the view builds it: an array filled with '─' and
      overwritten in place, station by station and then the vehicle. */
  method BuildRail(visible: seq<RouteStation>, origin: string, trainPercent: Option<real>) returns (rail: seq<char>)
    requires trainPercent.Some? ==> |visible| >= 1
    ensures rail == Rail(visible, origin, trainPercent)
  {
    var railLine := new char[CorridorWidth](_ => '─');
    assert railLine[..] == Repeat('─', CorridorWidth);
    var idx := 0;
    while idx < |visible|
      invariant 0 <= idx <= |visible|
      invariant railLine[..] == RailAfter(visible, origin, idx)
    {
      var station := visible[idx];
      var minPercent := visible[0].percent;
      var maxPercent := visible[|visible| - 1].percent;
      var range := if maxPercent - minPercent == 0.0 then 100.0 else maxPercent - minPercent;
      var displayPercent := if range > 0.0 then ((station.percent - minPercent) / range) * 100.0 else 50.0;
      var pos := Round((displayPercent / 100.0) * (CorridorWidth - 1) as real);
      assert pos == RailPos(visible, station.percent);
      if pos >= 0 && pos < CorridorWidth {
        railLine[pos] := if station.station.stopname == origin then '●' else '○';
      }
      idx := idx + 1;
    }
    if trainPercent.Some? {
      var minPercent := visible[0].percent;
      var maxPercent := visible[|visible| - 1].percent;
      var range := if maxPercent - minPercent == 0.0 then 100.0 else maxPercent - minPercent;
      var displayPercent := if range > 0.0 then ((trainPercent.value - minPercent) / range) * 100.0 else 50.0;
      var pos := Round((displayPercent / 100.0) * (CorridorWidth - 1) as real);
      assert pos == RailPos(visible, trainPercent.value);
      if pos >= 0 && pos < CorridorWidth {
        railLine[pos] := '▶';
      }
    }
    rail := railLine[..];
  }

  /** A cell of the rail is marked exactly when one of the first k stations
      falls on it, and then with some such station's mark. */
  lemma {:induction false} RailAfterMarks(visible: seq<RouteStation>, origin: string, k: nat, i: nat)
    requires k <= |visible| && i < CorridorWidth
    ensures RailAfter(visible, origin, k)[i] != '─' <==>
              exists j :: 0 <= j < k && RailPos(visible, visible[j].percent) == i
    ensures RailAfter(visible, origin, k)[i] != '─' ==>
              exists j :: 0 <= j < k && RailPos(visible, visible[j].percent) == i
                && RailAfter(visible, origin, k)[i] == StationMark(visible[j], origin)
  {
    if k > 0 {
      RailAfterMarks(visible, origin, k - 1, i);
      var last := k - 1;
      if RailPos(visible, visible[last].percent) != i {
        if RailAfter(visible, origin, k)[i] != '─' {
          var j :| 0 <= j < k - 1 && RailPos(visible, visible[j].percent) == i
                   && RailAfter(visible, origin, k - 1)[i] == StationMark(visible[j], origin);
          assert RailAfter(visible, origin, k)[i] == StationMark(visible[j], origin);
        }
      }
    }
  }

  /** Within a window whose percents never decrease, every station lands on
      the rail: the first at cell 0, the last at cell 59 when they differ, the
      rest in between. */
  lemma StationPosBounds(visible: seq<RouteStation>, k: nat)
    requires Monotone(visible) && k < |visible|
    ensures 0 <= RailPos(visible, visible[k].percent) < CorridorWidth
    ensures RailPos(visible, visible[0].percent) == 0
    ensures visible[0].percent < visible[|visible| - 1].percent ==> RailPos(visible, visible[|visible| - 1].percent) == 59
  {
    var minP, maxP := visible[0].percent, visible[|visible| - 1].percent;
    assert minP <= visible[k].percent <= maxP;
    if maxP - minP == 0.0 {
      assert CorridorDisplay(visible[k].percent, minP, maxP) == 0.0;
      assert CorridorDisplay(minP, minP, maxP) == 0.0;
    } else {
      assert CorridorDisplay(visible[k].percent, minP, maxP) == ApproachView.Rescale(visible[k].percent, minP, maxP);
      assert CorridorDisplay(minP, minP, maxP) == ApproachView.Rescale(minP, minP, maxP);
      assert CorridorDisplay(maxP, minP, maxP) == ApproachView.Rescale(maxP, minP, maxP);
      ApproachView.RescaleBounds(visible[k].percent, minP, maxP);
      var d := CorridorDisplay(visible[k].percent, minP, maxP);
      assert 0.0 <= d / 100.0 * 59.0 <= 59.0;
      RoundBetween(d / 100.0 * 59.0, 0, 59);
    }
  }

  /** The finished rail is 60 characters. The vehicle's cell shows '▶' when
      it is on the rail; any other cell is blank exactly when no station
      falls on it, and otherwise shows a station's mark. */
  lemma RailProperties(visible: seq<RouteStation>, origin: string, trainPercent: Option<real>)
    requires trainPercent.Some? ==> |visible| >= 1
    ensures |Rail(visible, origin, trainPercent)| == CorridorWidth
    ensures trainPercent.Some? && 0 <= RailPos(visible, trainPercent.value) < CorridorWidth ==>
              Rail(visible, origin, trainPercent)[RailPos(visible, trainPercent.value)] == '▶'
    ensures forall i :: 0 <= i < CorridorWidth && (trainPercent.None? || i != RailPos(visible, trainPercent.value)) ==>
              && (Rail(visible, origin, trainPercent)[i] == '─' <==>
                    forall j :: 0 <= j < |visible| ==> RailPos(visible, visible[j].percent) != i)
              && (Rail(visible, origin, trainPercent)[i] != '─' ==>
                    exists j :: 0 <= j < |visible| && RailPos(visible, visible[j].percent) == i
                      && Rail(visible, origin, trainPercent)[i] == StationMark(visible[j], origin))
  {
    forall i | 0 <= i < CorridorWidth
      ensures RailAfter(visible, origin, |visible|)[i] != '─' <==>
                exists j :: 0 <= j < |visible| && RailPos(visible, visible[j].percent) == i
      ensures RailAfter(visible, origin, |visible|)[i] != '─' ==>
                exists j :: 0 <= j < |visible| && RailPos(visible, visible[j].percent) == i
                  && RailAfter(visible, origin, |visible|)[i] == StationMark(visible[j], origin)
    {
      RailAfterMarks(visible, origin, |visible|, i);
    }
  }

  /** On a valid route every station of the corridor window is drawn: its
      cell is on the rail and not blank unless the vehicle covers it. */
  lemma CorridorStationsDrawn(route: seq<RouteStation>, origin: string, fix: Option<TrainFix>, k: nat)
    requires fix.Some? ==> fix.value.stationIdx < |route|
    requires ValidRoute(route)
    requires k < |CorridorVisible(route, origin, fix)|
    ensures var v := CorridorVisible(route, origin, fix);
            var tp := if fix.Some? then Some(fix.value.percent) else None;
            var pos := RailPos(v, v[k].percent);
            && 0 <= pos < CorridorWidth
            && Rail(v, origin, tp)[pos] != '─'
  {
    var v := CorridorVisible(route, origin, fix);
    var tp := if fix.Some? then Some(fix.value.percent) else None;
    CorridorVisibleProperties(route, origin, fix);
    StationPosBounds(v, k);
    var pos := RailPos(v, v[k].percent);
    RailAfterMarks(v, origin, |v|, pos);
    RailProperties(v, origin, tp);
  }

  // ---------------------------------------------------------------- status

  /** The status line. */
  function Status(origin: string, etaToOrigin: int): string {
    if etaToOrigin > 0 then "ARRIVAL at " + origin + " in " + NatToString(etaToOrigin) + "m"
    else "DEPARTED from " + origin
  }

  /** The status for the selected train: its listed ETA clamped at 0, and 0
      when it is not listed (`getRealTimeETA` of this view). */
  function CorridorStatus(origin: string, trainNumber: string, originPredictions: seq<TrainPrediction>): string {
    Status(origin, HorizontalView.RealTimeETA(trainNumber, originPredictions))
  }

  /** With minutes left the line reads as arriving, and those minutes can
      be read back from it; otherwise it reads as departed. */
  lemma StatusProperties(origin: string, eta: int)
    ensures eta > 0 ==> Status(origin, eta)[..11] == "ARRIVAL at "
    ensures eta > 0 && NoDigits(origin) ==> EtaCalculations.ExtractETAMinutes(Status(origin, eta)) == eta
    ensures eta <= 0 ==> Status(origin, eta) == "DEPARTED from " + origin
  {
    if eta > 0 {
      var prefix := "ARRIVAL at " + origin + " in ";
      assert Status(origin, eta) == prefix + NatToString(eta) + "m";
      assert Status(origin, eta)[..11] == prefix[..11];
      if NoDigits(origin) {
        HorizontalView.NoDigitsConcat("ARRIVAL at ", origin);
        HorizontalView.NoDigitsConcat("ARRIVAL at " + origin, " in ");
        EtaCalculations.ExtractAfterPrefix(prefix, eta, "m");
      }
    }
  }

  /** An unlisted train reads as departed; otherwise the line follows the
      library's ETA for the train. */
  lemma CorridorStatusProperties(origin: string, trainNumber: string, preds: seq<TrainPrediction>)
    ensures FindTrain(preds, trainNumber).None? ==> CorridorStatus(origin, trainNumber, preds) == "DEPARTED from " + origin
    ensures CorridorStatus(origin, trainNumber, preds) == Status(origin, EtaCalculations.TrainETAFromPredictions(trainNumber, preds))
  {
    HorizontalView.RealTimeETAIsLibraryETA(trainNumber, preds);
  }
}
