# railtime, modelled in Dafny

railtime is a Caltrain live tracker. Its server route reads the 511.org
real-time feed and turns it into departure-board rows. Two build scripts turn
the GTFS stop and stop-time tables into a station list and a per-trip
schedule. The client components then place a train on a normalised 0–100 %
line between the stations. From a train's GPS fix or its board ETAs they work
out its position, the stations it has passed, the next stop, the stations
drawn and the ETA of every station.

This project models that computational core in Dafny and proves properties
of the model:

- **Builtins**: the JavaScript built-ins the core leans on. These are the
  `\d+` match, `parseInt`, `Number`, `split`, `replace` with a string
  pattern, `trim`, `padStart`, `repeat` and `Math.round`.
- **Types**: the records of `lib/types.ts`. **Sorting**: a stable sort by
  an integer key, and the first-minimum scan.
- **Geometry**: the station normalisation every view repeats. It sorts by
  `parseInt(stop1)`, accumulates the distance and divides by the total.
  **Locator**: the GPS locator `getTrainPercent` and its nearest-station
  variant.
- **EtaCalculations** (`lib/etaCalculations.ts`): ETA strings, station
  percents and the piecewise-linear station ETAs.
- **PredictionsRoute** (`app/api/predictions/route.ts`): the board rows built
  from the feed. This covers direction, train type, scheduled time and
  delay, the freshness filter and the sort by timestamp.
- **BuildStations** and **BuildSchedule**: the two build scripts.
- One module per view component: **ApproachView**, **HorizontalView**,
  **ProgressView**, **TimelineView** and **CorridorView**. **Display**
  (`CaltrainDisplay.tsx`) covers the direction filter and the auto-selected
  train.

The code works step by step where the source does: loops that build maps or
arrays, the array insertion sort in place, the `Selection` class whose method
updates its field. The loops and the class are `method`s proved equal to a
specification function, and the properties are then proved about that
function. The insertion sort `PredictionsRoute.SortByTimestamp` is proved
sorted and a permutation of its input instead.

Things the model receives as parameters are not modelled. These are the
distance function (haversine), `parseFloat`, the clock formatter, the
current time and time zones. The lemmas assume of them only what the source
relies on; for the distance, that it is non-negative. The grouping lemmas of
the stations script also take the station-name cleaner as a parameter, and
the build passes them the modelled `BuildStations.CleanName`.

Numbers are modelled as mathematical integers and reals. JavaScript's `NaN`
is `None` wherever the source can produce it and then compares it.

## Model

| member | source | states |
|---|---|---|
| Builtins.NatToString | app/api/predictions/route.ts:76 | `` `${n}` `` is a non-empty digit string with no leading zero, whose decimal value is n |
| Builtins.FirstDigitRun | lib/etaCalculations.ts:8 | `s.match(/\d+/)` is null exactly when s has no digit; otherwise it is a non-empty run of digits |
| Builtins.ParseInt | lib/etaCalculations.ts:9 | `parseInt` of a non-empty digit string is its decimal value |
| Builtins.DigitsValueZeroPrefix | scripts/build-schedule.ts:61 | a leading `0` does not change a digit string's `Number` value |
| Builtins.LeadingDigitsOfDigitsThen | lib/etaCalculations.ts:8 | the digit run of digits followed by a non-digit is those digits |
| Builtins.SplitOfJoin | scripts/build-schedule.ts:61 | splitting `a + c + b` at c, where a has no c, gives a and then the first part of b |
| Builtins.FindFrom | scripts/build-stations.ts:42-45 | the first occurrence of a pattern at or after i: it occurs there, and nowhere between i and it; None means nowhere at all |
| Builtins.RemoveFirst | scripts/build-stations.ts:42-45 | `replace(pat, '')` leaves s as it is when pat does not occur; otherwise it is s with exactly the first occurrence cut out, the text before and after it kept |
| Builtins.TrimStart | scripts/build-stations.ts:46 | the result is a suffix of s; everything cut is white space; it does not start with white space |
| Builtins.TrimEnd | scripts/build-stations.ts:46 | the result is a prefix of s; everything cut is white space; it does not end with white space |
| Builtins.Trim | scripts/build-stations.ts:46 | `trim()` neither begins nor ends with white space, and is a piece of its input with only white space cut from either end |
| Builtins.Repeat | components/TerminalTimelineView.tsx:243 | `c.repeat(n)` is n copies of c |
| Builtins.PadStart2 | scripts/build-schedule.ts:68 | `padStart(2, '0')` is s itself when s is two or more long; otherwise s padded on the left with `0`s to exactly two characters |
| Builtins.Round | lib/etaCalculations.ts:151 | `Math.round(x)` is within half a unit of x, halves rounded up |
| Builtins.RoundBetween | lib/etaCalculations.ts:151 | rounding a value between two integers stays between them |
| Builtins.TruncDiv | app/api/predictions/route.ts:73-75 | division truncating toward zero: for a non-negative dividend the quotient is the largest whose multiple does not pass it, for a negative one the smallest |
| Types.FindTrain | lib/etaCalculations.ts:19 | `find` by train number: the index found holds the number and no earlier row does; None means no row does |
| Types.FindTrainFirst | lib/etaCalculations.ts:19 | the first row holding the number is the one `find` returns |
| Types.FindStationByName | components/CaltrainDisplay.tsx:119-120 | `find` by station name: first match, or None when no station has the name |
| Sorting.InsertBy | lib/etaCalculations.ts:61 | inserting into a sorted sequence keeps it sorted, adds exactly x and loses nothing |
| Sorting.SortBy | lib/etaCalculations.ts:61 | `sort((a, b) => key(a) - key(b))` is sorted by the key, a permutation of its input, and stable: the elements sharing any one key keep their input order |
| Sorting.InsertByWithKey | lib/etaCalculations.ts:61 | inserting into a sorted sequence puts x ahead of nothing that shares its key, so each key's elements keep their order |
| Sorting.FirstMinIn | components/TrainApproachView.tsx:96-105 | the `if (d < min)` scan ends at an index holding the minimum, and every earlier index is strictly larger |
| Clock.HourTo24 | components/TerminalTimelineView.tsx:224-226 | 12 PM stays 12, 12 AM becomes 0, other PM hours gain 12, any other period leaves the hour |
| Clock.ParseCanonical | components/TerminalTimelineView.tsx:222-226 | `h:mm PERIOD` text parses back into its 24-hour hour and its minutes |
| Geometry.SortedStations | components/TrainApproachView.tsx:29-33 | the stations sorted by `parseInt(stop1)`, a permutation of the input, and stations with equal keys in input order |
| Geometry.DivMonotone | components/TrainApproachView.tsx:63 | dividing by the same positive total keeps the order |
| Geometry.ScaleBounds | components/TrainApproachView.tsx:63 | `(d / total) * 100` of distances 0 ≤ a ≤ b ≤ total is ordered and within 0..100 |
| Geometry.ScaleTotal | components/TrainApproachView.tsx:63 | the total itself is placed at 100 |
| Geometry.RouteOf | components/TrainApproachView.tsx:51-64 | each station, in the given order, paired with its cumulative-distance percent |
| Geometry.FindOnRoute | components/TrainApproachView.tsx:164 | `findIndex` by name: the first index holding the name, or None (-1) when no station has it |
| Geometry.NormalizeStations | components/TrainApproachView.tsx:29-64 | sort, accumulate and divide give the specification route of the sorted stations |
| Geometry.PlaceStations | components/TrainApproachView.tsx:61-64 | the `map` that divides by the total places every station at its percent |
| Geometry.CumulativeDistances | components/TrainApproachView.tsx:51-58 | the `map` that grows `totalDist` gives each station its cumulative distance, and the total |
| Geometry.CumDistMonotone | components/TrainApproachView.tsx:51-58 | with non-negative distances the cumulative distance is non-negative and never decreases |
| Geometry.RouteOfValid | components/TrainApproachView.tsx:51-64 | percents never decrease along the route and lie within 0..100 |
| Geometry.RouteEnds | components/TrainApproachView.tsx:61-64 | the first station is at 0 and the last at 100 when the total is positive; a zero total puts every station at 0 |
| EtaCalculations.ExtractETAMinutes | lib/etaCalculations.ts:7-10 | 0 for a string without digits, otherwise the value of its first run of digits |
| EtaCalculations.ExtractAfterPrefix | lib/etaCalculations.ts:7-10 | a number written after a digit-free prefix, and not followed by a digit, reads back as itself (`"14 min"` gives 14) |
| EtaCalculations.FirstRunAfterPrefix | lib/etaCalculations.ts:8 | after a digit-free prefix the first digit run is the one the rest starts with |
| EtaCalculations.TrainETAFromPredictions | lib/etaCalculations.ts:15-24 | 0 when the train has no row; otherwise the extracted ETA of its first row |
| EtaCalculations.PercentMapEntries | lib/etaCalculations.ts:72-75 | the percent map has a key for exactly the route's names, and each holds the percent of the last station with that name |
| EtaCalculations.PercentMapBounds | lib/etaCalculations.ts:72-75 | every value of the map is within 0..100 on a valid route |
| EtaCalculations.StationPercentsKeys | lib/etaCalculations.ts:60-78 | sorting keeps the names: a name is a key exactly when some input station has it |
| EtaCalculations.StationPercentsBounds | lib/etaCalculations.ts:60-78 | with non-negative distances every percent is within 0..100 |
| EtaCalculations.CalculateStationPercents | lib/etaCalculations.ts:60-78 | the method builds the specification percent map of the sorted stations |
| EtaCalculations.SetPercents | lib/etaCalculations.ts:72-75 | the `forEach(… set …)` loop builds the specification map |
| EtaCalculations.RatioInUnit | lib/etaCalculations.ts:125-127 | the ratio of a distance to a larger total is within 0..1, is 1 at the total and strictly inside between |
| EtaCalculations.LerpBetween | lib/etaCalculations.ts:128 | `a + (b - a) * t` with t in 0..1 lies between a and b |
| EtaCalculations.ScaleDown | lib/etaCalculations.ts:122 | `eta * ratio` with ratio in 0..1 lies within 0..eta |
| EtaCalculations.StationEtaAtOrigin | lib/etaCalculations.ts:118-148 | the origin gets its own ETA, except 0 at percent 0 (southbound) or 100 (northbound) |
| EtaCalculations.StationEtaAtDestination | lib/etaCalculations.ts:118-148 | when the percents differ the destination gets exactly its own ETA |
| EtaCalculations.StationEtaBetween | lib/etaCalculations.ts:123-128 | a station strictly between origin and destination gets a convex combination of the two ETAs, with weight strictly inside 0..1 |
| EtaCalculations.StationEtaBeyond | lib/etaCalculations.ts:129-132 | a station beyond the destination gets the destination's ETA |
| EtaCalculations.StationEtaBeforeOrigin | lib/etaCalculations.ts:120-122 | a station at or before the origin gets an ETA within 0..the origin's ETA |
| EtaCalculations.StationEtaBounds | lib/etaCalculations.ts:113-148 | with non-negative ETAs every station's ETA lies between 0 and the larger of the two |
| EtaCalculations.EntryFor | lib/etaCalculations.ts:150-153 | the stored minutes are never negative |
| EtaCalculations.FillEtasEntries | lib/etaCalculations.ts:113-154 | the loop's map has a key for exactly the stations' names, each holding the entry for that name |
| EtaCalculations.InputsOf | lib/etaCalculations.ts:97-105 | the anchor ETAs and percents `calculateStationETAs` derives are in range |
| EtaCalculations.EtasFromEntry | lib/etaCalculations.ts:107-154 | every entry of the result is the entry for its name, and its name is a station's |
| EtaCalculations.CalculateStationETAs | lib/etaCalculations.ts:85-157 | the method computes the specification map |
| EtaCalculations.FillEtaMap | lib/etaCalculations.ts:113-154 | the `stations.forEach` loop computes the specification map |
| EtaCalculations.OriginAbsentGivesEmpty | lib/etaCalculations.ts:104-110 | an origin no station is named after gives an empty map |
| EtaCalculations.AcceptedOriginCoversAllStations | lib/etaCalculations.ts:107-154 | a rejected origin gives an empty map; otherwise every station name has an entry and nothing else does |
| EtaCalculations.EntriesBounded | lib/etaCalculations.ts:151 | every entry is whole minutes within 0..the larger anchor ETA |
| EtaCalculations.EntryForBounded | lib/etaCalculations.ts:150-153 | an entry's minutes are within 0..the larger anchor; its arrival text is the formatted time that many minutes from now |
| EtaCalculations.OriginEntry | lib/etaCalculations.ts:118-137 | the origin's entry is the origin's ETA, or 0 at the start (southbound) or end (northbound) of the line |
| EtaCalculations.DestinationEntry | lib/etaCalculations.ts:123-143 | a given destination at a percent other than the origin's gets exactly the destination's ETA |
| EtaCalculations.NoDestinationDefaults | lib/etaCalculations.ts:98-105 | without a destination both anchors are the origin's ETA and the destination sits at 100 |
| BuildStations.CleanName | scripts/build-stations.ts:40-47 | a cleaned name neither begins nor ends with white space |
| BuildStations.CleanNameFixes | scripts/build-stations.ts:40-47 | a trimmed name with none of the four words is left as it is |
| BuildStations.CleanNameIdempotentOnClean | scripts/build-stations.ts:40-47 | cleaning a cleaned name that has none of the four words changes nothing |
| BuildStations.StripInOrder | scripts/build-stations.ts:41-45 | for any four words that begin with their only space, the four first-occurrence removals take a name that carries any of them in that order back to its base |
| BuildStations.CleanNameStripsSuffixes | scripts/build-stations.ts:40-47 | a bare name carrying " Caltrain", " Station" and a direction, each optional, cleans back to the bare name |
| BuildStations.GroupStepValid | scripts/build-stations.ts:49-79 | one row keeps the map well-formed, with stop1 odd and stop2 even |
| BuildStations.GroupAllValid | scripts/build-stations.ts:49-79 | after all rows, keys are the map's domain each once, every stop1 is an odd id and every stop2 an even one |
| BuildStations.GroupStepKeepsNames | scripts/build-stations.ts:64-69 | a key once present stays, and its name and url name do not change |
| BuildStations.FirstStopNamesTheGroup | scripts/build-stations.ts:62-69 | a group's name and url name come from the first accepted stop that has its key |
| BuildStations.SkippedRowChangesNothing | scripts/build-stations.ts:52-53 | a parent station or a non-numeric id leaves the map as it was |
| BuildStations.AcceptedRowWrites | scripts/build-stations.ts:55-78 | an odd id writes stop1, lat and lon of its group and an even id writes stop2; no other field or group changes |
| BuildStations.GroupStops | scripts/build-stations.ts:49-79 | the grouping loop computes the specification map |
| BuildStations.CompleteStationsFrom | scripts/build-stations.ts:82-84 | every kept station comes from a complete group |
| BuildStations.CompleteStationsKeep | scripts/build-stations.ts:82-84 | every complete group is kept |
| BuildStations.BuildFrom | scripts/build-stations.ts:28-88 | the script, apart from its I/O, computes the specification table |
| BuildStations.BuildStationTable | scripts/build-stations.ts:28-88 | the same with the script's own `cleanName` |
| BuildStations.StationsOfProperties | scripts/build-stations.ts:82-85 | the table is sorted by stop1; each station has an odd stop1, an even stop2, a name and non-zero coordinates |
| BuildStations.StationsOfMembers | scripts/build-stations.ts:82-85 | no complete group is lost |
| Locator.Dists | components/TrainApproachView.tsx:99-100 | the vehicle's distance to every station, in route order |
| Locator.FindClosest | components/TrainApproachView.tsx:96-105 | the `minD` scan ends at the first station at the least distance |
| Locator.GetTrainPercent | components/TrainApproachView.tsx:89-154 | null without a vehicle position; otherwise the specification fix, with the reassigned indices and factor |
| Locator.TryPrevSegment | components/TrainApproachView.tsx:112-127 | the segment ending at the nearest station when it is accepted, with factor `distToPrev / segmentLength`; otherwise that station alone with factor 0 |
| Locator.TryNextSegment | components/TrainApproachView.tsx:129-142 | the segment starting at the nearest station when it is tried and accepted; otherwise the indices and factor so far |
| Locator.FixStationIsNearest | components/TrainApproachView.tsx:96-105 | the reported station is at the least distance, and every earlier station is strictly farther |
| Locator.InterpolatedIffAccepted | components/TrainApproachView.tsx:145-153 | `isInterpolated` holds exactly when a segment was accepted; otherwise the percent is the nearest station's own |
| Locator.PrevOnlyIgnoresNext | components/TerminalCorridorView.tsx:62-104 | the corridor's copy interpolates exactly when the previous segment is accepted, and then along that segment |
| Locator.FactorBounds | components/TrainApproachView.tsx:123-126 | an accepted segment gives a factor within 0..1.2 |
| Locator.InterpolateBounds | components/TrainApproachView.tsx:145-147 | the interpolated percent is at least the start's and at most 1.2 segments past it |
| Locator.FixBounds | components/TrainApproachView.tsx:89-154 | on a valid route the percent lies within 0..120 |
| Locator.OvershootExample | components/TrainApproachView.tsx:123-126 | stations 10 apart at 0 % and 100 % with the vehicle 1 past the second: the train is drawn at 110 % |
| Locator.NearestProgressBounds | components/prototypes/AnimatedProgressView.tsx:93-112 | the nearest-station progress is within 0..1, and is a station's percent over 100 |
| Locator.GetNearestProgress | components/prototypes/AnimatedProgressView.tsx:93-112 | the scan as the views write it computes the specification progress |
| PredictionsRoute.ChosenTimestamp | app/api/predictions/route.ts:63-67 | `Departure?.Time \|\| Arrival?.Time`: the departure when truthy, else the arrival when truthy, else none; never 0 |
| PredictionsRoute.EtaLabelReadsBack | app/api/predictions/route.ts:75-76 | the `"Now"` / `"N min"` label reads back through `extractETAMinutes` as the minutes clamped at 0 |
| PredictionsRoute.DirectionOf | app/api/predictions/route.ts:79-80 | SB exactly for an even numeric id; NB otherwise, including a NaN id |
| PredictionsRoute.DirectionByLastDigit | app/api/predictions/route.ts:79-80 | for a numeric id the direction is that of its last digit: odd is NB |
| PredictionsRoute.TrainTypeOf | app/api/predictions/route.ts:83-90 | Local exactly for a first character 1 or 2, Limited for 3 to 6, Bullet otherwise (the empty id included) |
| PredictionsRoute.ScheduledTimeFor | app/api/predictions/route.ts:99-115 | the scheduled text when present and non-empty, otherwise the predicted clock text |
| PredictionsRoute.ClassifyThresholds | app/api/predictions/route.ts:136-142 | early exactly at ≤ -2 minutes, delayed at ≥ 2, on-time strictly between |
| PredictionsRoute.DelayOf | app/api/predictions/route.ts:118-146 | the delay fields exist exactly when the scheduled text is non-empty and differs from the predicted one |
| PredictionsRoute.DelayOfClockText | app/api/predictions/route.ts:121-142 | for `h:mm PERIOD` text the delay is the truncated minute difference from that clock time today, under the 12 AM/PM rules, with its status |
| PredictionsRoute.StopIdsFor | app/api/predictions/route.ts:50 | the static trip's stop list whenever the key is present, even empty; otherwise the updates' stop ids in order |
| PredictionsRoute.RecordExistsIff | app/api/predictions/route.ts:56-73 | an update gives a row exactly when its stop is one of the two, it has a truthy timestamp, and it is at most 5 whole minutes past |
| PredictionsRoute.RecordFields | app/api/predictions/route.ts:148-161 | the row pushed carries the trip, route, stop, stop list, timestamp, predicted text, ETA label, direction, type and scheduled text the update and the tables determine, and the delay `DelayOf` gives for that scheduled text against the predicted one |
| PredictionsRoute.RecordsOfUpdatesFresh | app/api/predictions/route.ts:52-162 | every row of one trip is fresh and carries the trip's number and stop list |
| PredictionsRoute.RecordsOfTripsFresh | app/api/predictions/route.ts:44-163 | every row of one feed entry is fresh |
| PredictionsRoute.RecordsOfFeedFresh | app/api/predictions/route.ts:43-164 | every row of the feed is for one of the two stops, has a truthy timestamp and is at most 5 minutes stale |
| PredictionsRoute.PushUpdates | app/api/predictions/route.ts:52-162 | the innermost loop appends exactly the trip's rows, in update order |
| PredictionsRoute.PushTrips | app/api/predictions/route.ts:44-163 | the middle loop appends the rows of every trip, in feed order |
| PredictionsRoute.PushFeed | app/api/predictions/route.ts:43-164 | the outer loop collects the rows of the whole feed |
| PredictionsRoute.SortByTimestamp | app/api/predictions/route.ts:167 | the in-place sort leaves the rows ordered by timestamp and is a permutation |
| PredictionsRoute.SiftDown | app/api/predictions/route.ts:167 | one element moved into the sorted prefix extends it by one, as a permutation |
| PredictionsRoute.SwapDown | app/api/predictions/route.ts:167 | exchanges two neighbours and nothing else |
| PredictionsRoute.GetPredictions | app/api/predictions/route.ts:11-173 | a 400 error exactly when a parameter is missing; otherwise the feed's rows sorted by timestamp, as a permutation |
| PredictionsRoute.ReturnedRowsFresh | app/api/predictions/route.ts:166-169 | every returned row is fresh |
| BuildSchedule.DisplayHour | scripts/build-schedule.ts:67 | `h % 12 \|\| 12` is within 1..12 and agrees with h mod 12 |
| BuildSchedule.FormatGtfsTime | scripts/build-schedule.ts:59-71 | `""` for `""`; it succeeds exactly when the text is empty or has a minutes part (otherwise `m.toString()` throws) |
| BuildSchedule.SplitGtfsClock | scripts/build-schedule.ts:61 | splitting `HH:MM[:SS]` on `:` gives back the hour and minute text |
| BuildSchedule.FormatShape | scripts/build-schedule.ts:59-71 | `HH:MM[:SS]` formats as hour-mod-24 on the 12-hour clock, then the minute digits, exactly two when the minutes are below 100, then PM exactly past noon |
| BuildSchedule.TwoMinuteDigits | scripts/build-schedule.ts:68 | minutes below 100, as GTFS minutes are, pad to exactly two digits |
| BuildSchedule.PadStart2Digits | scripts/build-schedule.ts:68 | the padded minutes read back as the number they came from |
| BuildSchedule.DisplayHourRoundTrip | scripts/build-schedule.ts:64-67 | the 12-hour hour and its period convert back to the 24-hour hour |
| BuildSchedule.FormatThenParse | scripts/build-schedule.ts:59-71 | the endpoint's clock parser reads the formatted text back as the hour mod 24 and the minute |
| BuildSchedule.TripStopsInRowOrder | scripts/build-schedule.ts:43-46 | a trip has a stop list exactly when some row is for it; the list is its rows' stop ids in order, duplicates kept |
| BuildSchedule.StopsOfTripAbsent | scripts/build-schedule.ts:43-46 | a trip with no rows has no stops |
| BuildSchedule.ScheduleKeys | scripts/build-schedule.ts:35-40 | the timetable has an entry for a trip and stop exactly when some row is for them |
| BuildSchedule.ScheduleLastRowWins | scripts/build-schedule.ts:40 | the entry holds the formatted time of the last row for that trip and stop |
| BuildSchedule.BuildScheduleTables | scripts/build-schedule.ts:19-57 | the TypeError exactly when some row has no minutes part; otherwise both specification tables |
| BuildSchedule.FillTables | scripts/build-schedule.ts:30-47 | the row loop with the formatter as a parameter: failure exactly when some row fails to format, otherwise both tables |
| BuildSchedule.RowStep | scripts/build-schedule.ts:35-46 | one more row sets its trip and stop's time and appends its stop to its trip's list |
| HorizontalView.MatchedMinutesIsExtract | components/prototypes/EnhancedHorizontalView.tsx:220 | the view's inline digit match is the library's `extractETAMinutes` |
| HorizontalView.RealTimeETAIsLibraryETA | components/prototypes/EnhancedHorizontalView.tsx:217-224 | `getRealTimeETA` is `getTrainETAFromPredictions`, so never negative |
| HorizontalView.FindStationById | components/prototypes/EnhancedHorizontalView.tsx:231 | `find` by stop id: the first station whose stop1 or stop2 is the id, or None when none is |
| HorizontalView.DestinationProperties | components/prototypes/EnhancedHorizontalView.tsx:229-233 | a truthy given destination wins; otherwise a named station serving the last stop id, and none when there are no stops or no station serves it |
| HorizontalView.ReachedOriginScaleMismatch | components/prototypes/EnhancedHorizontalView.tsx:237 | with the origin at 50 % and the train at 1 %, the test as written says the origin is reached and the corrected test says it is not |
| HorizontalView.ReachedOriginMeaning | components/prototypes/EnhancedHorizontalView.tsx:237 | the corrected test holds exactly when the train's percent is at or above the origin's; the two disagree exactly between a hundredth of the origin's percent and the percent itself |
| HorizontalView.ArrivingText | components/prototypes/EnhancedHorizontalView.tsx:254 | the not-reached headline is `Arriving at <origin> in <N>m`, and N reads back from it when the origin's name has no digits |
| HorizontalView.HeadlineBeforeOrigin | components/prototypes/EnhancedHorizontalView.tsx:237-254 | as written: while the vehicle's percent is below a hundredth of the origin's the headline gives the minutes, which read back from it; from there on it announces the destination |
| HorizontalView.CorrectedHeadlineBeforeOrigin | components/prototypes/EnhancedHorizontalView.tsx:237-254 | with the corrected test: the minutes until the vehicle reaches the origin's percent, the destination from there on |
| ApproachView.ApproachWindowProperties | components/TrainApproachView.tsx:176-214 | the viewport lies within the stations and holds the focus; a short path is the ideal window and also holds the origin; a long one holds at most 12 stations, starting 2 behind the focus southbound and ending 2 behind it northbound |
| ApproachView.ComputeWindow | components/TrainApproachView.tsx:187-214 | the bounds the component reassigns are the viewport above |
| ApproachView.WindowInRange | components/TrainApproachView.tsx:187-214 | the viewport's start is at most its end, and its end is a station index |
| ApproachView.RescaleBounds | components/TrainApproachView.tsx:219-227 | a slice with length maps its first percent to 0, its last to 100 and everything between into [0, 100]; one without length shows every station at 50 |
| ApproachView.RescaleMonotone | components/TrainApproachView.tsx:226 | rescaling with a positive range keeps the order of percents in both directions |
| ApproachView.Unscaled | components/TrainApproachView.tsx:229-235 | without the origin every station is shown at its own percent |
| ApproachView.RescaledProperties | components/TrainApproachView.tsx:216-228 | a rescaled slice of a valid route keeps its stations in order, with display percents in [0, 100], 0 first and 100 last when it has length and 50 everywhere when it has none |
| ApproachView.ValidRouteSlice | components/TrainApproachView.tsx:216 | a slice of a valid route is a valid route |
| ApproachView.ApproachVisibleProperties | components/TrainApproachView.tsx:176-235 | without the origin the whole route keeps its percents; with it the stations drawn are exactly the viewport's slice, rescaled |
| ApproachView.ApproachVisibleWindow | components/TrainApproachView.tsx:176-216 | the focus is the vehicle's nearest station when there is a fix and the origin otherwise |
| ApproachView.WindowVisibleSlice | components/TrainApproachView.tsx:216-228 | the stations drawn are the slice from the viewport's start to its end inclusive, rescaled |
| ApproachView.TrainDisplayOnWholeRoute | components/TrainApproachView.tsx:241-249 | without the origin and on a route from 0 to 100, the vehicle's display percent is its route percent |
| ApproachView.PassedByRoutePercent | components/TrainApproachView.tsx:433-447 | on a slice with length, passed by display percent is passed by route percent: above the vehicle northbound, below it southbound |
| ApproachView.PassedInOneDirection | components/TrainApproachView.tsx:433-447 | a station off the vehicle's mark counts as passed in exactly one of the two directions |
| ApproachView.CandidatesMembers | components/TrainApproachView.tsx:697-710 | the candidates are exactly the route stations ahead of the vehicle whose directional stop id is one of the train's stops |
| ApproachView.NoCandidates | components/TrainApproachView.tsx:697-712 | with no station ahead and scheduled, the candidate list is empty |
| ApproachView.Gaps | components/TrainApproachView.tsx:715-719 | one distance per candidate, the absolute percent difference to the vehicle |
| ApproachView.NextStopProperties | components/TrainApproachView.tsx:693-721 | "--" without a fix; "Terminus" with no station ahead and scheduled; otherwise the name of a station ahead and scheduled that no other such station is nearer to |
| ApproachView.NextStopNearest | components/TrainApproachView.tsx:712-721 | with a candidate, the label names a nearest candidate |
| ApproachView.NearestCandidate | components/TrainApproachView.tsx:715-721 | the first candidate at the least distance is a candidate on the route that no other candidate is nearer to |
| ApproachView.NextStopName | components/TrainApproachView.tsx:693-721 | the label the component builds is the specification's next stop |
| ApproachView.CollectCandidates | components/TrainApproachView.tsx:697-710 | the filter pass yields exactly the candidate list, in route order |
| ApproachView.FirstNearest | components/TrainApproachView.tsx:715-721 | the head of the stable distance sort is the first minimum of the distances |
| ProgressView.RealTimeETAOrProperties | components/prototypes/AnimatedProgressView.tsx:115-122 | a listed train's ETA is the library's reading of its prediction; an unlisted one reads the train's own ETA text; never negative |
| ProgressView.PassedInclusiveOrdered | components/prototypes/AnimatedProgressView.tsx:137-143 | on a valid route the stations passed southbound form a prefix and those passed northbound a suffix |
| ProgressView.ReachedOriginAgrees | components/prototypes/AnimatedProgressView.tsx:145-146 | this view's test, on the 0-1 progress, is the corrected horizontal-view test on the 0-100 percent |
| ProgressView.DestinationEtaProperties | components/prototypes/AnimatedProgressView.tsx:157-165 | a non-zero destination ETA is kept; the fallback is never negative, equals the origin ETA when the percents agree and is at least it when the destination lies beyond the origin; without positive percents a zero stays zero |
| ProgressView.StationEtaMinutes | components/prototypes/AnimatedProgressView.tsx:178-193 | the minutes shown are -1 exactly for a station missing from the map while loading, and never below -1 |
| ProgressView.AllIndices | components/prototypes/AnimatedProgressView.tsx:197-200 | without the origin every station index, in order |
| ProgressView.IntervalStep | components/prototypes/AnimatedProgressView.tsx:208-215 | adding index i to the indices lo up to i - 1 gives the indices lo up to i |
| ProgressView.VisibleIndices | components/prototypes/AnimatedProgressView.tsx:196-228 | without the origin all indices; with it the indices, strictly ascending, of exactly the origin, up to two neighbours on each side and the destination |
| ProgressView.VisibleSetBelow | components/prototypes/AnimatedProgressView.tsx:202-223 | every index added is a station index |
| ProgressView.SortedMembers | components/prototypes/AnimatedProgressView.tsx:225-226 | the set's members, strictly ascending, and nothing else |
| ProgressView.StationsAt | components/prototypes/AnimatedProgressView.tsx:227 | the stations at the given indices, in the same order |
| ProgressView.VisibleStations | components/prototypes/AnimatedProgressView.tsx:196-228 | the stations drawn: the whole route without the origin, otherwise the stations at the visible indices in route order |
| ProgressView.HiddenAndVisibleDisjoint | components/prototypes/AnimatedProgressView.tsx:231-250 | with the destination not before the origin, the hidden-before, visible and hidden-after sets do not overlap and together cover every station up to the last one shown |
| TimelineView.StrictAndInclusive | components/TerminalTimelineView.tsx:148-159 | this view's strict passed test implies the progress view's inclusive one, and the two differ exactly for a station level with the train |
| TimelineView.TimelineDestination | components/TerminalTimelineView.tsx:108 | the destination index is looked up exactly when a non-empty destination was passed, and for that destination |
| TimelineView.VisibleStations | components/TerminalTimelineView.tsx:111-132 | the whole route without the origin; otherwise the stations at the origin, up to two neighbours on each side and the passed destination, in route order |
| TimelineView.HiddenSets | components/TerminalTimelineView.tsx:134-142 | a missing origin hides nothing before it, a missing destination nothing after the origin, and the stations hidden before lie more than two before the origin |
| TimelineView.TimeInfoPrecedence | components/TerminalTimelineView.tsx:163-209 | the origin's prediction wins, then the destination's, then the ETA map with its arrival time as the scheduled time, then -1 while loading, then 0; a departure is known exactly from a prediction |
| TimelineView.IsStationPassed | components/TerminalTimelineView.tsx:212-236 | the check as written is the specification's: the departure, else the scheduled time, set on today's date and compared with now |
| TimelineView.StationPassedProperties | components/TerminalTimelineView.tsx:212-236 | no known time means not passed; a departure outranks the scheduled time; passed needs a time that parses |
| TimelineView.PassedAtCanonicalTime | components/TerminalTimelineView.tsx:220-232 | a departure written as digits, a colon, digits, a space and a period has passed exactly when that 24-hour minute of today is before now |
| TimelineView.DisplayIsChecked | components/TerminalTimelineView.tsx:291 | the time shown is the time checked whenever one is known, and "--:--" otherwise |
| TimelineView.ProgressBarShape | components/TerminalTimelineView.tsx:239-244 | for a percent in 0..100 the bar is 22 characters, brackets around round(percent / 5) filled cells and then empty ones; it throws exactly for a cell count outside 0..20 |
| TimelineView.RelativeLabelCases | components/TerminalTimelineView.tsx:277-288 | each label holds under exactly its condition, and the minutes read back from an "in Nm" label are the minutes |
| Display.JourneyDirection | components/CaltrainDisplay.tsx:116-127 | a direction is set exactly with a destination filter and both stations found, and it is SB exactly when both platform ids parse and the origin's is the lower |
| Display.FilteredIsDirection | components/CaltrainDisplay.tsx:129-146 | with no direction in force every prediction is kept as it is; otherwise exactly those travelling in the journey's direction, in order |
| Display.OnlyDirectionConcat | components/CaltrainDisplay.tsx:129-149 | selecting by direction from a concatenation concatenates the selections |
| Display.OnlyDirectionMembers | components/CaltrainDisplay.tsx:148-149 | the selection holds exactly the predictions in that direction, none more often than the input |
| Display.DirectionSplit | components/CaltrainDisplay.tsx:148-149 | the NB and SB lists hold each filtered prediction exactly once between them, and share none |
| Display.SplitCounts | components/CaltrainDisplay.tsx:148-149 | the NB and SB lists together are a permutation of the filtered list |
| Display.AutoSelectProperties | components/CaltrainDisplay.tsx:151-160 | nothing is selected exactly when nothing is listed; a listed train stays selected; whatever is selected is listed by number; running the effect again changes nothing |
| Display.Selection.constructor | components/CaltrainDisplay.tsx:151-160 | no train is selected at first |
| Display.Selection.AutoSelect | components/CaltrainDisplay.tsx:151-160 | the effect sets the selection to the auto-selected train for the list, both checks reading the selection it started with |
| CorridorView.ComputeCorridorWindow | components/TerminalCorridorView.tsx:116-126 | the bounds the view computes, with the start slid back, are the corridor window |
| CorridorView.CorridorWindowProperties | components/TerminalCorridorView.tsx:117-125 | the window holds the focus, has exactly min(12, n) stations and starts 3 before the focus unless the end of the route pins it |
| CorridorView.CorridorVisibleProperties | components/TerminalCorridorView.tsx:109-126 | without the origin every station; with it a contiguous run of min(12, n) stations holding the vehicle's nearest station, or the origin without a fix; on a valid route its percents never decrease |
| CorridorView.Place | components/TerminalCorridorView.tsx:140-142 | writing a cell changes that cell and only it, and only when it is on the rail |
| CorridorView.RailAfter | components/TerminalCorridorView.tsx:129-143 | the rail stays 60 cells long as stations are drawn |
| CorridorView.BuildRail | components/TerminalCorridorView.tsx:129-156 | the line the view fills in place is the specification's rail |
| CorridorView.RailAfterMarks | components/TerminalCorridorView.tsx:133-143 | a cell is marked exactly when one of the stations drawn so far falls on it, and then with the mark of such a station |
| CorridorView.StationPosBounds | components/TerminalCorridorView.tsx:133-139 | in a window whose percents never decrease every station lands on the rail, the first at cell 0 and the last at cell 59 when they differ |
| CorridorView.RailProperties | components/TerminalCorridorView.tsx:129-156 | the vehicle's cell shows the train when it is on the rail; every other cell is blank exactly when no station falls on it, and otherwise shows a station's mark |
| CorridorView.CorridorStationsDrawn | components/TerminalCorridorView.tsx:109-156 | on a valid route every station of the window is drawn on a cell of the rail, which is not blank |
| CorridorView.StatusProperties | components/TerminalCorridorView.tsx:215-218 | with minutes left the line reads as arriving, and the minutes read back from it when the origin's name has no digit; otherwise it reads as departed |
| CorridorView.CorridorStatusProperties | components/TerminalCorridorView.tsx:158-218 | an unlisted train reads as departed; otherwise the line follows the library's ETA for the train |

## Left out

- Network, files and the console: `fetch` of the 511.org feeds and the response plumbing of `app/api/predictions/route.ts`, `app/api/vehicle-positions/route.ts`, the fetch wrappers of `lib/caltrain.ts`, and the CSV reading and JSON writing of the two scripts. Their results are the model's input sequences and maps.
- The haversine `getDistance` is floating-point trigonometry. It is the `dist` parameter, of which only non-negativity is assumed.
- Floating point in general: percents, factors and ETAs are reals, so rounding error, `Infinity` and IEEE corner cases are not modelled.
- Dates and time zones: `new Date()`, `toLocaleTimeString` in America/Los_Angeles and `setHours` in local time. The current time and today's midnight are integer milliseconds given as parameters, and the clock formatter is the `fmt` / `clockText` parameter.
- `differenceInMinutes` comes from a library outside this repository. It is assumed to truncate the millisecond difference toward zero (`Builtins.TruncDiv`).
- React: `useState`, `useEffect`, the refresh timers, async sequencing, JSX, CSS and themes. The auto-select effect is the `Display.Selection` class, run once per new list.
- `parseInt` is modelled as the leading digits of its argument. Leading white space, a sign and hexadecimal prefixes are not modelled, since stop ids and ETA texts are digit strings.
- `Number` is modelled on digit strings only, with the empty string as 0. Every other text, including white-space-padded numbers, is NaN. Integers above 2^53 are exact here.
- Geometry.SortedStations: a stop1 whose `parseInt` is NaN makes the JavaScript comparator inconsistent. The model keys such a station as 0.
- Locator.NearestProgress: requires a non-empty route when there is a vehicle position. `components/prototypes/AnimatedProgressView.tsx:109` reads `normalizedStations[0].percent` of an empty list there and throws; `components/TerminalTimelineView.tsx:88` does the same.
- Locator.NearestProgressBounds: requires a non-empty route when there is a vehicle position, for the reason above.
- Locator.GetNearestProgress: requires a non-empty route when there is a vehicle position, for the reason above.
- Locator.GetTrainPercent: requires every segment between neighbouring stations to have a positive length. A zero length gives `0 / 0` (NaN) in the source.
- Locator.GetTrainPercent: requires a non-empty route when there is a vehicle position. The source reads `normalizedStations[0]` of an empty list, and the view then throws.
- CorridorView.BuildRail: requires a station to be visible when the vehicle is drawn. The source reads `visibleStations[0]` there, and only an empty station list can miss that.
- PredictionsRoute.SortByTimestamp: the sort is proved sorted and a permutation, but the order among rows with equal timestamps is not stated. The engine's `sort` keeps that order.
- The candidate sort of the next-stop label is modelled by its head: the first candidate at the least distance. That is exactly what a stable sort puts first. The rest of the sorted list is never read.
- ApproachView.NextStopProperties: states that the label names some nearest candidate. The tie-break (the first such in route order) is stated by `ApproachView.FirstNearest` and `Sorting.FirstMinIn`, not by this lemma.
- The locator's percent can go past 100. An accepted segment can put the vehicle up to 1.2 segment lengths past its start, so `Locator.FixBounds` bounds the percent by 0..120, and `Locator.OvershootExample` shows a fix at 110 %. This follows from the source's 1.2 tolerance and is kept as written.
- The corridor view's `Progress: N%` line and its list of the first five station labels are presentation and are not modelled.
- `getArrivalTime` and the delay labels (`Nm LATE`, `Nm EARLY`, `ON TIME`) are presentation. The arrival text is the formatter's value.
- A scheduled time whose numbers do not parse gives the source's NaN delay and `on-time` status (`PredictionsRoute.DelayOf`). This is as the source behaves, because `split` and `Number` do not throw there.
- `calculateStationETAs` tests its "origin not found" guard against the unsorted `stations[0]`. That is the station at percent 0 when the list comes sorted by stop1, as the station builder writes it. The model keeps the guard as written (`EtaCalculations.AcceptedOriginCoversAllStations`).
- Object key order and prototype keys of the JavaScript dictionaries: maps are Dafny maps, so only which keys exist and their values are modelled.

## Findings

| source | as written | input that shows it | evidently intended | confidence | as-written member | corrected member |
|---|---|---|---|---|---|---|
| components/prototypes/EnhancedHorizontalView.tsx:237 | `trainReachedOrigin` compares the vehicle's percent, on the 0-100 scale, with `originStation.percent / 100`, on the 0-1 scale | origin at 50 %, vehicle at 1 %: 1 ≥ 0.5, so the headline already reads `Heading to …` | both sides on the same scale, as `components/prototypes/AnimatedProgressView.tsx:146` compares them | not executed | HorizontalView.ReachedOriginScaleMismatch | HorizontalView.CorrectedHeadlineBeforeOrigin |
