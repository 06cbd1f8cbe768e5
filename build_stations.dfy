/** scripts/build-stations.ts: GTFS Schedule `stops.txt` platform rows grouped
    into stations, one odd (northbound) and one even (southbound) stop id
    each, then filtered to complete entries and sorted north to south. The
    CSV is not read here: the parsed rows are the input, and `parseFloat` is a
    parameter (None stands for NaN). */
module BuildStations {
  import opened Wrappers
  import opened Builtins
  import opened Types
  import opened Sorting
  import Geometry

  datatype GtfsStop = GtfsStop(stopId: string, stopName: string, stopLat: string, stopLon: string,
                               parentStation: string, locationType: string)

  type ParseFloat = string -> Option<real>

  // ---------------------------------------------------------------- cleanName

  /** `cleanName`: the first " Caltrain", then the first " Northbound", " Southbound"
      and " Station" removed, in that order, then trimmed. */
  function CleanName(name: string): (r: string)
    ensures r != [] ==> !IsJsSpace(r[0]) && !IsJsSpace(r[|r| - 1])
  {
    Trim(RemoveFirst(RemoveFirst(RemoveFirst(RemoveFirst(name, " Caltrain"), " Northbound"), " Southbound"), " Station"))
  }

  predicate NoOccurrence(s: string, pat: string) {
    forall j :: 0 <= j <= |s| ==> !OccursAt(s, pat, j)
  }

  lemma RemoveFirstAbsent(s: string, pat: string)
    requires NoOccurrence(s, pat)
    ensures RemoveFirst(s, pat) == s
  {
  }

  lemma TrimUntrimmed(s: string)
    requires s == [] || (!IsJsSpace(s[0]) && !IsJsSpace(s[|s| - 1]))
    ensures Trim(s) == s
  {
  }

  /** A name with none of the four suffix words and no surrounding white space
      is already clean. */
  lemma CleanNameFixes(name: string)
    requires NoOccurrence(name, " Caltrain") && NoOccurrence(name, " Northbound")
    requires NoOccurrence(name, " Southbound") && NoOccurrence(name, " Station")
    requires name == [] || (!IsJsSpace(name[0]) && !IsJsSpace(name[|name| - 1]))
    ensures CleanName(name) == name
  {
    RemoveFirstAbsent(name, " Caltrain");
    RemoveFirstAbsent(name, " Northbound");
    RemoveFirstAbsent(name, " Southbound");
    RemoveFirstAbsent(name, " Station");
    TrimUntrimmed(name);
  }

  /** Cleaning a clean name changes nothing. */
  lemma CleanNameIdempotentOnClean(name: string)
    requires NoOccurrence(CleanName(name), " Caltrain") && NoOccurrence(CleanName(name), " Northbound")
    requires NoOccurrence(CleanName(name), " Southbound") && NoOccurrence(CleanName(name), " Station")
    ensures CleanName(CleanName(name)) == CleanName(name)
  {
    CleanNameFixes(CleanName(name));
  }

  /** A space followed by a word with no space in it, as the four suffixes are. */
  predicate SpacedWord(w: string) {
    |w| >= 2 && w[0] == ' ' && forall i :: 1 <= i < |w| ==> w[i] != ' '
  }

  /** A spaced word that does not begin with pat holds no occurrence of pat:
      pat's one space can only sit at the word's start. */
  lemma SpacedWordFree(w: string, pat: string)
    requires SpacedWord(w) && SpacedWord(pat)
    requires !(|pat| <= |w| && w[..|pat|] == pat)
    ensures NoOccurrence(w, pat)
  {
    forall j | 0 <= j <= |w| ensures !OccursAt(w, pat, j) {
      if 0 < j && j + |pat| <= |w| {
        assert w[j..j + |pat|][0] == w[j];
      } else if j == 0 && |pat| <= |w| {
        assert w[j..j + |pat|] == w[..|pat|];
      }
    }
  }

  /** Appending text that starts with a space creates no occurrence of a spaced
      word across the seam. */
  lemma NoOccurrenceAppend(b: string, t: string, pat: string)
    requires SpacedWord(pat) && NoOccurrence(b, pat) && NoOccurrence(t, pat)
    requires t == [] || t[0] == ' '
    ensures NoOccurrence(b + t, pat)
  {
    var s := b + t;
    forall j | 0 <= j <= |s| ensures !OccursAt(s, pat, j) {
      if j + |pat| <= |s| {
        if j >= |b| {
          assert s[j..j + |pat|] == t[j - |b|..j - |b| + |pat|];
          assert !OccursAt(t, pat, j - |b|);
        } else if j + |pat| <= |b| {
          assert s[j..j + |pat|] == b[j..j + |pat|];
          assert !OccursAt(b, pat, j);
        } else {
          assert s[j..j + |pat|][|b| - j] == t[0] == ' ' != pat[|b| - j];
        }
      }
    }
  }

  /** In b + w + t, with w a spaced word b does not contain, the first
      occurrence of w is the one after b, so `replace` cuts exactly it. */
  lemma RemoveWordAfter(b: string, w: string, t: string)
    requires SpacedWord(w) && NoOccurrence(b, w)
    ensures RemoveFirst(b + w + t, w) == b + t
  {
    var s := b + w + t;
    assert s[|b|..|b| + |w|] == w;
    forall j | 0 <= j < |b| ensures !OccursAt(s, w, j) {
      if j + |w| <= |b| {
        assert s[j..j + |w|] == b[j..j + |w|];
        assert !OccursAt(b, w, j);
      } else {
        assert s[j..j + |w|][|b| - j] == s[|b|] == ' ' != w[|b| - j];
      }
    }
    assert s[..|b|] + s[|b| + |w|..] == b + t;
  }

  /** Two optional spaced words, neither beginning with pat, hold no
      occurrence of pat. */
  lemma SuffixFree(u: string, v: string, pat: string)
    requires SpacedWord(pat)
    requires u == [] || (SpacedWord(u) && !(|pat| <= |u| && u[..|pat|] == pat))
    requires v == [] || (SpacedWord(v) && !(|pat| <= |v| && v[..|pat|] == pat))
    ensures NoOccurrence(u + v, pat)
  {
    if u != [] { SpacedWordFree(u, pat); }
    if v != [] { SpacedWordFree(v, pat); }
    NoOccurrenceAppend(u, v, pat);
  }

  /** Removing a spaced word that may stand between b and rest, when neither
      b nor rest holds it, leaves b + rest. */
  lemma StripOptional(b: string, opt: string, rest: string, w: string)
    requires SpacedWord(w) && NoOccurrence(b, w) && NoOccurrence(rest, w)
    requires rest == [] || rest[0] == ' '
    requires opt == [] || opt == w
    ensures RemoveFirst(b + opt + rest, w) == b + rest
  {
    if opt == [] {
      assert b + opt + rest == b + rest;
      NoOccurrenceAppend(b, rest, w);
      RemoveFirstAbsent(b + rest, w);
    } else {
      RemoveWordAfter(b, w, rest);
    }
  }

  /** The four suffixes are spaced words, none beginning with another. */
  lemma SuffixWords()
    ensures SpacedWord(" Caltrain") && SpacedWord(" Northbound")
    ensures SpacedWord(" Southbound") && SpacedWord(" Station")
    ensures !(" Northbound"[..9] == " Caltrain") && !(" Southbound"[..9] == " Caltrain")
    ensures " Southbound" != " Northbound" && " Northbound" != " Southbound"
  {
    assert " Northbound"[..9][1] == 'N';
    assert " Southbound"[..9][1] == 'S';
    assert " Southbound"[1] != " Northbound"[1];
  }

  /** What may follow " Caltrain" in a decorated name holds no " Caltrain". */
  lemma TailFreeOfCaltrain(station: string, direction: string)
    requires station == "" || station == " Station"
    requires direction == "" || direction == " Northbound" || direction == " Southbound"
    ensures NoOccurrence(station + direction, " Caltrain")
    ensures station + direction == [] || (station + direction)[0] == ' '
  {
    SuffixWords();
    SuffixFree(station, direction, " Caltrain");
    if station == "" {
      assert station + direction == direction;
    } else {
      assert (station + direction)[0] == station[0];
    }
  }

  /** " Station" holds neither direction. */
  lemma StationFree(station: string)
    requires station == "" || station == " Station"
    ensures NoOccurrence(station, " Northbound") && NoOccurrence(station, " Southbound")
  {
    SuffixWords();
    SuffixFree(station, "", " Northbound");
    SuffixFree(station, "", " Southbound");
    assert station + "" == station;
  }

  /** " Southbound" holds no " Northbound". */
  lemma SouthboundFree(direction: string)
    requires direction == "" || direction == " Southbound"
    ensures NoOccurrence(direction, " Northbound")
  {
    SuffixWords();
    SuffixFree(direction, "", " Northbound");
    assert direction + "" == direction;
  }

  lemma ConcatAssoc(x: string, y: string, z: string)
    ensures x + y + z == x + (y + z)
  {
  }

  /** The first removal: the name's own " Caltrain", if any. */
  lemma StripFirstWord(b: string, o: string, s: string, nb: string, sb: string, c: string)
    requires SpacedWord(c) && NoOccurrence(b, c) && (o == [] || o == c)
    requires NoOccurrence(s + nb + sb, c) && (s + nb + sb == [] || (s + nb + sb)[0] == ' ')
    ensures RemoveFirst(b + o + s + nb + sb, c) == b + s + nb + sb
  {
    StripOptional(b, o, s + nb + sb, c);
    ConcatAssoc(b + o + s, nb, sb);
    ConcatAssoc(b + o, s, nb + sb);
    ConcatAssoc(s, nb, sb);
    ConcatAssoc(b + s, nb, sb);
    ConcatAssoc(b, s, nb + sb);
  }

  /** The second removal: a word between b + s and the rest. */
  lemma StripMiddleWord(b: string, s: string, nb: string, sb: string, n: string)
    requires SpacedWord(n) && NoOccurrence(b, n) && NoOccurrence(s, n) && NoOccurrence(sb, n)
    requires s == [] || s[0] == ' '
    requires sb == [] || sb[0] == ' '
    requires nb == [] || nb == n
    ensures RemoveFirst(b + s + nb + sb, n) == b + s + sb
  {
    NoOccurrenceAppend(b, s, n);
    StripOptional(b + s, nb, sb, n);
  }

  /** A last word after b + s. */
  lemma StripLastWord(b: string, s: string, sb: string, so: string)
    requires SpacedWord(so) && NoOccurrence(b, so) && NoOccurrence(s, so)
    requires s == [] || s[0] == ' '
    requires sb == [] || sb == so
    ensures RemoveFirst(b + s + sb, so) == b + s
  {
    NoOccurrenceAppend(b, s, so);
    StripOptional(b + s, sb, "", so);
    assert b + s + sb + "" == b + s + sb;
    assert b + s + "" == b + s;
  }

  /** The four removals in `cleanName`'s order, for any four spaced words:
      each word that stands in the name is the first occurrence of itself, and
      a word that does not stand there occurs nowhere. */
  lemma StripInOrder(b: string, o: string, s: string, nb: string, sb: string,
                     c: string, n: string, so: string, st: string)
    requires SpacedWord(c) && SpacedWord(n) && SpacedWord(so) && SpacedWord(st)
    requires NoOccurrence(b, c) && NoOccurrence(b, n) && NoOccurrence(b, so) && NoOccurrence(b, st)
    requires o == [] || o == c
    requires s == [] || s == st
    requires nb == [] || nb == n
    requires sb == [] || sb == so
    requires NoOccurrence(s + nb + sb, c) && (s + nb + sb == [] || (s + nb + sb)[0] == ' ')
    requires NoOccurrence(s, n) && NoOccurrence(s, so) && NoOccurrence(sb, n)
    ensures RemoveFirst(RemoveFirst(RemoveFirst(RemoveFirst(b + o + s + nb + sb, c), n), so), st) == b
  {
    StripFirstWord(b, o, s, nb, sb, c);
    StripMiddleWord(b, s, nb, sb, n);
    StripLastWord(b, s, sb, so);
    StripLastWord(b, "", s, st);
    assert b + "" == b;
  }

  /** `cleanName` takes a name that GTFS decorates with " Caltrain", " Station"
      and a direction back to the bare station name. */
  lemma CleanNameStripsSuffixes(b: string, operator: string, station: string, direction: string)
    requires NoOccurrence(b, " Caltrain") && NoOccurrence(b, " Northbound")
    requires NoOccurrence(b, " Southbound") && NoOccurrence(b, " Station")
    requires b == [] || (!IsJsSpace(b[0]) && !IsJsSpace(b[|b| - 1]))
    requires operator == "" || operator == " Caltrain"
    requires station == "" || station == " Station"
    requires direction == "" || direction == " Northbound" || direction == " Southbound"
    ensures CleanName(b + operator + station + direction) == b
  {
    var nb, sb := if direction == " Northbound" then direction else "", if direction == " Northbound" then "" else direction;
    assert nb + sb == direction;
    ConcatAssoc(station, nb, sb);
    ConcatAssoc(b + operator + station, nb, sb);
    SuffixWords();
    TailFreeOfCaltrain(station, direction);
    StationFree(station);
    SouthboundFree(sb);
    StripInOrder(b, operator, station, nb, sb, " Caltrain", " Northbound", " Southbound", " Station");
    TrimUntrimmed(b);
  }

  // ---------------------------------------------------------------- grouping

  /** A `Partial<Station>`: fields not yet written are None; a coordinate whose
      `parseFloat` was NaN is None as well (both are falsy). */
  datatype PartialStation = PartialStation(stop1: Option<string>, stop2: Option<string>,
                                           stopname: string, urlname: string,
                                           lat: Option<real>, lon: Option<real>)

  /** `stationsMap` with its keys in insertion order (the order `Object.values`
      reports them for keys that are not array indices). */
  datatype Groups = Groups(keys: seq<string>, entries: map<string, PartialStation>)

  /** A stop row passes the two early returns: not a parent station, and a
      stop id matching `^\d+$`. */
  predicate Accepted(stop: GtfsStop) {
    stop.locationType != "1" && stop.stopId != [] && AllDigits(stop.stopId)
  }

  /** `parseInt(stop_id) % 2 !== 0`. */
  predicate IsOddId(id: string)
    requires id != [] && AllDigits(id)
  {
    DigitsValue(id) % 2 != 0
  }

  /** The name cleaner the grouping uses; `CleanName` in the build, kept a
      parameter so that proofs about the grouping need not unfold it. */
  type Cleaner = string -> string

  /** `stop.parent_station || cleanName(stop.stop_name)`. */
  function GroupKey(stop: GtfsStop, clean: Cleaner): string {
    if stop.parentStation != "" then stop.parentStation else clean(stop.stopName)
  }

  /** One pass of the `stops.forEach` callback. */
  function GroupStep(g: Groups, stop: GtfsStop, parseFloat: ParseFloat, clean: Cleaner): Groups {
    if !Accepted(stop) then g
    else
      var key := GroupKey(stop, clean);
      var blank := PartialStation(None, None, clean(stop.stopName), stop.parentStation, None, None);
      var keys := if key in g.entries then g.keys else g.keys + [key];
      var entry := if key in g.entries then g.entries[key] else blank;
      var updated := if IsOddId(stop.stopId)
        then entry.(stop1 := Some(stop.stopId), lat := parseFloat(stop.stopLat), lon := parseFloat(stop.stopLon))
        else entry.(stop2 := Some(stop.stopId));
      Groups(keys, g.entries[key := updated])
  }

  function GroupAll(stops: seq<GtfsStop>, parseFloat: ParseFloat, clean: Cleaner): Groups {
    if stops == [] then Groups([], map[])
    else GroupStep(GroupAll(stops[..|stops| - 1], parseFloat, clean), stops[|stops| - 1], parseFloat, clean)
  }

  /** What the grouping keeps true: the keys are the map's domain, each once,
      and a present stop1 is an odd numeric id, a present stop2 an even one. */
  ghost predicate GroupsValid(g: Groups) {
    && (forall k :: k in g.entries <==> k in g.keys)
    && (forall i, j :: 0 <= i < j < |g.keys| ==> g.keys[i] != g.keys[j])
    && (forall k :: k in g.entries && g.entries[k].stop1.Some? ==> OddId(g.entries[k].stop1.value))
    && (forall k :: k in g.entries && g.entries[k].stop2.Some? ==> EvenId(g.entries[k].stop2.value))
  }

  predicate OddId(id: string) {
    id != [] && AllDigits(id) && DigitsValue(id) % 2 == 1
  }

  predicate EvenId(id: string) {
    id != [] && AllDigits(id) && DigitsValue(id) % 2 == 0
  }

  lemma GroupStepValid(g: Groups, stop: GtfsStop, parseFloat: ParseFloat, clean: Cleaner)
    requires GroupsValid(g)
    ensures GroupsValid(GroupStep(g, stop, parseFloat, clean))
  {
    if Accepted(stop) {
      var key := GroupKey(stop, clean);
      if key !in g.entries {
        var keys := g.keys + [key];
        assert forall i :: 0 <= i < |g.keys| ==> keys[i] == g.keys[i];
      }
    }
  }

  /** stop1, lat and lon are written only by odd ids and stop2 only by even
      ids, so the odd/even split holds of every group. */
  lemma {:induction false} GroupAllValid(stops: seq<GtfsStop>, parseFloat: ParseFloat, clean: Cleaner)
    ensures GroupsValid(GroupAll(stops, parseFloat, clean))
  {
    if stops != [] {
      GroupAllValid(stops[..|stops| - 1], parseFloat, clean);
      GroupStepValid(GroupAll(stops[..|stops| - 1], parseFloat, clean), stops[|stops| - 1], parseFloat, clean);
    }
  }

  /** A key, once present, stays, and its name and url name do not change. */
  lemma GroupStepKeepsNames(g: Groups, stop: GtfsStop, parseFloat: ParseFloat, clean: Cleaner, key: string)
    requires key in g.entries
    ensures key in GroupStep(g, stop, parseFloat, clean).entries
    ensures GroupStep(g, stop, parseFloat, clean).entries[key].stopname == g.entries[key].stopname
    ensures GroupStep(g, stop, parseFloat, clean).entries[key].urlname == g.entries[key].urlname
  {
  }

  /** A group's name and url name are those of the first accepted stop with its
      key: later stops never change them. */
  lemma {:induction false} FirstStopNamesTheGroup(stops: seq<GtfsStop>, parseFloat: ParseFloat, clean: Cleaner, i: nat)
    requires i < |stops| && Accepted(stops[i])
    requires GroupKey(stops[i], clean) !in GroupAll(stops[..i], parseFloat, clean).entries
    ensures GroupKey(stops[i], clean) in GroupAll(stops, parseFloat, clean).entries
    ensures GroupAll(stops, parseFloat, clean).entries[GroupKey(stops[i], clean)].stopname == clean(stops[i].stopName)
    ensures GroupAll(stops, parseFloat, clean).entries[GroupKey(stops[i], clean)].urlname == stops[i].parentStation
    decreases |stops|
  {
    var init := stops[..|stops| - 1];
    if i == |stops| - 1 {
      assert init == stops[..i];
    } else {
      assert init[..i] == stops[..i];
      assert init[i] == stops[i];
      FirstStopNamesTheGroup(init, parseFloat, clean, i);
      GroupStepKeepsNames(GroupAll(init, parseFloat, clean), stops[|stops| - 1], parseFloat, clean, GroupKey(stops[i], clean));
    }
  }

  /** Rows that fail either early return leave the map as it was. */
  lemma SkippedRowChangesNothing(g: Groups, stop: GtfsStop, parseFloat: ParseFloat, clean: Cleaner)
    requires stop.locationType == "1" || stop.stopId == [] || !AllDigits(stop.stopId)
    ensures GroupStep(g, stop, parseFloat, clean) == g
  {
  }

  /** An accepted row sets stop1, lat and lon of its group when its id is odd,
      and stop2 when it is even, leaving the other fields and groups alone. */
  lemma AcceptedRowWrites(g: Groups, stop: GtfsStop, parseFloat: ParseFloat, clean: Cleaner)
    requires Accepted(stop)
    ensures var g' := GroupStep(g, stop, parseFloat, clean);
      var key := GroupKey(stop, clean);
      && key in g'.entries
      && g'.entries.Keys == g.entries.Keys + {key}
      && (forall k :: k in g.entries && k != key ==> g'.entries[k] == g.entries[k])
      && (DigitsValue(stop.stopId) % 2 == 1 ==>
            && g'.entries[key].stop1 == Some(stop.stopId)
            && g'.entries[key].lat == parseFloat(stop.stopLat)
            && g'.entries[key].lon == parseFloat(stop.stopLon)
            && (key in g.entries ==> g'.entries[key].stop2 == g.entries[key].stop2))
      && (DigitsValue(stop.stopId) % 2 == 0 ==>
            && g'.entries[key].stop2 == Some(stop.stopId)
            && (key in g.entries ==>
                  (g'.entries[key].stop1 == g.entries[key].stop1
                   && g'.entries[key].lat == g.entries[key].lat && g'.entries[key].lon == g.entries[key].lon)))
  {
  }

  /** The grouping loop, updating the entry of each stop's key field by field. */
  method GroupStops(stops: seq<GtfsStop>, parseFloat: ParseFloat, clean: Cleaner) returns (g: Groups)
    ensures g == GroupAll(stops, parseFloat, clean)
  {
    var keys: seq<string> := [];
    var stationsMap: map<string, PartialStation> := map[];
    var i := 0;
    while i < |stops|
      invariant 0 <= i <= |stops|
      invariant Groups(keys, stationsMap) == GroupAll(stops[..i], parseFloat, clean)
    {
      assert stops[..i + 1][..i] == stops[..i];
      var stop := stops[i];
      if stop.locationType != "1" && stop.stopId != [] && AllDigits(stop.stopId) {
        var isOdd := DigitsValue(stop.stopId) % 2 != 0;
        var parentKey := if stop.parentStation != "" then stop.parentStation else clean(stop.stopName);
        if parentKey !in stationsMap {
          stationsMap := stationsMap[parentKey := PartialStation(None, None, clean(stop.stopName),
                                                                 stop.parentStation, None, None)];
          keys := keys + [parentKey];
        }
        if isOdd {
          stationsMap := stationsMap[parentKey := stationsMap[parentKey].(stop1 := Some(stop.stopId))];
          stationsMap := stationsMap[parentKey := stationsMap[parentKey].(lat := parseFloat(stop.stopLat))];
          stationsMap := stationsMap[parentKey := stationsMap[parentKey].(lon := parseFloat(stop.stopLon))];
        } else {
          stationsMap := stationsMap[parentKey := stationsMap[parentKey].(stop2 := Some(stop.stopId))];
        }
      }
      i := i + 1;
    }
    assert stops[..|stops|] == stops;
    g := Groups(keys, stationsMap);
  }

  // ---------------------------------------------------------------- filter and sort

  /** `s.stop1 && s.stop2 && s.stopname && s.lat && s.lon`. */
  predicate Complete(p: PartialStation) {
    Truthy(p.stop1) && Truthy(p.stop2) && p.stopname != ""
    && p.lat.Some? && p.lat.value != 0.0 && p.lon.Some? && p.lon.value != 0.0
  }

  function ToStation(p: PartialStation): Station
    requires Complete(p)
  {
    Station(p.stop1.value, p.stop2.value, p.stopname, p.urlname, p.lat.value, p.lon.value)
  }

  /** `Object.values(stationsMap).filter(…).map(s => s as Station)`. */
  function CompleteStations(keys: seq<string>, entries: map<string, PartialStation>): seq<Station>
    requires forall k :: k in keys ==> k in entries
  {
    if keys == [] then []
    else
      var rest := CompleteStations(keys[..|keys| - 1], entries);
      var p := entries[keys[|keys| - 1]];
      if Complete(p) then rest + [ToStation(p)] else rest
  }

  /** Each kept station is a complete group, in key order; an incomplete
      group contributes none. */
  lemma {:induction false} CompleteStationsFrom(keys: seq<string>, entries: map<string, PartialStation>, i: nat)
    requires forall k :: k in keys ==> k in entries
    requires i < |CompleteStations(keys, entries)|
    ensures exists j :: 0 <= j < |keys| && Complete(entries[keys[j]])
              && CompleteStations(keys, entries)[i] == ToStation(entries[keys[j]])
  {
    var init := keys[..|keys| - 1];
    var rest := CompleteStations(init, entries);
    if i < |rest| {
      CompleteStationsFrom(init, entries, i);
      var j :| 0 <= j < |init| && Complete(entries[init[j]]) && rest[i] == ToStation(entries[init[j]]);
      assert keys[j] == init[j];
    } else {
      assert CompleteStations(keys, entries)[i] == ToStation(entries[keys[|keys| - 1]]);
    }
  }

  /** Every complete group is kept. */
  lemma {:induction false} CompleteStationsKeep(keys: seq<string>, entries: map<string, PartialStation>, j: nat)
    requires forall k :: k in keys ==> k in entries
    requires j < |keys| && Complete(entries[keys[j]])
    ensures ToStation(entries[keys[j]]) in CompleteStations(keys, entries)
  {
    var init := keys[..|keys| - 1];
    if j < |keys| - 1 {
      assert init[j] == keys[j];
      CompleteStationsKeep(init, entries, j);
    }
  }

  /** The station table: complete groups sorted by numeric stop1. */
  function StationsOf(stops: seq<GtfsStop>, parseFloat: ParseFloat, clean: Cleaner): seq<Station> {
    var g := GroupAll(stops, parseFloat, clean);
    GroupAllValid(stops, parseFloat, clean);
    Geometry.SortedStations(CompleteStations(g.keys, g.entries))
  }

  /** `buildStations` without the file I/O, with the cleaner as a parameter. */
  method BuildFrom(stops: seq<GtfsStop>, parseFloat: ParseFloat, clean: Cleaner) returns (stations: seq<Station>)
    ensures stations == StationsOf(stops, parseFloat, clean)
  {
    var g := GroupStops(stops, parseFloat, clean);
    GroupAllValid(stops, parseFloat, clean);
    stations := Geometry.SortedStations(CompleteStations(g.keys, g.entries));
  }

  /** `buildStations` without the file I/O. */
  method BuildStationTable(stops: seq<GtfsStop>, parseFloat: ParseFloat) returns (stations: seq<Station>)
    ensures stations == StationsOf(stops, parseFloat, CleanName)
  {
    stations := BuildFrom(stops, parseFloat, CleanName);
  }

  /** Every output station is complete (non-empty name, non-zero coordinates),
      has an odd stop1 and an even stop2, and the table is sorted north to
      south by stop1. */
  lemma StationsOfProperties(stops: seq<GtfsStop>, parseFloat: ParseFloat, clean: Cleaner)
    ensures SortedBy(StationsOf(stops, parseFloat, clean), Geometry.Stop1Key)
    ensures forall s :: s in StationsOf(stops, parseFloat, clean) ==>
              OddId(s.stop1) && EvenId(s.stop2) && s.stopname != "" && s.lat != 0.0 && s.lon != 0.0
  {
    var g := GroupAll(stops, parseFloat, clean);
    GroupAllValid(stops, parseFloat, clean);
    var c := CompleteStations(g.keys, g.entries);
    var r := Geometry.SortedStations(c);
    forall s | s in r
      ensures OddId(s.stop1) && EvenId(s.stop2) && s.stopname != "" && s.lat != 0.0 && s.lon != 0.0
    {
      assert s in multiset(r);
      assert s in multiset(c);
      var i :| 0 <= i < |c| && c[i] == s;
      CompleteStationsFrom(g.keys, g.entries, i);
    }
  }

  /** No complete group is lost: each appears in the table. */
  lemma StationsOfMembers(stops: seq<GtfsStop>, parseFloat: ParseFloat, clean: Cleaner, key: string)
    requires key in GroupAll(stops, parseFloat, clean).entries
    requires Complete(GroupAll(stops, parseFloat, clean).entries[key])
    ensures ToStation(GroupAll(stops, parseFloat, clean).entries[key]) in StationsOf(stops, parseFloat, clean)
  {
    var g := GroupAll(stops, parseFloat, clean);
    GroupAllValid(stops, parseFloat, clean);
    var j :| 0 <= j < |g.keys| && g.keys[j] == key;
    var c := CompleteStations(g.keys, g.entries);
    CompleteStationsKeep(g.keys, g.entries, j);
    var r := Geometry.SortedStations(c);
    assert ToStation(g.entries[key]) in multiset(c);
    assert ToStation(g.entries[key]) in multiset(r);
  }
}
