/** `SoundLevelPathBuilder`: a measurement's path on the map, resampled from its location and
    LAeq sequences. Timestamped entries are kept as sequences of (timestamp, value) pairs in
    insertion order, which is what Kotlin's `LinkedHashMap` entries are. The energetic average
    `dbAverage`, the range check `isInVuMeterRange` and the distance
    `GeoUtil.equirectangularDistance` are parameters. */
module PathBuilder {
  import opened Numerics
  import opened Fragments

  /** Latitude and longitude. */
  type Coordinates = (real, real)

  /** `PathPoint`. */
  datatype PathPoint = PathPoint(timestamp: Int64, latitude: real, longitude: real, level: real)

  /** `distThreshold`: the minimum distance, in metres, between two kept locations. */
  const DIST_THRESHOLD: real := 2.0

  // ---------------------------------------------------------------------------------------
  // Insertion-ordered maps
  // ---------------------------------------------------------------------------------------

  predicate DistinctKeys<V>(e: seq<(Int64, V)>) {
    forall i, j :: 0 <= i < j < |e| ==> e[i].0 != e[j].0
  }

  predicate HasKey<V>(e: seq<(Int64, V)>, k: Int64) {
    exists i :: 0 <= i < |e| && e[i].0 == k
  }

  /** Timestamps in strictly increasing order. */
  predicate Increasing<V>(e: seq<(Int64, V)>) {
    forall i, j :: 0 <= i < j < |e| ==> e[i].0 < e[j].0
  }

  /** Timestamps in non-decreasing order. */
  predicate NonDecreasing<V>(e: seq<(Int64, V)>) {
    forall i, j :: 0 <= i < j < |e| ==> e[i].0 <= e[j].0
  }

  /** `map + (k to v)`: an existing key keeps its position and takes the new value; a new key
      goes last. */
  function PutEntry<V>(e: seq<(Int64, V)>, k: Int64, v: V): seq<(Int64, V)> {
    if e == [] then [(k, v)]
    else if e[0].0 == k then [(k, v)] + e[1..]
    else [e[0]] + PutEntry(e[1..], k, v)
  }

  /** `map + pairs`: the pairs put one after the other. */
  function PutAll<V>(e: seq<(Int64, V)>, pairs: seq<(Int64, V)>): seq<(Int64, V)>
    decreases |pairs|
  {
    if pairs == [] then e else PutAll(PutEntry(e, pairs[0].0, pairs[0].1), pairs[1..])
  }

  /** `zip`: pairs up to the shorter length. */
  function Zip<A, B>(a: seq<A>, b: seq<B>): (r: seq<(A, B)>)
    ensures |r| == Min(|a|, |b|)
    ensures forall i :: 0 <= i < |r| ==> r[i] == (a[i], b[i])
  {
    seq(Min(|a|, |b|), i requires 0 <= i < Min(|a|, |b|) => (a[i], b[i]))
  }

  /** `filter` on a map's values, keeping the order. */
  function FilterValues<V>(e: seq<(Int64, V)>, keep: V -> bool): seq<(Int64, V)>
    decreases |e|
  {
    if e == [] then []
    else var rest := FilterValues(e[..|e| - 1], keep);
      if keep(e[|e| - 1].1) then rest + [e[|e| - 1]] else rest
  }

  /** The timestamped coordinates of one location fragment. */
  function LocationPoints(f: LocationFragment): seq<(Int64, Coordinates)> {
    Zip(f.timestamp, Zip(f.lat, f.lon))
  }

  /** The timestamped LAeq values of one Leq fragment. */
  function LaeqPoints(f: LeqFragment): seq<(Int64, real)> {
    Zip(f.timestamp, f.laeq)
  }

  /** The `fold` of `getSortedLocationSequence`: each fragment's points added to the map. */
  function LocationEntries(fragments: seq<LocationFragment>): seq<(Int64, Coordinates)>
    decreases |fragments|
  {
    if fragments == [] then []
    else PutAll(LocationEntries(fragments[..|fragments| - 1]), LocationPoints(fragments[|fragments| - 1]))
  }

  /** The `fold` of `getSortedLaeqSequence`. */
  function LaeqEntries(fragments: seq<LeqFragment>): seq<(Int64, real)>
    decreases |fragments|
  {
    if fragments == [] then []
    else PutAll(LaeqEntries(fragments[..|fragments| - 1]), LaeqPoints(fragments[|fragments| - 1]))
  }

  /** All the fragments' points one after the other. */
  function AllLocationPoints(fragments: seq<LocationFragment>): seq<(Int64, Coordinates)>
    decreases |fragments|
  {
    if fragments == [] then []
    else AllLocationPoints(fragments[..|fragments| - 1]) + LocationPoints(fragments[|fragments| - 1])
  }

  function AllLaeqPoints(fragments: seq<LeqFragment>): seq<(Int64, real)>
    decreases |fragments|
  {
    if fragments == [] then []
    else AllLaeqPoints(fragments[..|fragments| - 1]) + LaeqPoints(fragments[|fragments| - 1])
  }

  // ---------------------------------------------------------------------------------------
  // The distance filter
  // ---------------------------------------------------------------------------------------

  /** Two locations closer than the threshold, by the given distance in kilometres. */
  predicate Near(distance: (real, real, real, real) -> real, a: Coordinates, b: Coordinates) {
    distance(a.0, a.1, b.0, b.1) * 1_000.0 < DIST_THRESHOLD
  }

  /** The rest of `filterIndexed`: a location is kept iff it is not near the last kept one. */
  function KeepFar(e: seq<(Int64, Coordinates)>, last: Coordinates, distance: (real, real, real, real) -> real)
    : seq<(Int64, Coordinates)>
    decreases |e|
  {
    if e == [] then []
    else if Near(distance, last, e[0].1) then KeepFar(e[1..], last, distance)
    else [e[0]] + KeepFar(e[1..], e[0].1, distance)
  }

  /** The `filterIndexed` of `getSortedLocationSequence`: the first location is always kept. */
  function DistanceFilter(e: seq<(Int64, Coordinates)>, distance: (real, real, real, real) -> real)
    : seq<(Int64, Coordinates)>
  {
    if e == [] then [] else [e[0]] + KeepFar(e[1..], e[0].1, distance)
  }

  /** r is e with some entries left out, the others in their order. */
  predicate IsSubsequence<T(==)>(r: seq<T>, e: seq<T>)
    decreases |e|
  {
    if r == [] then true
    else if e == [] then false
    else (r[0] == e[0] && IsSubsequence(r[1..], e[1..])) || IsSubsequence(r, e[1..])
  }

  /** `getSortedLocationSequence`. */
  function SortedLocationSequence(fragments: seq<LocationFragment>, distance: (real, real, real, real) -> real)
    : seq<(Int64, Coordinates)>
  {
    DistanceFilter(LocationEntries(fragments), distance)
  }

  /** `getSortedLaeqSequence`. */
  function SortedLaeqSequence(fragments: seq<LeqFragment>, inVuMeterRange: real -> bool): seq<(Int64, real)> {
    FilterValues(LaeqEntries(fragments), inVuMeterRange)
  }

  // ---------------------------------------------------------------------------------------
  // Resampling
  // ---------------------------------------------------------------------------------------

  /** The values whose timestamps lie in [lo, hi), in order. */
  function Window(e: seq<(Int64, real)>, lo: int, hi: int): seq<real>
    decreases |e|
  {
    if e == [] then []
    else var rest := Window(e[..|e| - 1], lo, hi);
      if lo <= e[|e| - 1].0 < hi then rest + [e[|e| - 1].1] else rest
  }

  function Values(e: seq<(Int64, real)>): (r: seq<real>)
    ensures |r| == |e| && forall i :: 0 <= i < |e| ==> r[i] == e[i].1
  {
    seq(|e|, i requires 0 <= i < |e| => e[i].1)
  }

  /** The reference path for the first n locations: one point per location after the first
      whose window since the previous location holds LAeq values, placed at that location and
      carrying the values' average. */
  function Resampled(coords: seq<(Int64, Coordinates)>, laeqs: seq<(Int64, real)>, average: seq<real> -> real, n: nat)
    : seq<PathPoint>
    requires n <= |coords|
  {
    if n <= 1 then []
    else
      var w := Window(laeqs, coords[n - 2].0, coords[n - 1].0);
      Resampled(coords, laeqs, average, n - 1)
        + if w == [] then [] else [PathPoint(coords[n - 1].0, coords[n - 1].1.0, coords[n - 1].1.1, average(w))]
  }

  /** `pathForMeasurement` once both sequences are read: a single location gives two copies of
      one point averaging every level; otherwise levels are gathered into the windows between
      consecutive locations with one cursor that only moves forward. */
  method PathFromSequences(coords: seq<(Int64, Coordinates)>, laeqs: seq<(Int64, real)>, average: seq<real> -> real)
    returns (path: seq<PathPoint>)
    ensures |coords| == 1 ==>
      var p := PathPoint(coords[0].0, coords[0].1.0, coords[0].1.1, average(Values(laeqs)));
      path == [p, p]
    ensures |coords| != 1 ==> |path| <= Max(|coords| - 1, 0)
    ensures |coords| != 1 && NonDecreasing(coords) && NonDecreasing(laeqs) ==>
      path == Resampled(coords, laeqs, average, |coords|)
  {
    if |coords| == 1 {
      var p := PathPoint(coords[0].0, coords[0].1.0, coords[0].1.1, average(Values(laeqs)));
      return [p, p];
    }
    path := [];
    if |coords| == 0 {
      return;
    }
    var cursor := 0;
    var i := 1;
    while i < |coords|
      invariant 1 <= i <= |coords| && 0 <= cursor <= |laeqs|
      invariant |path| <= i - 1
      invariant NonDecreasing(coords) ==> forall j :: 0 <= j < cursor ==> laeqs[j].0 < coords[i - 1].0
      invariant NonDecreasing(coords) && NonDecreasing(laeqs) ==> path == Resampled(coords, laeqs, average, i)
    {
      var prevTime, currTime := coords[i - 1].0, coords[i].0;
      var start := cursor;
      var window;
      window, cursor := GatherWindow(laeqs, cursor, prevTime, currTime);
      if NonDecreasing(coords) && NonDecreasing(laeqs) {
        WindowOfConsumed(laeqs, start, cursor, prevTime, currTime);
      }
      if window != [] {
        path := path + [PathPoint(currTime, coords[i].1.0, coords[i].1.1, average(window))];
      }
      i := i + 1;
    }
  }

  /** The inner loop of `pathForMeasurement`: from the cursor on, the levels before `hi` are
      consumed and those from `lo` on gathered. */
  method GatherWindow(laeqs: seq<(Int64, real)>, start: nat, lo: Int64, hi: Int64) returns (window: seq<real>, cursor: nat)
    requires start <= |laeqs|
    ensures start <= cursor <= |laeqs|
    ensures forall j :: start <= j < cursor ==> laeqs[j].0 < hi
    ensures cursor < |laeqs| ==> laeqs[cursor].0 >= hi
    ensures window == Window(laeqs[start..cursor], lo, hi)
  {
    window := [];
    cursor := start;
    while cursor < |laeqs| && laeqs[cursor].0 < hi
      invariant start <= cursor <= |laeqs|
      invariant forall j :: start <= j < cursor ==> laeqs[j].0 < hi
      invariant window == Window(laeqs[start..cursor], lo, hi)
    {
      assert laeqs[start..cursor + 1][..cursor - start] == laeqs[start..cursor];
      if laeqs[cursor].0 >= lo {
        window := window + [laeqs[cursor].1];
      }
      cursor := cursor + 1;
    }
  }

  /** `pathForMeasurement`: the path of a measurement from its location and Leq fragments. */
  method PathForMeasurement(
    locations: seq<LocationFragment>, leqs: seq<LeqFragment>,
    distance: (real, real, real, real) -> real, inVuMeterRange: real -> bool, average: seq<real> -> real)
    returns (path: seq<PathPoint>)
    ensures var coords := SortedLocationSequence(locations, distance);
      var laeqs := SortedLaeqSequence(leqs, inVuMeterRange);
      && (|coords| == 1 ==>
            var p := PathPoint(coords[0].0, coords[0].1.0, coords[0].1.1, average(Values(laeqs)));
            path == [p, p])
      && (|coords| != 1 ==> |path| <= Max(|coords| - 1, 0))
      && (|coords| != 1 && Increasing(AllLocationPoints(locations)) && Increasing(AllLaeqPoints(leqs)) ==>
            path == Resampled(coords, laeqs, average, |coords|))
  {
    var coords := SortedLocationSequence(locations, distance);
    var laeqs := SortedLaeqSequence(leqs, inVuMeterRange);
    if Increasing(AllLocationPoints(locations)) && Increasing(AllLaeqPoints(leqs)) {
      SortedSequencesInOrder(locations, leqs, distance, inVuMeterRange);
    }
    path := PathFromSequences(coords, laeqs, average);
  }

  // ---------------------------------------------------------------------------------------
  // Properties of the maps
  // ---------------------------------------------------------------------------------------

  /** Putting a new key appends it; putting an existing key replaces its value in place. */
  lemma {:induction false} PutEntrySpec<V>(e: seq<(Int64, V)>, k: Int64, v: V)
    requires DistinctKeys(e)
    ensures DistinctKeys(PutEntry(e, k, v))
    ensures !HasKey(e, k) ==> PutEntry(e, k, v) == e + [(k, v)]
    ensures HasKey(e, k) ==>
      && |PutEntry(e, k, v)| == |e|
      && forall i :: 0 <= i < |e| ==> PutEntry(e, k, v)[i] == if e[i].0 == k then (k, v) else e[i]
    decreases |e|
  {
    if e != [] {
      var rest := e[1..];
      assert forall i :: 0 <= i < |rest| ==> rest[i] == e[i + 1];
      PutEntrySpec(rest, k, v);
      if e[0].0 != k {
        assert HasKey(e, k) ==> HasKey(rest, k);
        assert HasKey(rest, k) ==> HasKey(e, k) by {
          if HasKey(rest, k) {
            var i :| 0 <= i < |rest| && rest[i].0 == k;
            assert e[i + 1].0 == k;
          }
        }
        var r := PutEntry(e, k, v);
        assert r == [e[0]] + PutEntry(rest, k, v);
        assert forall i :: 1 <= i < |r| ==> r[i] == PutEntry(rest, k, v)[i - 1];
      } else {
        assert HasKey(e, k) by { assert e[0].0 == k; }
      }
    }
  }

  lemma Increasing2Distinct<V>(e: seq<(Int64, V)>)
    requires Increasing(e)
    ensures DistinctKeys(e) && NonDecreasing(e)
  {
  }

  /** When every new timestamp is later than all the earlier ones, putting the pairs appends
      them: the map's entries are then in time order. */
  lemma {:induction false} PutAllAppends<V>(e: seq<(Int64, V)>, pairs: seq<(Int64, V)>)
    requires Increasing(e + pairs)
    ensures PutAll(e, pairs) == e + pairs
    decreases |pairs|
  {
    if pairs != [] {
      var p := pairs[0];
      assert Increasing(e) by {
        assert forall i :: 0 <= i < |e| ==> e[i] == (e + pairs)[i];
      }
      Increasing2Distinct(e);
      assert !HasKey(e, p.0) by {
        assert forall i :: 0 <= i < |e| ==> e[i].0 == (e + pairs)[i].0 < (e + pairs)[|e|].0 == p.0;
      }
      PutEntrySpec(e, p.0, p.1);
      assert (e + [p]) + pairs[1..] == e + pairs;
      PutAllAppends(e + [p], pairs[1..]);
    }
  }

  /** Fragments whose points come in time order read back as all their points in order. */
  lemma {:induction false} LocationEntriesInOrder(fragments: seq<LocationFragment>)
    requires Increasing(AllLocationPoints(fragments))
    ensures LocationEntries(fragments) == AllLocationPoints(fragments)
    decreases |fragments|
  {
    if fragments != [] {
      var init := fragments[..|fragments| - 1];
      var all := AllLocationPoints(fragments);
      var head := AllLocationPoints(init);
      assert Increasing(head) by {
        assert forall i :: 0 <= i < |head| ==> head[i] == all[i];
      }
      LocationEntriesInOrder(init);
      PutAllAppends(head, LocationPoints(fragments[|fragments| - 1]));
    }
  }

  lemma {:induction false} LaeqEntriesInOrder(fragments: seq<LeqFragment>)
    requires Increasing(AllLaeqPoints(fragments))
    ensures LaeqEntries(fragments) == AllLaeqPoints(fragments)
    decreases |fragments|
  {
    if fragments != [] {
      var init := fragments[..|fragments| - 1];
      var all := AllLaeqPoints(fragments);
      var head := AllLaeqPoints(init);
      assert Increasing(head) by {
        assert forall i :: 0 <= i < |head| ==> head[i] == all[i];
      }
      LaeqEntriesInOrder(init);
      PutAllAppends(head, LaeqPoints(fragments[|fragments| - 1]));
    }
  }

  /** A filter keeps the entries it is given in their order, and exactly those it accepts. */
  lemma {:induction false} FilterValuesSpec<V>(e: seq<(Int64, V)>, keep: V -> bool)
    ensures IsSubsequence(FilterValues(e, keep), e)
    ensures forall i :: 0 <= i < |FilterValues(e, keep)| ==> keep(FilterValues(e, keep)[i].1)
    ensures forall i :: 0 <= i < |e| && keep(e[i].1) ==> e[i] in FilterValues(e, keep)
    decreases |e|
  {
    if e != [] {
      var init, last := e[..|e| - 1], e[|e| - 1];
      FilterValuesSpec(init, keep);
      SubsequenceSnoc(FilterValues(init, keep), init, last, keep(last.1));
      assert e == init + [last];
      assert forall i :: 0 <= i < |init| ==> init[i] == e[i];
    }
  }

  /** Extending both sides by the same last element, or only the longer one. */
  lemma {:induction false} SubsequenceSnoc<T>(r: seq<T>, e: seq<T>, x: T, both: bool)
    requires IsSubsequence(r, e)
    ensures IsSubsequence(if both then r + [x] else r, e + [x])
    decreases |e|
  {
    if r == [] {
      if both {
        assert r + [x] == [x];
        SubsequenceOfSingleton(e, x);
      }
    } else if e == [] {
    } else {
      assert (e + [x])[1..] == e[1..] + [x];
      if r[0] == e[0] && IsSubsequence(r[1..], e[1..]) {
        SubsequenceSnoc(r[1..], e[1..], x, both);
        if both {
          assert (r + [x])[1..] == r[1..] + [x];
        }
      } else {
        SubsequenceSnoc(r, e[1..], x, both);
      }
    }
  }

  lemma {:induction false} SubsequenceOfSingleton<T>(e: seq<T>, x: T)
    ensures IsSubsequence([x], e + [x])
    decreases |e|
  {
    if e == [] {
      assert IsSubsequence([x][1..], ([] + [x])[1..]);
    } else {
      assert (e + [x])[1..] == e[1..] + [x];
      SubsequenceOfSingleton(e[1..], x);
    }
  }

  /** A subsequence of entries in order is in order. */
  lemma {:induction false} SubsequenceKeepsOrder<V>(r: seq<(Int64, V)>, e: seq<(Int64, V)>)
    requires IsSubsequence(r, e) && NonDecreasing(e)
    ensures NonDecreasing(r)
    ensures forall i :: 0 <= i < |r| ==> r[i] in e
    decreases |e|
  {
    if r != [] && e != [] {
      assert NonDecreasing(e[1..]);
      if r[0] == e[0] && IsSubsequence(r[1..], e[1..]) {
        SubsequenceKeepsOrder(r[1..], e[1..]);
        assert forall i :: 1 <= i < |r| ==> r[i] == r[1..][i - 1] && r[i] in e[1..];
      } else {
        SubsequenceKeepsOrder(r, e[1..]);
      }
    }
  }

  // ---------------------------------------------------------------------------------------
  // Properties of the distance filter
  // ---------------------------------------------------------------------------------------

  lemma {:induction false} KeepFarSpec(e: seq<(Int64, Coordinates)>, last: Coordinates, distance: (real, real, real, real) -> real)
    ensures var r := KeepFar(e, last, distance);
      && IsSubsequence(r, e)
      && (r != [] ==> !Near(distance, last, r[0].1))
      && forall j :: 0 < j < |r| ==> !Near(distance, r[j - 1].1, r[j].1)
    decreases |e|
  {
    if e != [] {
      KeepFarSpec(e[1..], last, distance);
      KeepFarSpec(e[1..], e[0].1, distance);
      var r := KeepFar(e, last, distance);
      if !Near(distance, last, e[0].1) {
        var rest := KeepFar(e[1..], e[0].1, distance);
        assert r == [e[0]] + rest && r[1..] == rest;
        assert forall j :: 1 <= j < |r| ==> r[j] == rest[j - 1];
      }
    }
  }

  /** The distance filter keeps the first location and then only locations in their order,
      each at least the threshold away from the location kept before it. */
  lemma DistanceFilterSpec(e: seq<(Int64, Coordinates)>, distance: (real, real, real, real) -> real)
    ensures var r := DistanceFilter(e, distance);
      && IsSubsequence(r, e)
      && (e != [] ==> r != [] && r[0] == e[0])
      && forall j :: 0 < j < |r| ==> !Near(distance, r[j - 1].1, r[j].1)
  {
    if e != [] {
      var rest := KeepFar(e[1..], e[0].1, distance);
      KeepFarSpec(e[1..], e[0].1, distance);
      var r := DistanceFilter(e, distance);
      assert r == [e[0]] + rest && r[1..] == rest;
      assert forall j :: 1 <= j < |r| ==> r[j] == rest[j - 1];
    }
  }

  /** Locations all far from each other are all kept. */
  lemma {:induction false} KeepFarKeepsFar(e: seq<(Int64, Coordinates)>, last: Coordinates, distance: (real, real, real, real) -> real)
    requires forall i :: 0 <= i < |e| ==> !Near(distance, last, e[i].1)
    requires forall i, j :: 0 <= i < j < |e| ==> !Near(distance, e[i].1, e[j].1)
    ensures KeepFar(e, last, distance) == e
    decreases |e|
  {
    if e != [] {
      KeepFarKeepsFar(e[1..], e[0].1, distance);
    }
  }

  /** Locations all near the first one collapse onto it. */
  lemma {:induction false} KeepFarDropsNear(e: seq<(Int64, Coordinates)>, last: Coordinates, distance: (real, real, real, real) -> real)
    requires forall i :: 0 <= i < |e| ==> Near(distance, last, e[i].1)
    ensures KeepFar(e, last, distance) == []
    decreases |e|
  {
    if e != [] {
      KeepFarDropsNear(e[1..], last, distance);
    }
  }

  /** The filter drops nothing when no two locations are near, and everything but the first
      when all are near the first. */
  lemma DistanceFilterExtremes(e: seq<(Int64, Coordinates)>, distance: (real, real, real, real) -> real)
    requires e != []
    ensures (forall i, j :: 0 <= i < j < |e| ==> !Near(distance, e[i].1, e[j].1)) ==> DistanceFilter(e, distance) == e
    ensures (forall i :: 0 < i < |e| ==> Near(distance, e[0].1, e[i].1)) ==> DistanceFilter(e, distance) == [e[0]]
  {
    if forall i, j :: 0 <= i < j < |e| ==> !Near(distance, e[i].1, e[j].1) {
      KeepFarKeepsFar(e[1..], e[0].1, distance);
    }
    if forall i :: 0 < i < |e| ==> Near(distance, e[0].1, e[i].1) {
      KeepFarDropsNear(e[1..], e[0].1, distance);
    }
  }

  // ---------------------------------------------------------------------------------------
  // Properties of the windows
  // ---------------------------------------------------------------------------------------

  lemma {:induction false} WindowAppend(a: seq<(Int64, real)>, b: seq<(Int64, real)>, lo: int, hi: int)
    ensures Window(a + b, lo, hi) == Window(a, lo, hi) + Window(b, lo, hi)
    decreases |b|
  {
    if b == [] {
      assert a + b == a;
    } else {
      var b' := b[..|b| - 1];
      assert (a + b)[..|a + b| - 1] == a + b';
      WindowAppend(a, b', lo, hi);
    }
  }

  lemma {:induction false} WindowOutside(e: seq<(Int64, real)>, lo: int, hi: int)
    requires forall j :: 0 <= j < |e| ==> e[j].0 < lo || e[j].0 >= hi
    ensures Window(e, lo, hi) == []
    decreases |e|
  {
    if e != [] {
      WindowOutside(e[..|e| - 1], lo, hi);
    }
  }

  /** The window the cursor gathers is the whole window: what it consumed before lies before
      the window and what it stops at lies after it. */
  lemma WindowOfConsumed(laeqs: seq<(Int64, real)>, start: nat, cursor: nat, lo: int, hi: int)
    requires start <= cursor <= |laeqs| && NonDecreasing(laeqs)
    requires forall j :: 0 <= j < start ==> laeqs[j].0 < lo
    requires cursor < |laeqs| ==> laeqs[cursor].0 >= hi
    ensures Window(laeqs, lo, hi) == Window(laeqs[start..cursor], lo, hi)
  {
    assert laeqs == laeqs[..start] + laeqs[start..cursor] + laeqs[cursor..];
    WindowAppend(laeqs[..start] + laeqs[start..cursor], laeqs[cursor..], lo, hi);
    WindowAppend(laeqs[..start], laeqs[start..cursor], lo, hi);
    WindowOutside(laeqs[..start], lo, hi);
    WindowOutside(laeqs[cursor..], lo, hi);
  }

  /** In time order, consecutive windows tile the whole span: every level falls in at most one
      window, so each is used at most once. */
  lemma {:induction false} WindowSplit(e: seq<(Int64, real)>, lo: int, mid: int, hi: int)
    requires lo <= mid <= hi && NonDecreasing(e)
    ensures Window(e, lo, hi) == Window(e, lo, mid) + Window(e, mid, hi)
    decreases |e|
  {
    if e != [] {
      var init, last := e[..|e| - 1], e[|e| - 1];
      WindowSplit(init, lo, mid, hi);
      if lo <= last.0 < mid {
        WindowOutside(init, mid, hi);
      }
    }
  }

  /** The levels of all the path's windows, one window after the other. */
  function AllWindows(coords: seq<(Int64, Coordinates)>, laeqs: seq<(Int64, real)>, n: nat): seq<real>
    requires n <= |coords|
  {
    if n <= 1 then [] else AllWindows(coords, laeqs, n - 1) + Window(laeqs, coords[n - 2].0, coords[n - 1].0)
  }

  lemma {:induction false} AllWindowsTile(coords: seq<(Int64, Coordinates)>, laeqs: seq<(Int64, real)>, n: nat)
    requires 1 <= n <= |coords| && NonDecreasing(coords) && NonDecreasing(laeqs)
    ensures AllWindows(coords, laeqs, n) == Window(laeqs, coords[0].0, coords[n - 1].0)
  {
    if n == 1 {
      WindowOutside(laeqs, coords[0].0, coords[0].0);
    } else {
      AllWindowsTile(coords, laeqs, n - 1);
      WindowSplit(laeqs, coords[0].0, coords[n - 2].0, coords[n - 1].0);
    }
  }

  lemma {:induction false} WindowLength(e: seq<(Int64, real)>, lo: int, hi: int)
    ensures |Window(e, lo, hi)| <= |e|
    decreases |e|
  {
    if e != [] {
      WindowLength(e[..|e| - 1], lo, hi);
    }
  }

  /** In time order, the windows together hold no more levels than there are: no level is
      averaged into two points. */
  lemma EachLevelUsedOnce(coords: seq<(Int64, Coordinates)>, laeqs: seq<(Int64, real)>)
    requires 1 <= |coords| && NonDecreasing(coords) && NonDecreasing(laeqs)
    ensures |AllWindows(coords, laeqs, |coords|)| <= |laeqs|
  {
    AllWindowsTile(coords, laeqs, |coords|);
    WindowLength(laeqs, coords[0].0, coords[|coords| - 1].0);
  }

  /** Each point of the reference path sits at a location after the first, and averages the
      levels of its window. */
  lemma {:induction false} ResampledSpec(coords: seq<(Int64, Coordinates)>, laeqs: seq<(Int64, real)>, average: seq<real> -> real, n: nat)
    requires n <= |coords|
    ensures |Resampled(coords, laeqs, average, n)| <= Max(n - 1, 0)
    ensures forall p :: p in Resampled(coords, laeqs, average, n) ==>
      exists i :: 1 <= i < n && p == PathPoint(coords[i].0, coords[i].1.0, coords[i].1.1,
        average(Window(laeqs, coords[i - 1].0, coords[i].0)))
  {
    if n > 1 {
      ResampledSpec(coords, laeqs, average, n - 1);
      forall p | p in Resampled(coords, laeqs, average, n)
        ensures exists i :: 1 <= i < n && p == PathPoint(coords[i].0, coords[i].1.0, coords[i].1.1,
          average(Window(laeqs, coords[i - 1].0, coords[i].0)))
      {
        if p !in Resampled(coords, laeqs, average, n - 1) {
          var i := n - 1;
          assert p == PathPoint(coords[i].0, coords[i].1.0, coords[i].1.1, average(Window(laeqs, coords[i - 1].0, coords[i].0)));
        }
      }
    }
  }

  /** Fragments in time order give both sequences in time order. */
  lemma SortedSequencesInOrder(
    locations: seq<LocationFragment>, leqs: seq<LeqFragment>,
    distance: (real, real, real, real) -> real, inVuMeterRange: real -> bool)
    requires Increasing(AllLocationPoints(locations)) && Increasing(AllLaeqPoints(leqs))
    ensures NonDecreasing(SortedLocationSequence(locations, distance))
    ensures NonDecreasing(SortedLaeqSequence(leqs, inVuMeterRange))
  {
    LocationEntriesInOrder(locations);
    LaeqEntriesInOrder(leqs);
    DistanceFilterSpec(LocationEntries(locations), distance);
    SubsequenceKeepsOrder(SortedLocationSequence(locations, distance), LocationEntries(locations));
    FilterValuesSpec(LaeqEntries(leqs), inVuMeterRange);
    SubsequenceKeepsOrder(SortedLaeqSequence(leqs, inVuMeterRange), LaeqEntries(leqs));
  }
}
