/** Sequence fragments: a stretch of a measurement's records kept as parallel lists, one list
    per record field, so that a stored fragment names each field once. */
module Fragments {
  import opened Wrappers
  import opened Numerics

  // ---------------------------------------------------------------------------------------
  // What every fragment derives from its timestamps (`SequenceFragment`)
  // ---------------------------------------------------------------------------------------

  /** `minOrNull`. */
  function Minimum(s: seq<Int64>): (r: Option<Int64>)
    ensures r.None? <==> s == []
    ensures r.Some? ==> r.value in s && forall i :: 0 <= i < |s| ==> r.value <= s[i]
  {
    if s == [] then None
    else
      var rest := Minimum(s[1..]);
      if rest.Some? && rest.value < s[0] then rest else Some(s[0])
  }

  /** `maxOrNull`. */
  function Maximum(s: seq<Int64>): (r: Option<Int64>)
    ensures r.None? <==> s == []
    ensures r.Some? ==> r.value in s && forall i :: 0 <= i < |s| ==> s[i] <= r.value
  {
    if s == [] then None
    else
      var rest := Maximum(s[1..]);
      if rest.Some? && rest.value > s[0] then rest else Some(s[0])
  }

  /** `startTimestamp`: the earliest timestamp, if any. */
  function StartTimestamp(timestamps: seq<Int64>): Option<Int64> {
    Minimum(timestamps)
  }

  /** `endTimestamp`: the latest timestamp, if any. */
  function EndTimestamp(timestamps: seq<Int64>): Option<Int64> {
    Maximum(timestamps)
  }

  /** `duration` as written: the start minus the end, in `Long` arithmetic. */
  function DurationAsWritten(timestamps: seq<Int64>): Option<Int64> {
    if timestamps == [] then None
    else Some(Wrap64(StartTimestamp(timestamps).value - EndTimestamp(timestamps).value))
  }

  /** `duration` with the subtraction the other way round: the end minus the start. */
  function Duration(timestamps: seq<Int64>): Option<Int64> {
    if timestamps == [] then None
    else Some(Wrap64(EndTimestamp(timestamps).value - StartTimestamp(timestamps).value))
  }

  /** The duration is defined exactly when there are timestamps; it is then the spread of the
      timestamps, which no timestamp falls outside of, unless that spread overflows a Long. */
  lemma DurationSpec(timestamps: seq<Int64>)
    ensures Duration(timestamps).Some? <==> timestamps != []
    ensures timestamps != [] ==>
      var first, last := StartTimestamp(timestamps).value, EndTimestamp(timestamps).value;
      && (forall i :: 0 <= i < |timestamps| ==> first <= timestamps[i] <= last)
      && (last - first <= LONG_MAX ==> Duration(timestamps).value == last - first >= 0)
  {
  }

  /** As written, a fragment whose timestamps span three seconds lasts minus three seconds. */
  lemma DurationAsWrittenNegative()
    ensures DurationAsWritten([1000, 4000]) == Some(-3000)
    ensures Duration([1000, 4000]) == Some(3000)
  {
    assert [1000, 4000][1..] == [4000];
    assert Minimum([4000]) == Some(4000) && Maximum([4000]) == Some(4000);
  }

  /** As written, the duration is never positive while the spread fits in a Long, and is
      exactly the corrected duration negated. */
  lemma DurationAsWrittenSpec(timestamps: seq<Int64>)
    requires timestamps != []
    requires EndTimestamp(timestamps).value - StartTimestamp(timestamps).value <= LONG_MAX
    ensures DurationAsWritten(timestamps).value <= 0
    ensures DurationAsWritten(timestamps).value == -Duration(timestamps).value
  {
  }

  // ---------------------------------------------------------------------------------------
  // Leq fragments (`LeqSequenceFragment`)
  // ---------------------------------------------------------------------------------------

  /** `LeqRecord`: one second of levels, the A-weighted, C-weighted and unweighted ones and
      one per third-octave band, keyed by the band's nominal frequency. */
  datatype LeqRecord = LeqRecord(
    timestamp: Int64,
    lzeq: real,
    laeq: real,
    lceq: real,
    leqsPerThirdOctave: map<int, real>)

  datatype LeqFragment = LeqFragment(
    uuid: string,
    index: Int32,
    measurementId: string,
    timestamp: seq<Int64>,
    lzeq: seq<real>,
    laeq: seq<real>,
    lceq: seq<real>,
    leqsPerThirdOctaveBand: map<int, seq<real>>)

  /** A fresh fragment: every list empty. */
  function NewLeqFragment(uuid: string, measurementId: string, index: Int32): (f: LeqFragment)
    ensures LeqAligned(f) && |f.timestamp| == 0
  {
    LeqFragment(uuid, index, measurementId, [], [], [], [], map[])
  }

  /** The four level lists have one entry per timestamp. */
  predicate LeqAligned(f: LeqFragment) {
    |f.lzeq| == |f.timestamp| && |f.laeq| == |f.timestamp| && |f.lceq| == |f.timestamp|
  }

  /** The band lists after one record: a band of the record gets its level appended (a new
      band starts a one-element list), every other band is left as it was. */
  function PushBands(bands: map<int, seq<real>>, leqs: map<int, real>): map<int, seq<real>> {
    map k | k in bands.Keys + leqs.Keys ::
      if k in leqs then (if k in bands then bands[k] + [leqs[k]] else [leqs[k]]) else bands[k]
  }

  /** `push` as written: the C-weighted list receives the record's unweighted level. */
  function PushLeqAsWritten(f: LeqFragment, r: LeqRecord): LeqFragment {
    f.(timestamp := f.timestamp + [r.timestamp],
       lzeq := f.lzeq + [r.lzeq],
       laeq := f.laeq + [r.laeq],
       lceq := f.lceq + [r.lzeq],
       leqsPerThirdOctaveBand := PushBands(f.leqsPerThirdOctaveBand, r.leqsPerThirdOctave))
  }

  /** `push` with each level going to its own list. */
  function PushLeq(f: LeqFragment, r: LeqRecord): LeqFragment {
    f.(timestamp := f.timestamp + [r.timestamp],
       lzeq := f.lzeq + [r.lzeq],
       laeq := f.laeq + [r.laeq],
       lceq := f.lceq + [r.lceq],
       leqsPerThirdOctaveBand := PushBands(f.leqsPerThirdOctaveBand, r.leqsPerThirdOctave))
  }

  /** The scalar fields of the i-th record, read back from the parallel lists. */
  function LeqAt(f: LeqFragment, i: nat): (Int64, real, real, real)
    requires LeqAligned(f) && i < |f.timestamp|
  {
    (f.timestamp[i], f.lzeq[i], f.laeq[i], f.lceq[i])
  }

  /** A push keeps the lists aligned, the identity of the fragment and every earlier entry, and
      the new last entry reads back as the pushed record. */
  lemma PushLeqSpec(f: LeqFragment, r: LeqRecord)
    requires LeqAligned(f)
    ensures var g := PushLeq(f, r);
      && LeqAligned(g) && |g.timestamp| == |f.timestamp| + 1
      && g.uuid == f.uuid && g.index == f.index && g.measurementId == f.measurementId
      && LeqAt(g, |f.timestamp|) == (r.timestamp, r.lzeq, r.laeq, r.lceq)
      && forall i :: 0 <= i < |f.timestamp| ==> LeqAt(g, i) == LeqAt(f, i)
  {
  }

  /** `push` as written keeps the lists aligned, the identity of the fragment and every
      earlier entry; the new last entry reads back with the unweighted level in place of the
      C-weighted one. */
  lemma PushLeqAsWrittenSpec(f: LeqFragment, r: LeqRecord)
    requires LeqAligned(f)
    ensures var g := PushLeqAsWritten(f, r);
      && LeqAligned(g) && |g.timestamp| == |f.timestamp| + 1
      && g.uuid == f.uuid && g.index == f.index && g.measurementId == f.measurementId
      && LeqAt(g, |f.timestamp|) == (r.timestamp, r.lzeq, r.laeq, r.lzeq)
      && forall i :: 0 <= i < |f.timestamp| ==> LeqAt(g, i) == LeqAt(f, i)
  {
  }

  /** As written, a record whose C-weighted level differs from its unweighted one does not
      read back: the C-weighted list holds the unweighted level. */
  lemma PushLeqAsWrittenLosesLceq(f: LeqFragment, r: LeqRecord)
    requires LeqAligned(f) && r.lceq != r.lzeq
    ensures var g := PushLeqAsWritten(f, r);
      LeqAligned(g) && LeqAt(g, |f.timestamp|) != (r.timestamp, r.lzeq, r.laeq, r.lceq)
  {
  }

  /** Pushing records one after the other with `push` as written. */
  function PushAllLeq(f: LeqFragment, records: seq<LeqRecord>): LeqFragment
    decreases |records|
  {
    if records == [] then f else PushAllLeq(PushLeqAsWritten(f, records[0]), records[1..])
  }

  /** The levels a band received, in order, from a run of records. */
  function BandHistory(records: seq<LeqRecord>, band: int): seq<real>
    decreases |records|
  {
    if records == [] then []
    else
      var head := if band in records[0].leqsPerThirdOctave then [records[0].leqsPerThirdOctave[band]] else [];
      head + BandHistory(records[1..], band)
  }

  /** After a run of pushes onto a fresh fragment, a band's list is exactly the levels the
      records gave it, in order, and the fragment holds a band exactly when some record has
      it. */
  lemma {:induction false} PushAllLeqBands(f: LeqFragment, records: seq<LeqRecord>, band: int)
    ensures var g := PushAllLeq(f, records);
      && (band in g.leqsPerThirdOctaveBand <==> band in f.leqsPerThirdOctaveBand || BandHistory(records, band) != [])
      && (band in g.leqsPerThirdOctaveBand ==>
          g.leqsPerThirdOctaveBand[band]
            == (if band in f.leqsPerThirdOctaveBand then f.leqsPerThirdOctaveBand[band] else []) + BandHistory(records, band))
    decreases |records|
  {
    if records != [] {
      var next := PushLeqAsWritten(f, records[0]);
      PushAllLeqBands(next, records[1..], band);
      var before := if band in f.leqsPerThirdOctaveBand then f.leqsPerThirdOctaveBand[band] else [];
      var head := if band in records[0].leqsPerThirdOctave then [records[0].leqsPerThirdOctave[band]] else [];
      assert BandHistory(records, band) == head + BandHistory(records[1..], band);
      assert (if band in next.leqsPerThirdOctaveBand then next.leqsPerThirdOctaveBand[band] else []) == before + head;
    }
  }

  // ---------------------------------------------------------------------------------------
  // Location fragments (`LocationSequenceFragment`)
  // ---------------------------------------------------------------------------------------

  /** `LocationRecord`: one position fix and what the platform says about its accuracy. */
  datatype LocationRecord = LocationRecord(
    timestamp: Int64,
    lat: real,
    lon: real,
    speed: Option<real>,
    altitude: Option<real>,
    direction: Option<real>,
    orientation: Option<real>,
    horizontalAccuracy: real,
    verticalAccuracy: Option<real>,
    speedAccuracy: Option<real>,
    directionAccuracy: Option<real>,
    orientationAccuracy: Option<real>)

  datatype LocationFragment = LocationFragment(
    uuid: string,
    index: Int32,
    measurementId: string,
    timestamp: seq<Int64>,
    lat: seq<real>,
    lon: seq<real>,
    speed: seq<Option<real>>,
    altitude: seq<Option<real>>,
    direction: seq<Option<real>>,
    orientation: seq<Option<real>>,
    horizontalAccuracy: seq<real>,
    verticalAccuracy: seq<Option<real>>,
    speedAccuracy: seq<Option<real>>,
    directionAccuracy: seq<Option<real>>,
    orientationAccuracy: seq<Option<real>>)

  function NewLocationFragment(uuid: string, measurementId: string, index: Int32): (f: LocationFragment)
    ensures LocationAligned(f) && |f.timestamp| == 0
  {
    LocationFragment(uuid, index, measurementId, [], [], [], [], [], [], [], [], [], [], [], [])
  }

  /** The eleven field lists have one entry per timestamp. */
  predicate LocationAligned(f: LocationFragment) {
    var n := |f.timestamp|;
    && |f.lat| == n && |f.lon| == n && |f.speed| == n && |f.altitude| == n
    && |f.direction| == n && |f.orientation| == n && |f.horizontalAccuracy| == n
    && |f.verticalAccuracy| == n && |f.speedAccuracy| == n && |f.directionAccuracy| == n
    && |f.orientationAccuracy| == n
  }

  /** `push`: each field of the record appended to its list. */
  function PushLocation(f: LocationFragment, r: LocationRecord): LocationFragment {
    f.(timestamp := f.timestamp + [r.timestamp],
       lat := f.lat + [r.lat],
       lon := f.lon + [r.lon],
       speed := f.speed + [r.speed],
       altitude := f.altitude + [r.altitude],
       direction := f.direction + [r.direction],
       orientation := f.orientation + [r.orientation],
       horizontalAccuracy := f.horizontalAccuracy + [r.horizontalAccuracy],
       verticalAccuracy := f.verticalAccuracy + [r.verticalAccuracy],
       speedAccuracy := f.speedAccuracy + [r.speedAccuracy],
       directionAccuracy := f.directionAccuracy + [r.directionAccuracy],
       orientationAccuracy := f.orientationAccuracy + [r.orientationAccuracy])
  }

  /** The i-th record, read back from the parallel lists. */
  function LocationAt(f: LocationFragment, i: nat): LocationRecord
    requires LocationAligned(f) && i < |f.timestamp|
  {
    LocationRecord(f.timestamp[i], f.lat[i], f.lon[i], f.speed[i], f.altitude[i], f.direction[i],
      f.orientation[i], f.horizontalAccuracy[i], f.verticalAccuracy[i], f.speedAccuracy[i],
      f.directionAccuracy[i], f.orientationAccuracy[i])
  }

  /** A push keeps the lists aligned, the identity of the fragment and every earlier record,
      and the new last record reads back as the pushed one. */
  lemma PushLocationSpec(f: LocationFragment, r: LocationRecord)
    requires LocationAligned(f)
    ensures var g := PushLocation(f, r);
      && LocationAligned(g) && |g.timestamp| == |f.timestamp| + 1
      && g.uuid == f.uuid && g.index == f.index && g.measurementId == f.measurementId
      && LocationAt(g, |f.timestamp|) == r
      && forall i :: 0 <= i < |f.timestamp| ==> LocationAt(g, i) == LocationAt(f, i)
  {
  }

  function PushAllLocations(f: LocationFragment, records: seq<LocationRecord>): LocationFragment
    decreases |records|
  {
    if records == [] then f else PushAllLocations(PushLocation(f, records[0]), records[1..])
  }

  /** A fresh fragment filled by a run of pushes reads back as exactly that run of records. */
  lemma {:induction false} PushAllLocationsReadsBack(f: LocationFragment, records: seq<LocationRecord>)
    requires LocationAligned(f)
    ensures var g := PushAllLocations(f, records);
      && LocationAligned(g) && |g.timestamp| == |f.timestamp| + |records|
      && g.uuid == f.uuid && g.index == f.index && g.measurementId == f.measurementId
      && (forall i :: 0 <= i < |f.timestamp| ==> LocationAt(g, i) == LocationAt(f, i))
      && (forall i :: 0 <= i < |records| ==> LocationAt(g, |f.timestamp| + i) == records[i])
    decreases |records|
  {
    if records != [] {
      var next := PushLocation(f, records[0]);
      PushLocationSpec(f, records[0]);
      PushAllLocationsReadsBack(next, records[1..]);
      var g := PushAllLocations(f, records);
      forall i | 0 <= i < |records|
        ensures LocationAt(g, |f.timestamp| + i) == records[i]
      {
        if i > 0 {
          assert LocationAt(g, |next.timestamp| + (i - 1)) == records[1..][i - 1];
        }
      }
    }
  }
}
