/** `DefaultMeasurementService`: the ongoing measurement and its two current sequence fragments.
    Records are pushed into the current fragments; every fragment period (and once more when the
    measurement closes) the fragments are stored, their ids appended to the measurement, the
    measurement saved, and the current fragments dropped so that the next push starts new ones.
    The clock, the random ids and the platform's user agent are parameters. */
module MeasurementService {
  import opened Wrappers
  import opened Numerics
  import opened Storage
  import opened Fragments
  import opened Measurements

  /** `SEQUENCE_FRAGMENT_DURATION_MILLISECONDS`: the period of the fragmentation job. */
  const SEQUENCE_FRAGMENT_DURATION_MILLISECONDS: Int64 := 30_000

  /** `MutableMeasurement`: the measurement being recorded. */
  datatype MutableMeasurement = MutableMeasurement(
    uuid: string,
    startTimestamp: Int64,
    endTimestamp: Option<Int64>,
    locationSequenceIds: seq<string>,
    leqsSequenceIds: seq<string>,
    recordedAudioUrl: Option<string>)

  datatype Service = Service(
    ongoing: Option<MutableMeasurement>,
    currentLeq: Option<LeqFragment>,
    currentLocation: Option<LocationFragment>,
    storages: Storages)

  /** `ongoingMeasurementUuid`. */
  function OngoingUuid(s: Service): (r: Option<string>)
    ensures r.Some? <==> s.ongoing.Some?
    ensures r.Some? ==> r.value == s.ongoing.value.uuid
  {
    if s.ongoing.Some? then Some(s.ongoing.value.uuid) else None
  }

  /** `openOngoingMeasurement`: a new measurement with no fragment ids, started now. Starting
      the fragmentation job is left to the caller, which calls `FragmentEnd` every period. */
  function Open(s: Service, uuid: string, now: Int64): Service {
    s.(ongoing := Some(MutableMeasurement(uuid, now, None, [], [], None)))
  }

  /** `pushToOngoingMeasurement(LeqRecord)`: nothing without an ongoing measurement; otherwise the
      record goes to the current Leq fragment, created first (with id `fragmentUuid`) when there
      is none, through the fragment's `push` as written (the C-weighted list receives the
      unweighted level). */
  function PushLeqRecord(s: Service, r: LeqRecord, fragmentUuid: string): Service {
    match s.ongoing
    case None => s
    case Some(o) =>
      var f := if s.currentLeq.Some? then s.currentLeq.value
        else NewLeqFragment(fragmentUuid, o.uuid, Wrap32(|o.leqsSequenceIds|));
      s.(currentLeq := Some(PushLeqAsWritten(f, r)))
  }

  /** `pushToOngoingMeasurement(LocationRecord)`. */
  function PushLocationRecord(s: Service, r: LocationRecord, fragmentUuid: string): Service {
    match s.ongoing
    case None => s
    case Some(o) =>
      var f := if s.currentLocation.Some? then s.currentLocation.value
        else NewLocationFragment(fragmentUuid, o.uuid, Wrap32(|o.locationSequenceIds|));
      s.(currentLocation := Some(PushLocation(f, r)))
  }

  /** `setOngoingMeasurementRecordedAudioUrl`. */
  function SetRecordedAudioUrl(s: Service, url: string): Service {
    match s.ongoing
    case None => s
    case Some(o) => s.(ongoing := Some(o.(recordedAudioUrl := Some(url))))
  }

  /** The current location fragment is stored and its id appended to the measurement. */
  function StoreLocationFragment(s: Service): Service {
    match s.currentLocation
    case None => s
    case Some(f) =>
      var storages := s.storages.(locations := Set(s.storages.locations, f.uuid, f));
      var ongoing := if s.ongoing.Some? then
        Some(s.ongoing.value.(locationSequenceIds := s.ongoing.value.locationSequenceIds + [f.uuid]))
        else None;
      s.(ongoing := ongoing, storages := storages)
  }

  /** The current Leq fragment is stored and its id appended to the measurement. */
  function StoreLeqFragment(s: Service): Service {
    match s.currentLeq
    case None => s
    case Some(f) =>
      var storages := s.storages.(leqs := Set(s.storages.leqs, f.uuid, f));
      var ongoing := if s.ongoing.Some? then
        Some(s.ongoing.value.(leqsSequenceIds := s.ongoing.value.leqsSequenceIds + [f.uuid]))
        else None;
      s.(ongoing := ongoing, storages := storages)
  }

  /** The `Measurement` saved for the ongoing one at time `now`. */
  function Snapshot(o: MutableMeasurement, now: Int64, userAgent: string): (m: Measurement)
    ensures m.uuid == o.uuid && m.startTimestamp == o.startTimestamp && m.endTimestamp == now
    ensures (m.duration - (now - o.startTimestamp)) % 0x1_0000_0000_0000_0000 == 0
    ensures LONG_MIN <= now - o.startTimestamp <= LONG_MAX ==> m.duration == now - o.startTimestamp
    ensures m.leqsSequenceIds == o.leqsSequenceIds && m.locationSequenceIds == o.locationSequenceIds
  {
    Measurement(o.uuid, o.startTimestamp, now, Wrap64(now - o.startTimestamp), userAgent,
      o.locationSequenceIds, o.leqsSequenceIds, o.recordedAudioUrl)
  }

  /** `saveOngoingMeasurement`. */
  function Save(s: Service, now: Int64, userAgent: string): Service {
    match s.ongoing
    case None => s
    case Some(o) =>
      s.(storages := s.storages.(measurements := Set(s.storages.measurements, o.uuid, Snapshot(o, now, userAgent))))
  }

  /** `onSequenceFragmentEnd`: location fragment, then Leq fragment, then the measurement are
      stored, and both current fragments dropped. */
  function FragmentEnd(s: Service, now: Int64, userAgent: string): Service {
    var saved := Save(StoreLeqFragment(StoreLocationFragment(s)), now, userAgent);
    saved.(currentLeq := None, currentLocation := None)
  }

  /** `closeOngoingMeasurement`: one last fragment end; cancelling the job is left out. */
  function Close(s: Service, now: Int64, userAgent: string): Service {
    FragmentEnd(s, now, userAgent)
  }

  // ---------------------------------------------------------------------------------------
  // The fragment bookkeeping invariant
  // ---------------------------------------------------------------------------------------

  /** What the service needs to know of a fragment to file it. */
  datatype FragmentTag = FragmentTag(uuid: string, index: Int32, measurementId: string)

  function LeqTag(f: LeqFragment): FragmentTag {
    FragmentTag(f.uuid, f.index, f.measurementId)
  }

  function LocationTag(f: LocationFragment): FragmentTag {
    FragmentTag(f.uuid, f.index, f.measurementId)
  }

  /** The ids listed for a measurement name distinct stored fragments, the k-th of which is
      the measurement's fragment number k. */
  predicate Filed<F>(owner: string, ids: seq<string>, st: Store<F>, tag: F -> FragmentTag) {
    && NoDuplicates(ids)
    && (forall k :: 0 <= k < |ids| ==> ids[k] in st.records)
    && (forall k :: 0 <= k < |ids| ==> tag(st.records[ids[k]]) == FragmentTag(ids[k], Wrap32(k), owner))
  }

  /** A current fragment is the measurement's next one and its id is not stored yet. */
  predicate Pending<F>(owner: string, ids: seq<string>, st: Store<F>, t: FragmentTag) {
    t.uuid !in st.records && t.index == Wrap32(|ids|) && t.measurementId == owner
  }

  predicate Tracked(s: Service) {
    && AllConsistent(s.storages)
    && (s.currentLeq.Some? ==>
          && s.ongoing.Some? && LeqAligned(s.currentLeq.value)
          && Pending(s.ongoing.value.uuid, s.ongoing.value.leqsSequenceIds, s.storages.leqs, LeqTag(s.currentLeq.value)))
    && (s.currentLocation.Some? ==>
          && s.ongoing.Some? && LocationAligned(s.currentLocation.value)
          && Pending(s.ongoing.value.uuid, s.ongoing.value.locationSequenceIds, s.storages.locations, LocationTag(s.currentLocation.value)))
    && (s.ongoing.Some? ==>
          && Filed(s.ongoing.value.uuid, s.ongoing.value.leqsSequenceIds, s.storages.leqs, LeqTag)
          && Filed(s.ongoing.value.uuid, s.ongoing.value.locationSequenceIds, s.storages.locations, LocationTag))
  }

  /** The service before any measurement. */
  function Initial(storages: Storages): (s: Service)
    requires AllConsistent(storages)
    ensures Tracked(s)
  {
    Service(None, None, None, storages)
  }

  /** Filing a pending fragment makes it the last listed one. */
  lemma FileFragment<F>(owner: string, ids: seq<string>, st: Store<F>, tag: F -> FragmentTag, f: F)
    requires Consistent(st) && Filed(owner, ids, st, tag) && Pending(owner, ids, st, tag(f))
    ensures Consistent(Set(st, tag(f).uuid, f))
    ensures Filed(owner, ids + [tag(f).uuid], Set(st, tag(f).uuid, f), tag)
  {
    var u := tag(f).uuid;
    SetSpec(st, u, f);
    assert u !in ids;
  }

  // ---------------------------------------------------------------------------------------
  // Properties
  // ---------------------------------------------------------------------------------------

  /** Opening a measurement when no fragment is pending (initially, or after `Close`). */
  lemma OpenKeepsTracked(s: Service, uuid: string, now: Int64)
    requires Tracked(s) && s.currentLeq.None? && s.currentLocation.None?
    ensures Tracked(Open(s, uuid, now))
    ensures OngoingUuid(Open(s, uuid, now)) == Some(uuid)
  {
  }

  /** A Leq push: a no-op without an ongoing measurement; otherwise only the current fragment
      changes, it gains the record as its last entry (with the unweighted level where the
      C-weighted one belongs, as `push` is written), and a new fragment is the measurement's
      next one. */
  lemma PushLeqRecordSpec(s: Service, r: LeqRecord, fragmentUuid: string)
    requires Tracked(s)
    requires s.currentLeq.None? ==> fragmentUuid !in s.storages.leqs.records
    ensures s.ongoing.None? ==> PushLeqRecord(s, r, fragmentUuid) == s
    ensures var s' := PushLeqRecord(s, r, fragmentUuid);
      && Tracked(s')
      && s'.ongoing == s.ongoing && s'.storages == s.storages && s'.currentLocation == s.currentLocation
    ensures s.ongoing.Some? ==>
      var f := PushLeqRecord(s, r, fragmentUuid).currentLeq.value;
      var before := if s.currentLeq.Some? then s.currentLeq.value.timestamp else [];
      && f.timestamp == before + [r.timestamp]
      && LeqAt(f, |before|) == (r.timestamp, r.lzeq, r.laeq, r.lzeq)
      && (s.currentLeq.None? ==> LeqTag(f) == FragmentTag(fragmentUuid, Wrap32(|s.ongoing.value.leqsSequenceIds|), s.ongoing.value.uuid))
  {
    if s.ongoing.Some? {
      var o := s.ongoing.value;
      var f := if s.currentLeq.Some? then s.currentLeq.value
        else NewLeqFragment(fragmentUuid, o.uuid, Wrap32(|o.leqsSequenceIds|));
      PushLeqAsWrittenSpec(f, r);
    }
  }

  /** A location push, as for Leq records. */
  lemma PushLocationRecordSpec(s: Service, r: LocationRecord, fragmentUuid: string)
    requires Tracked(s)
    requires s.currentLocation.None? ==> fragmentUuid !in s.storages.locations.records
    ensures s.ongoing.None? ==> PushLocationRecord(s, r, fragmentUuid) == s
    ensures var s' := PushLocationRecord(s, r, fragmentUuid);
      && Tracked(s')
      && s'.ongoing == s.ongoing && s'.storages == s.storages && s'.currentLeq == s.currentLeq
    ensures s.ongoing.Some? ==>
      var f := PushLocationRecord(s, r, fragmentUuid).currentLocation.value;
      var before := if s.currentLocation.Some? then s.currentLocation.value.timestamp else [];
      && f.timestamp == before + [r.timestamp]
      && LocationAt(f, |before|) == r
      && (s.currentLocation.None? ==>
            LocationTag(f) == FragmentTag(fragmentUuid, Wrap32(|s.ongoing.value.locationSequenceIds|), s.ongoing.value.uuid))
  {
    if s.ongoing.Some? {
      var o := s.ongoing.value;
      var f := if s.currentLocation.Some? then s.currentLocation.value
        else NewLocationFragment(fragmentUuid, o.uuid, Wrap32(|o.locationSequenceIds|));
      PushLocationSpec(f, r);
    }
  }

  lemma StoreLocationKeepsTracked(s: Service)
    requires Tracked(s)
    ensures var s' := StoreLocationFragment(s);
      && AllConsistent(s'.storages)
      && s'.currentLeq == s.currentLeq && s'.storages.leqs == s.storages.leqs
      && s'.storages.measurements == s.storages.measurements
      && (s.ongoing.Some? <==> s'.ongoing.Some?)
      && (s.ongoing.Some? ==>
            && s'.ongoing.value == s.ongoing.value.(locationSequenceIds := s'.ongoing.value.locationSequenceIds)
            && s'.ongoing.value.locationSequenceIds ==
                 s.ongoing.value.locationSequenceIds + (if s.currentLocation.Some? then [s.currentLocation.value.uuid] else [])
            && Filed(s.ongoing.value.uuid, s'.ongoing.value.locationSequenceIds, s'.storages.locations, LocationTag))
  {
    if s.currentLocation.Some? {
      var o := s.ongoing.value;
      FileFragment(o.uuid, o.locationSequenceIds, s.storages.locations, LocationTag, s.currentLocation.value);
    }
  }

  lemma StoreLeqKeepsTracked(s: Service)
    requires AllConsistent(s.storages)
    requires s.currentLeq.Some? ==>
      && s.ongoing.Some?
      && Pending(s.ongoing.value.uuid, s.ongoing.value.leqsSequenceIds, s.storages.leqs, LeqTag(s.currentLeq.value))
    requires s.ongoing.Some? ==> Filed(s.ongoing.value.uuid, s.ongoing.value.leqsSequenceIds, s.storages.leqs, LeqTag)
    ensures var s' := StoreLeqFragment(s);
      && AllConsistent(s'.storages)
      && s'.storages.locations == s.storages.locations
      && s'.storages.measurements == s.storages.measurements
      && (s.ongoing.Some? <==> s'.ongoing.Some?)
      && (s.ongoing.Some? ==>
            && s'.ongoing.value == s.ongoing.value.(leqsSequenceIds := s'.ongoing.value.leqsSequenceIds)
            && s'.ongoing.value.leqsSequenceIds ==
                 s.ongoing.value.leqsSequenceIds + (if s.currentLeq.Some? then [s.currentLeq.value.uuid] else [])
            && Filed(s.ongoing.value.uuid, s'.ongoing.value.leqsSequenceIds, s'.storages.leqs, LeqTag))
  {
    if s.currentLeq.Some? {
      var o := s.ongoing.value;
      FileFragment(o.uuid, o.leqsSequenceIds, s.storages.leqs, LeqTag, s.currentLeq.value);
    }
  }

  /** A fragment end files both current fragments as the measurement's next ones, saves the
      measurement with them, and leaves no fragment pending. */
  lemma {:induction false} FragmentEndSpec(s: Service, now: Int64, userAgent: string)
    requires Tracked(s)
    ensures var s' := FragmentEnd(s, now, userAgent);
      && Tracked(s')
      && s'.currentLeq.None? && s'.currentLocation.None?
      && (s.ongoing.None? ==> s'.ongoing.None?)
    ensures s.ongoing.Some? ==>
      var s', o := FragmentEnd(s, now, userAgent), s.ongoing.value;
      && s'.ongoing.Some?
      && s'.ongoing.value.uuid == o.uuid && s'.ongoing.value.startTimestamp == o.startTimestamp
      && s'.ongoing.value.leqsSequenceIds ==
           o.leqsSequenceIds + (if s.currentLeq.Some? then [s.currentLeq.value.uuid] else [])
      && s'.ongoing.value.locationSequenceIds ==
           o.locationSequenceIds + (if s.currentLocation.Some? then [s.currentLocation.value.uuid] else [])
      && Get(s'.storages.measurements, o.uuid) == Some(Snapshot(s'.ongoing.value, now, userAgent))
  {
    var s1 := StoreLocationFragment(s);
    StoreLocationKeepsTracked(s);
    var s2 := StoreLeqFragment(s1);
    StoreLeqKeepsTracked(s1);
    if s2.ongoing.Some? {
      var o := s2.ongoing.value;
      SetSpec(s2.storages.measurements, o.uuid, Snapshot(o, now, userAgent));
    }
  }

  /** Once saved, a measurement's Leq sequence reads back every filed fragment in order, the
      k-th being its fragment number k. */
  lemma SavedLeqSequenceInOrder(s: Service)
    requires Tracked(s) && s.ongoing.Some?
    requires Get(s.storages.measurements, s.ongoing.value.uuid).Some?
    requires Get(s.storages.measurements, s.ongoing.value.uuid).value.leqsSequenceIds == s.ongoing.value.leqsSequenceIds
    ensures var o, fragments := s.ongoing.value, LeqSequenceFor(s.storages, s.ongoing.value.uuid);
      && |fragments| == |o.leqsSequenceIds|
      && forall k :: 0 <= k < |fragments| ==>
           fragments[k].uuid == o.leqsSequenceIds[k] && fragments[k].index == Wrap32(k) && fragments[k].measurementId == o.uuid
  {
    var o := s.ongoing.value;
    LeqSequenceForSpec(s.storages, o.uuid);
    assert forall k :: 0 <= k < |o.leqsSequenceIds| ==>
      LeqTag(s.storages.leqs.records[o.leqsSequenceIds[k]]) == FragmentTag(o.leqsSequenceIds[k], Wrap32(k), o.uuid);
  }

  /** After a fragment end, the saved measurement's Leq sequence is every fragment filed so far
      in order, ending with the one that was current. */
  lemma FragmentEndReadsBack(s: Service, now: Int64, userAgent: string)
    requires Tracked(s) && s.ongoing.Some? && s.currentLeq.Some?
    ensures var fragments := LeqSequenceFor(FragmentEnd(s, now, userAgent).storages, s.ongoing.value.uuid);
      && |fragments| == |s.ongoing.value.leqsSequenceIds| + 1
      && fragments[|fragments| - 1].uuid == s.currentLeq.value.uuid
      && forall k :: 0 <= k < |fragments| ==> fragments[k].index == Wrap32(k)
  {
    FragmentEndSpec(s, now, userAgent);
    SavedLeqSequenceInOrder(FragmentEnd(s, now, userAgent));
  }

  /** Recording the audio URL changes only the ongoing measurement's URL. */
  lemma SetRecordedAudioUrlKeepsTracked(s: Service, url: string)
    requires Tracked(s)
    ensures Tracked(SetRecordedAudioUrl(s, url))
    ensures s.ongoing.Some? ==> SetRecordedAudioUrl(s, url).ongoing.value.recordedAudioUrl == Some(url)
  {
  }
}
