/** `Measurement` records and `MeasurementStorageService`: the measurement store together with
    the two fragment stores its records point into, the cascading delete and the migration of
    records that no longer decode. */
module Measurements {
  import opened Wrappers
  import opened Numerics
  import opened Storage
  import opened Fragments

  /** A saved measurement. The summary and LAeq metrics are not part of this model. */
  datatype Measurement = Measurement(
    uuid: string,
    startTimestamp: Int64,
    endTimestamp: Int64,
    duration: Int64,
    userAgent: string,
    locationSequenceIds: seq<string>,
    leqsSequenceIds: seq<string>,
    recordedAudioUrl: Option<string>)

  /** The three stores: measurements, and the Leq and location fragments they list. */
  datatype Storages = Storages(
    measurements: Store<Measurement>,
    leqs: Store<LeqFragment>,
    locations: Store<LocationFragment>)

  predicate AllConsistent(sys: Storages) {
    Consistent(sys.measurements) && Consistent(sys.leqs) && Consistent(sys.locations)
  }

  /** Deletes each id in turn, through the store's own `delete`. */
  function DeleteAll<V>(st: Store<V>, ids: seq<string>): Store<V>
    decreases |ids|
  {
    if ids == [] then st else DeleteAll(Delete(st, ids[0]), ids[1..])
  }

  /** `delete`: an unknown measurement leaves every store as it is; otherwise its Leq fragments,
      then its location fragments, then the measurement itself are deleted. */
  function DeleteMeasurement(sys: Storages, uuid: string): Storages {
    match Get(sys.measurements, uuid)
    case None => sys
    case Some(m) =>
      Storages(
        Delete(sys.measurements, uuid),
        DeleteAll(sys.leqs, m.leqsSequenceIds),
        DeleteAll(sys.locations, m.locationSequenceIds))
  }

  /** The fragment id lists read from the stored JSON of a measurement that no longer decodes;
      a missing key reads as `None`. JSON of the wrong shape, which makes `jsonObject` or
      `jsonArray` throw, is not part of this model. */
  datatype StoredData = StoredData(leqsSequenceIds: Option<seq<string>>, locationSequenceIds: Option<seq<string>>)

  function IdsOf(ids: Option<seq<string>>): seq<string> {
    if ids.Some? then ids.value else []
  }

  /** `migrate` as written: the Leq fragment ids and also the location fragment ids are
      deleted through the Leq fragment store, then the measurement record; the result is
      always null. */
  function MigrateAsWritten(sys: Storages, uuid: string, data: Option<StoredData>): (Storages, Option<Measurement>) {
    var leqIds := if data.Some? then IdsOf(data.value.leqsSequenceIds) else [];
    var locationIds := if data.Some? then IdsOf(data.value.locationSequenceIds) else [];
    var leqs := DeleteAll(DeleteAll(sys.leqs, leqIds), locationIds);
    (Storages(Delete(sys.measurements, uuid), leqs, sys.locations), None)
  }

  /** `migrate` as intended: the location fragment ids are deleted from the location store. */
  function Migrate(sys: Storages, uuid: string, data: Option<StoredData>): (Storages, Option<Measurement>) {
    var leqIds := if data.Some? then IdsOf(data.value.leqsSequenceIds) else [];
    var locationIds := if data.Some? then IdsOf(data.value.locationSequenceIds) else [];
    (Storages(Delete(sys.measurements, uuid), DeleteAll(sys.leqs, leqIds), DeleteAll(sys.locations, locationIds)), None)
  }

  /** `getLeqSequenceForMeasurement`: the stored Leq fragments of a measurement in list order,
      skipping ids with no record; nothing for an unknown measurement. */
  function LeqSequenceFor(sys: Storages, uuid: string): seq<LeqFragment> {
    match Get(sys.measurements, uuid)
    case None => []
    case Some(m) => RecordsOf(m.leqsSequenceIds, sys.leqs.records)
  }

  /** `getLocationSequenceForMeasurement`. */
  function LocationSequenceFor(sys: Storages, uuid: string): seq<LocationFragment> {
    match Get(sys.measurements, uuid)
    case None => []
    case Some(m) => RecordsOf(m.locationSequenceIds, sys.locations.records)
  }

  // ---------------------------------------------------------------------------------------
  // Properties
  // ---------------------------------------------------------------------------------------

  /** Deleting a list of ids keeps the store consistent, removes each listed record and no
      other. */
  lemma {:induction false} DeleteAllSpec<V>(st: Store<V>, ids: seq<string>)
    requires Consistent(st)
    ensures Consistent(DeleteAll(st, ids))
    ensures forall id :: id in ids ==> Get(DeleteAll(st, ids), id) == None
    ensures forall id :: id !in ids ==> Get(DeleteAll(st, ids), id) == Get(st, id)
    decreases |ids|
  {
    if ids != [] {
      DeleteSpec(st, ids[0]);
      DeleteAllSpec(Delete(st, ids[0]), ids[1..]);
      assert forall id :: id in ids <==> id == ids[0] || id in ids[1..];
    }
  }

  /** The cascading delete: the measurement and every fragment it lists are gone, every other
      record is kept, and an unknown measurement changes nothing. */
  lemma DeleteMeasurementSpec(sys: Storages, uuid: string)
    requires AllConsistent(sys)
    ensures var sys' := DeleteMeasurement(sys, uuid);
      && AllConsistent(sys')
      && Get(sys'.measurements, uuid) == None
      && (forall other :: other != uuid ==> Get(sys'.measurements, other) == Get(sys.measurements, other))
    ensures uuid !in sys.measurements.records ==> DeleteMeasurement(sys, uuid) == sys
    ensures uuid in sys.measurements.records ==>
      var m, sys' := sys.measurements.records[uuid], DeleteMeasurement(sys, uuid);
      && (forall id :: id in m.leqsSequenceIds ==> Get(sys'.leqs, id) == None)
      && (forall id :: id !in m.leqsSequenceIds ==> Get(sys'.leqs, id) == Get(sys.leqs, id))
      && (forall id :: id in m.locationSequenceIds ==> Get(sys'.locations, id) == None)
      && (forall id :: id !in m.locationSequenceIds ==> Get(sys'.locations, id) == Get(sys.locations, id))
  {
    if uuid in sys.measurements.records {
      var m := sys.measurements.records[uuid];
      DeleteSpec(sys.measurements, uuid);
      DeleteAllSpec(sys.leqs, m.leqsSequenceIds);
      DeleteAllSpec(sys.locations, m.locationSequenceIds);
    }
  }

  /** After the cascading delete nothing can be read back for the measurement. */
  lemma DeletedMeasurementHasNoSequence(sys: Storages, uuid: string)
    requires AllConsistent(sys)
    ensures LeqSequenceFor(DeleteMeasurement(sys, uuid), uuid) == []
    ensures LocationSequenceFor(DeleteMeasurement(sys, uuid), uuid) == []
  {
    DeleteMeasurementSpec(sys, uuid);
  }

  /** The corrected migration removes the record and every fragment the stored data lists, and
      returns nothing. */
  lemma MigrateSpec(sys: Storages, uuid: string, data: StoredData)
    requires AllConsistent(sys)
    ensures var (sys', r) := Migrate(sys, uuid, Some(data));
      && r == None
      && AllConsistent(sys')
      && Get(sys'.measurements, uuid) == None
      && (forall id :: id in IdsOf(data.leqsSequenceIds) ==> Get(sys'.leqs, id) == None)
      && (forall id :: id in IdsOf(data.locationSequenceIds) ==> Get(sys'.locations, id) == None)
  {
    DeleteSpec(sys.measurements, uuid);
    DeleteAllSpec(sys.leqs, IdsOf(data.leqsSequenceIds));
    DeleteAllSpec(sys.locations, IdsOf(data.locationSequenceIds));
  }

  /** The migration as written leaves every location fragment of the dropped measurement in
      its store, with no measurement left to reach it. */
  lemma MigrateAsWrittenOrphansLocations(sys: Storages, uuid: string, data: StoredData)
    requires AllConsistent(sys)
    ensures var (sys', r) := MigrateAsWritten(sys, uuid, Some(data));
      && r == None
      && Get(sys'.measurements, uuid) == None
      && (forall id :: id in IdsOf(data.locationSequenceIds) && id in sys.locations.records ==>
            Get(sys'.locations, id) == Get(sys.locations, id))
  {
    DeleteSpec(sys.measurements, uuid);
  }

  /** A measurement with one location fragment: the migration as written keeps the fragment,
      the corrected one removes it. */
  lemma MigrateAsWrittenKeepsFragment()
    ensures var fragment := NewLocationFragment("l", "m", 0);
      var locations := Store(["l"], map["l" := fragment]);
      var sys := Storages(EmptyStore(), EmptyStore(), locations);
      var data := StoredData(None, Some(["l"]));
      && Get(MigrateAsWritten(sys, "m", Some(data)).0.locations, "l") == Some(fragment)
      && Get(Migrate(sys, "m", Some(data)).0.locations, "l") == None
  {
    var fragment := NewLocationFragment("l", "m", 0);
    var locations := Store(["l"], map["l" := fragment]);
    assert Delete(locations, "l").records == map[];
  }

  /** The Leq sequence of a measurement holds one stored fragment per listed id, in list order,
      when every listed fragment is stored. */
  lemma LeqSequenceForSpec(sys: Storages, uuid: string)
    requires uuid in sys.measurements.records
    requires var ids := sys.measurements.records[uuid].leqsSequenceIds;
      forall i :: 0 <= i < |ids| ==> ids[i] in sys.leqs.records
    ensures var ids := sys.measurements.records[uuid].leqsSequenceIds;
      && |LeqSequenceFor(sys, uuid)| == |ids|
      && forall i :: 0 <= i < |ids| ==> LeqSequenceFor(sys, uuid)[i] == sys.leqs.records[ids[i]]
  {
    GetAllSpec(sys.measurements.records[uuid].leqsSequenceIds, sys.leqs.records);
  }

  /** Fragments that are not stored are skipped, never invented. */
  lemma {:induction false} RecordsOfSkips<V>(ids: seq<string>, records: map<string, V>)
    ensures |RecordsOf(ids, records)| <= |ids|
    ensures forall v :: v in RecordsOf(ids, records) ==> exists id :: id in ids && id in records && records[id] == v
    decreases |ids|
  {
    if ids != [] {
      RecordsOfSkips(ids[1..], records);
      forall v | v in RecordsOf(ids, records)
        ensures exists id :: id in ids && id in records && records[id] == v
      {
        if ids[0] in records && v == records[ids[0]] {
          assert ids[0] in ids;
        } else {
          assert v in RecordsOf(ids[1..], records);
          var id :| id in ids[1..] && id in records && records[id] == v;
          assert id in ids;
        }
      }
    }
  }
}
