/** `DefaultUserStatisticsService`: the running count and total duration of the user's
    measurements, kept as a single record of the statistics store and updated as measurements
    are added and removed. Counts are Kotlin `Int` and durations `Long`, so every update wraps. */
module Statistics {
  import opened Wrappers
  import opened Numerics
  import opened Storage
  import opened Measurements

  datatype UserStatistics = UserStatistics(totalMeasurementsCount: Int32, totalMeasuredDuration: Int64)

  /** `UserStatistics()`: nothing counted yet. */
  const DEFAULT_STATISTICS := UserStatistics(0, 0)

  /** `get`: the stored record, or the default when there is none. */
  function Current(st: Store<UserStatistics>, id: string): (s: UserStatistics)
    ensures id !in st.records ==> s == DEFAULT_STATISTICS
    ensures id in st.records ==> s == st.records[id]
  {
    Get(st, id).GetOr(DEFAULT_STATISTICS)
  }

  /** The statistics counting one more measurement. */
  function Added(s: UserStatistics, m: Measurement): UserStatistics {
    UserStatistics(Wrap32(s.totalMeasurementsCount + 1), Wrap64(s.totalMeasuredDuration + m.duration))
  }

  /** The statistics counting one measurement less. */
  function Removed(s: UserStatistics, m: Measurement): UserStatistics {
    UserStatistics(Wrap32(s.totalMeasurementsCount - 1), Wrap64(s.totalMeasuredDuration - m.duration))
  }

  /** `addMeasurement`. */
  function AddMeasurement(st: Store<UserStatistics>, id: string, m: Measurement): Store<UserStatistics> {
    Set(st, id, Added(Current(st, id), m))
  }

  /** `removeMeasurement`. */
  function RemoveMeasurement(st: Store<UserStatistics>, id: string, m: Measurement): Store<UserStatistics> {
    Set(st, id, Removed(Current(st, id), m))
  }

  /** `reduceOrNull { total, duration -> total + duration } ?: 0` over the durations. */
  function TotalDuration(all: seq<Measurement>): Int64
    decreases |all|
  {
    if |all| == 0 then 0
    else if |all| == 1 then all[0].duration
    else Wrap64(TotalDuration(all[..|all| - 1]) + all[|all| - 1].duration)
  }

  /** The exact sum of the durations. */
  function ExactDuration(all: seq<Measurement>): int
    decreases |all|
  {
    if all == [] then 0 else ExactDuration(all[..|all| - 1]) + all[|all| - 1].duration
  }

  /** The statistics `recalculate` stores for the given measurements. */
  function Recalculated(all: seq<Measurement>): UserStatistics {
    UserStatistics(Wrap32(|all|), TotalDuration(all))
  }

  /** `recalculate`: every stored measurement is read and the record rewritten. */
  function Recalculate(st: Store<UserStatistics>, id: string, measurements: Store<Measurement>): Store<UserStatistics> {
    Set(st, id, Recalculated(GetAll(measurements)))
  }

  /** `init`: the statistics are recalculated exactly when the stored count differs from the
      number of ids in the measurement index. Afterwards the count agrees with the index (for a
      consistent index that fits an `Int`); a recalculated duration is the sum of the stored
      measurements' durations, wrapped to a `Long`; and no other record of the store changes. */
  function Init(st: Store<UserStatistics>, id: string, measurements: Store<Measurement>): (r: Store<UserStatistics>)
    ensures Current(st, id).totalMeasurementsCount == |measurements.index| ==> r == st
    ensures Consistent(measurements) && |measurements.index| <= INT_MAX ==>
      Current(r, id).totalMeasurementsCount == |measurements.index|
    ensures Current(st, id).totalMeasurementsCount != |measurements.index| ==>
      Current(r, id).totalMeasuredDuration == Wrap64(ExactDuration(GetAll(measurements)))
    ensures forall other :: other != id ==> Get(r, other) == Get(st, other)
  {
    SetReads(st, id, Recalculated(GetAll(measurements)));
    TotalDurationSpec(GetAll(measurements));
    CountOfConsistent(measurements);
    if |measurements.index| != Current(st, id).totalMeasurementsCount then Recalculate(st, id, measurements) else st
  }

  lemma CountOfConsistent(measurements: Store<Measurement>)
    ensures Consistent(measurements) ==> |GetAll(measurements)| == |measurements.index|
  {
    if Consistent(measurements) {
      GetAllConsistent(measurements);
    }
  }

  /** Folding `addMeasurement` over a list of measurements. */
  function AddedAll(s: UserStatistics, all: seq<Measurement>): UserStatistics
    decreases |all|
  {
    if all == [] then s else Added(AddedAll(s, all[..|all| - 1]), all[|all| - 1])
  }

  // ---------------------------------------------------------------------------------------
  // Wrap-around arithmetic
  // ---------------------------------------------------------------------------------------

  lemma Wrap32Congruent(x: int, y: int)
    requires (x - y) % 0x1_0000_0000 == 0
    ensures Wrap32(x) == Wrap32(y)
  {
    var q := (x - y) / 0x1_0000_0000;
    assert x - INT_MIN == (y - INT_MIN) + q * 0x1_0000_0000;
  }

  lemma Wrap64Congruent(x: int, y: int)
    requires (x - y) % 0x1_0000_0000_0000_0000 == 0
    ensures Wrap64(x) == Wrap64(y)
  {
    var q := (x - y) / 0x1_0000_0000_0000_0000;
    assert x - LONG_MIN == (y - LONG_MIN) + q * 0x1_0000_0000_0000_0000;
  }

  // ---------------------------------------------------------------------------------------
  // Properties
  // ---------------------------------------------------------------------------------------

  /** `removeMeasurement` undoes `addMeasurement` for every count and duration, wrap-around
      included. */
  lemma RemovedUndoesAdded(s: UserStatistics, m: Measurement)
    ensures Removed(Added(s, m), m) == s
  {
    Wrap32Congruent(Wrap32(s.totalMeasurementsCount + 1) - 1, s.totalMeasurementsCount);
    Wrap64Congruent(Wrap64(s.totalMeasuredDuration + m.duration) - m.duration, s.totalMeasuredDuration);
  }

  /** Adding then removing the same measurement reads back the statistics read before. */
  lemma RemoveUndoesAdd(st: Store<UserStatistics>, id: string, m: Measurement)
    ensures Current(RemoveMeasurement(AddMeasurement(st, id, m), id, m), id) == Current(st, id)
  {
    RemovedUndoesAdded(Current(st, id), m);
  }

  /** The summed durations are the exact sum wrapped into `Long`, and exact whenever the sum
      fits. */
  lemma {:induction false} TotalDurationSpec(all: seq<Measurement>)
    ensures (TotalDuration(all) - ExactDuration(all)) % 0x1_0000_0000_0000_0000 == 0
    ensures TotalDuration(all) == Wrap64(ExactDuration(all))
    ensures LONG_MIN <= ExactDuration(all) <= LONG_MAX ==> TotalDuration(all) == ExactDuration(all)
    decreases |all|
  {
    var n := |all|;
    if n == 1 {
      assert all[..0] == [];
    } else if n > 1 {
      var init := all[..n - 1];
      TotalDurationSpec(init);
      Wrap64Congruent(TotalDuration(init) + all[n - 1].duration, ExactDuration(init) + all[n - 1].duration);
    }
  }

  /** Adding measurements one by one to empty statistics gives what `recalculate` computes from
      all of them at once. */
  lemma {:induction false} AddedAllIsRecalculated(all: seq<Measurement>)
    ensures AddedAll(DEFAULT_STATISTICS, all) == Recalculated(all)
    decreases |all|
  {
    var n := |all|;
    if n > 0 {
      var init := all[..n - 1];
      AddedAllIsRecalculated(init);
      TotalDurationSpec(all);
      TotalDurationSpec(init);
      Wrap32Congruent(Wrap32(|init|) + 1, |all|);
      Wrap64Congruent(TotalDuration(init) + all[n - 1].duration, ExactDuration(all));
    }
  }

}
