/** `KStoreStorageService`: records of one type kept one per file, plus an index file that
    lists the ids of the stored records. The files are modelled as a map from id to record. */
module Storage {
  import opened Wrappers

  datatype Store<V> = Store(index: seq<string>, records: map<string, V>)

  function EmptyStore<V>(): (st: Store<V>)
    ensures Consistent(st)
  {
    Store([], map[])
  }

  /** The index lists every stored record exactly once. */
  predicate Consistent<V>(st: Store<V>) {
    NoDuplicates(st.index) && (set i | 0 <= i < |st.index| :: st.index[i]) == st.records.Keys
  }

  predicate NoDuplicates<T(==)>(s: seq<T>) {
    forall i, j :: 0 <= i < j < |s| ==> s[i] != s[j]
  }

  /** `get`: the stored record, if any. */
  function Get<V>(st: Store<V>, uuid: string): (r: Option<V>)
    ensures r.Some? <==> uuid in st.records
  {
    if uuid in st.records then Some(st.records[uuid]) else None
  }

  /** `set`: the id is appended to the index only if it is not listed yet, then the record is
      written. */
  function Set<V>(st: Store<V>, uuid: string, value: V): Store<V> {
    Store(if uuid in st.index then st.index else st.index + [uuid], st.records[uuid := value])
  }

  /** `List.minus` and `MutableList.remove`: the list without its first occurrence of x. */
  function RemoveFirst<T(==)>(s: seq<T>, x: T): (r: seq<T>)
    ensures x !in s ==> r == s
    ensures x in s ==> |r| == |s| - 1
    ensures forall y :: y in r ==> y in s
  {
    if s == [] then []
    else if s[0] == x then s[1..]
    else [s[0]] + RemoveFirst(s[1..], x)
  }

  /** `delete`: the id is taken out of the index if it is listed, then the record's file is
      deleted. */
  function Delete<V>(st: Store<V>, uuid: string): Store<V> {
    Store(if uuid in st.index then RemoveFirst(st.index, uuid) else st.index, st.records - {uuid})
  }

  /** `getAll`: the records of the listed ids, in index order, skipping ids with no record. */
  function GetAll<V>(st: Store<V>): seq<V> {
    RecordsOf(st.index, st.records)
  }

  function RecordsOf<V>(ids: seq<string>, records: map<string, V>): seq<V>
    decreases |ids|
  {
    if ids == [] then []
    else
      var rest := RecordsOf(ids[1..], records);
      if ids[0] in records then [records[ids[0]]] + rest else rest
  }

  /** `migrate` of the base store: a record that no longer reads is deleted and nothing is
      returned. */
  function Migrate<V>(st: Store<V>, uuid: string): (Store<V>, Option<V>) {
    (Delete(st, uuid), None)
  }

  /** `getFileNameForRecord`. */
  function FileName(prefix: string, uuid: string): string {
    prefix + "/" + uuid + ".json"
  }

  /** Within one store, different records live in different files. */
  lemma FileNameInjective(prefix: string, a: string, b: string)
    requires FileName(prefix, a) == FileName(prefix, b)
    ensures a == b
  {
    var n := |prefix| + 1;
    assert |a| == |b|;
    assert a == FileName(prefix, a)[n..n + |a|];
    assert b == FileName(prefix, b)[n..n + |b|];
  }

  // ---------------------------------------------------------------------------------------
  // Properties
  // ---------------------------------------------------------------------------------------

  lemma {:induction false} RemoveFirstSpec<T>(s: seq<T>, x: T)
    requires NoDuplicates(s)
    ensures NoDuplicates(RemoveFirst(s, x))
    ensures forall y :: y in RemoveFirst(s, x) <==> y in s && y != x
  {
    if s != [] && s[0] != x {
      RemoveFirstSpec(s[1..], x);
      var r := RemoveFirst(s, x);
      assert r == [s[0]] + RemoveFirst(s[1..], x);
      assert s[0] !in s[1..];
    } else if s != [] {
      assert s[0] !in s[1..];
    }
  }

  lemma Elements(s: seq<string>)
    ensures (set i | 0 <= i < |s| :: s[i]) == set y | y in s
  {
  }

  /** A record reads back as it was set, whatever the index holds; other records are kept. */
  lemma SetReads<V>(st: Store<V>, uuid: string, value: V)
    ensures Get(Set(st, uuid, value), uuid) == Some(value)
    ensures forall other :: other != uuid ==> Get(Set(st, uuid, value), other) == Get(st, other)
  {
  }

  /** `set` keeps the store consistent: the record reads back, the index lists the id once and
      gains nothing else, and every other record is unchanged. */
  lemma SetSpec<V>(st: Store<V>, uuid: string, value: V)
    requires Consistent(st)
    ensures var st' := Set(st, uuid, value);
      && Consistent(st')
      && Get(st', uuid) == Some(value)
      && (forall other :: other != uuid ==> Get(st', other) == Get(st, other))
      && |st'.index| == |st.index| + (if uuid in st.records then 0 else 1)
  {
    var st' := Set(st, uuid, value);
    Elements(st.index);
    Elements(st'.index);
    if uuid !in st.index {
      assert forall i :: 0 <= i < |st.index| ==> st'.index[i] == st.index[i];
    }
  }

  /** `delete` keeps the store consistent: the record is gone, the index loses exactly that id,
      and every other record is unchanged. */
  lemma DeleteSpec<V>(st: Store<V>, uuid: string)
    requires Consistent(st)
    ensures var st' := Delete(st, uuid);
      && Consistent(st')
      && Get(st', uuid) == None
      && (forall other :: other != uuid ==> Get(st', other) == Get(st, other))
      && |st'.index| == |st.index| - (if uuid in st.records then 1 else 0)
  {
    var st' := Delete(st, uuid);
    Elements(st.index);
    Elements(st'.index);
    RemoveFirstSpec(st.index, uuid);
  }

  /** Deleting a record just set gives back the store without it. */
  lemma DeleteUndoesSet<V>(st: Store<V>, uuid: string, value: V)
    requires Consistent(st) && uuid !in st.records
    ensures Delete(Set(st, uuid, value), uuid) == st
  {
    Elements(st.index);
    assert uuid !in st.index;
    RemoveFirstAppended(st.index, uuid);
  }

  /** Removing an element appended to a sequence that did not hold it gives the sequence back. */
  lemma {:induction false} RemoveFirstAppended<T>(s: seq<T>, x: T)
    requires x !in s
    ensures RemoveFirst(s + [x], x) == s
    decreases |s|
  {
    if s != [] {
      assert (s + [x])[1..] == s[1..] + [x];
      RemoveFirstAppended(s[1..], x);
    }
  }

  /** In a consistent store `getAll` returns every stored record once, in index order. */
  lemma {:induction false} GetAllSpec<V>(ids: seq<string>, records: map<string, V>)
    requires forall i :: 0 <= i < |ids| ==> ids[i] in records
    ensures |RecordsOf(ids, records)| == |ids|
    ensures forall i :: 0 <= i < |ids| ==> RecordsOf(ids, records)[i] == records[ids[i]]
    decreases |ids|
  {
    if ids != [] {
      GetAllSpec(ids[1..], records);
    }
  }

  /** `getAll` on a consistent store: one record per listed id, in index order. */
  lemma GetAllConsistent<V>(st: Store<V>)
    requires Consistent(st)
    ensures |GetAll(st)| == |st.index| == |st.records|
    ensures forall i :: 0 <= i < |st.index| ==> GetAll(st)[i] == st.records[st.index[i]]
  {
    Elements(st.index);
    GetAllSpec(st.index, st.records);
    DistinctCount(st.index);
  }

  lemma {:induction false} DistinctCount(s: seq<string>)
    requires NoDuplicates(s)
    ensures |set y | y in s| == |s|
  {
    if s != [] {
      DistinctCount(s[1..]);
      assert (set y | y in s) == (set y | y in s[1..]) + {s[0]};
      assert s[0] !in s[1..];
    }
  }

  /** The base `migrate` deletes the record and returns nothing. */
  lemma MigrateSpec<V>(st: Store<V>, uuid: string)
    requires Consistent(st)
    ensures Migrate(st, uuid).1 == None
    ensures Consistent(Migrate(st, uuid).0) && Get(Migrate(st, uuid).0, uuid) == None
  {
    DeleteSpec(st, uuid);
  }
}
