/** The student repository over an abstract store. The table is held as
    its rows in clustered-key order (ascending `Id`, which is also insertion
    order because identities only grow) together with the next identity
    value. `ToMap` reads it as the `map<int, Student>` from key to record in
    which the frame conditions of each operation are stated. */
module Repository {
  import opened Wrappers
  import opened Dates
  import opened Students

  /** The table: its rows and the next identity value (seed 1, step 1). */
  datatype Store = Store(rows: seq<Student>, nextId: int)

  /** An empty table. */
  const EmptyStore: Store := Store([], 1)

  predicate AscendingIds(rows: seq<Student>) {
    forall i, j :: 0 <= i < j < |rows| ==> rows[i].id < rows[j].id
  }

  /** What the table guarantees of its own contents: keys are unique and in
      clustered order, each below the next identity value, and every row
      passed the column constraints when it was written. */
  predicate Valid(st: Store) {
    && 1 <= st.nextId
    && AscendingIds(st.rows)
    && (forall i :: 0 <= i < |st.rows| ==> 1 <= st.rows[i].id < st.nextId)
    && (forall i :: 0 <= i < |st.rows| ==> FitsColumns(st.rows[i]))
  }

  /** The keys present in a sequence of rows. */
  function IdsOf(rows: seq<Student>): set<int> {
    set i | 0 <= i < |rows| :: rows[i].id
  }

  /** The rows read as a map from key to record; when two rows share a key
      the earlier one is the one a key lookup sees. */
  function ToMap(rows: seq<Student>): map<int, Student> {
    if |rows| == 0 then map[] else ToMap(rows[1..])[rows[0].id := rows[0]]
  }

  // ---- the map reading ----

  lemma {:induction false} ToMapKeys(rows: seq<Student>)
    ensures ToMap(rows).Keys == IdsOf(rows)
  {
    if |rows| > 0 {
      ToMapKeys(rows[1..]);
      assert IdsOf(rows) == {rows[0].id} + IdsOf(rows[1..]) by {
        forall k | k in IdsOf(rows) ensures k in {rows[0].id} + IdsOf(rows[1..]) {
          var i :| 0 <= i < |rows| && rows[i].id == k;
          if i > 0 { assert rows[1..][i - 1].id == k; }
        }
        forall k | k in IdsOf(rows[1..]) ensures k in IdsOf(rows) {
          var i :| 0 <= i < |rows[1..]| && rows[1..][i].id == k;
          assert rows[i + 1].id == k;
        }
      }
    }
  }

  /** Every record is filed under its own key. */
  lemma {:induction false} ToMapFilesByKey(rows: seq<Student>)
    ensures forall k :: k in ToMap(rows) ==> ToMap(rows)[k].id == k
  {
    if |rows| > 0 {
      ToMapFilesByKey(rows[1..]);
    }
  }

  /** With unique keys, each row is the record filed under its key. */
  lemma {:induction false} ToMapAt(rows: seq<Student>, i: int)
    requires AscendingIds(rows) && 0 <= i < |rows|
    ensures rows[i].id in ToMap(rows) && ToMap(rows)[rows[i].id] == rows[i]
  {
    if i > 0 {
      assert rows[1..][i - 1] == rows[i];
      ToMapAt(rows[1..], i - 1);
      assert rows[0].id != rows[i].id;
    }
  }

  /** Every record of the map is one of the rows. */
  lemma {:induction false} ToMapValuesAreRows(rows: seq<Student>)
    ensures forall k :: k in ToMap(rows) ==> ToMap(rows)[k] in rows
  {
    if |rows| > 0 {
      ToMapValuesAreRows(rows[1..]);
    }
  }

  /** With unique keys the map holds one entry per row. */
  lemma {:induction false} ToMapSize(rows: seq<Student>)
    requires AscendingIds(rows)
    ensures |ToMap(rows)| == |rows|
  {
    if |rows| > 0 {
      ToMapSize(rows[1..]);
      ToMapKeys(rows[1..]);
      assert rows[0].id !in IdsOf(rows[1..]);
    }
  }

  /** Appending a row with a key not yet present adds exactly that entry. */
  lemma {:induction false} ToMapAppend(rows: seq<Student>, s: Student)
    requires s.id !in IdsOf(rows)
    ensures ToMap(rows + [s]) == ToMap(rows)[s.id := s]
  {
    if |rows| == 0 {
      assert ToMap([s]) == ToMap([])[s.id := s];
    } else {
      assert (rows + [s])[1..] == rows[1..] + [s];
      assert IdsOf(rows[1..]) <= IdsOf(rows) by {
        forall k | k in IdsOf(rows[1..]) ensures k in IdsOf(rows) {
          var i :| 0 <= i < |rows[1..]| && rows[1..][i].id == k;
          assert rows[i + 1].id == k;
        }
      }
      ToMapAppend(rows[1..], s);
      assert rows[0].id != s.id by {
        assert rows[0].id in IdsOf(rows);
      }
    }
  }

  // ---- row-level operations ----

  /** `FirstOrDefault(x => x.Id == id)`: the first row with that key. */
  function Find(rows: seq<Student>, id: int): (r: Option<Student>)
    ensures r.Some? ==> r.value in rows && r.value.id == id
    ensures r.None? <==> id !in IdsOf(rows)
  {
    if |rows| == 0 then None
    else if rows[0].id == id then
      assert rows[0].id in IdsOf(rows);
      Some(rows[0])
    else
      var r := Find(rows[1..], id);
      assert r.None? <==> id !in IdsOf(rows) by {
        if r.Some? {
          var k :| 0 <= k < |rows[1..]| && rows[1..][k].id == id;
          assert rows[k + 1].id == id;
        }
      }
      r
  }

  /** The first row with a key is the record the map files under it. */
  lemma {:induction false} FindAgreesWithMap(rows: seq<Student>, id: int)
    ensures Find(rows, id) == if id in ToMap(rows) then Some(ToMap(rows)[id]) else None
  {
    ToMapKeys(rows);
    if |rows| > 0 && rows[0].id != id {
      FindAgreesWithMap(rows[1..], id);
      ToMapKeys(rows[1..]);
    }
  }

  /** The rows that pass a test, in their original order (`Where`). */
  function Filter(rows: seq<Student>, keep: Student -> bool): (r: seq<Student>)
    ensures |r| <= |rows|
    ensures forall s :: s in r <==> s in rows && keep(s)
    ensures AscendingIds(rows) ==> AscendingIds(r)
  {
    if |rows| == 0 then []
    else
      var tail := Filter(rows[1..], keep);
      var head := if keep(rows[0]) then [rows[0]] else [];
      assert AscendingIds(rows) ==> AscendingIds(head + tail) by {
        if AscendingIds(rows) {
          forall j | 0 <= j < |tail| ensures rows[0].id < tail[j].id {
            assert tail[j] in rows[1..];
            var k :| 0 <= k < |rows[1..]| && rows[1..][k] == tail[j];
            assert rows[k + 1] == tail[j];
          }
        }
      }
      head + tail
  }

  /** The rows with every row of key `s.id` replaced by `s`. */
  function Replace(rows: seq<Student>, s: Student): (r: seq<Student>)
    ensures |r| == |rows|
    ensures forall i :: 0 <= i < |r| ==> r[i] == (if rows[i].id == s.id then s else rows[i])
  {
    if |rows| == 0 then [] else [if rows[0].id == s.id then s else rows[0]] + Replace(rows[1..], s)
  }

  /** Replacing keeps every row's key in place. */
  lemma ReplaceKeepsIds(rows: seq<Student>, s: Student)
    ensures IdsOf(Replace(rows, s)) == IdsOf(rows)
  {
  }

  /** After replacing, a lookup of `s.id` sees `s`. */
  lemma {:induction false} ToMapReplaceAt(rows: seq<Student>, s: Student)
    requires s.id in IdsOf(rows)
    ensures s.id in ToMap(Replace(rows, s)) && ToMap(Replace(rows, s))[s.id] == s
  {
    var r := Replace(rows, s);
    assert r[1..] == Replace(rows[1..], s);
    if rows[0].id != s.id {
      assert s.id in IdsOf(rows[1..]) by {
        var k :| 0 <= k < |rows| && rows[k].id == s.id;
        assert rows[1..][k - 1].id == s.id;
      }
      ToMapReplaceAt(rows[1..], s);
    }
  }

  /** Replacing the record of a present key changes exactly that entry. */
  lemma ToMapReplace(rows: seq<Student>, s: Student)
    requires s.id in IdsOf(rows)
    ensures ToMap(Replace(rows, s)) == ToMap(rows)[s.id := s]
  {
    var r := Replace(rows, s);
    var m, m' := ToMap(r), ToMap(rows)[s.id := s];
    ToMapKeys(rows);
    ToMapKeys(r);
    ReplaceKeepsIds(rows, s);
    ToMapReplaceRest(rows, s);
    ToMapReplaceAt(rows, s);
    forall k | k in m
      ensures k in m' && m[k] == m'[k]
    {
    }
    forall k | k in m'
      ensures k in m
    {
    }
  }

  /** Below a row of key `s.id`, replacing leaves the other keys' entries. */
  lemma {:induction false} ToMapReplaceRest(rows: seq<Student>, s: Student)
    ensures forall k :: k in ToMap(rows) && k != s.id ==> k in ToMap(Replace(rows, s)) && ToMap(Replace(rows, s))[k] == ToMap(rows)[k]
    ensures forall k :: k in ToMap(Replace(rows, s)) && k != s.id ==> k in ToMap(rows)
  {
    if |rows| > 0 {
      assert Replace(rows, s)[1..] == Replace(rows[1..], s);
      ToMapReplaceRest(rows[1..], s);
    }
  }

  /** The rows without those of key `id`. */
  function Remove(rows: seq<Student>, id: int): seq<Student> {
    Filter(rows, (x: Student) => x.id != id)
  }

  /** Removing the rows of one key removes exactly that entry. */
  lemma {:induction false} ToMapRemove(rows: seq<Student>, id: int)
    ensures ToMap(Remove(rows, id)) == ToMap(rows) - {id}
  {
    if |rows| > 0 {
      ToMapRemove(rows[1..], id);
      var tail := Remove(rows[1..], id);
      var m := ToMap(rows[1..]);
      if rows[0].id == id {
        assert Remove(rows, id) == tail;
        assert ToMap(rows) - {id} == m - {id};
      } else {
        assert Remove(rows, id) == [rows[0]] + tail;
        assert ([rows[0]] + tail)[1..] == tail;
        assert ToMap([rows[0]] + tail) == ToMap(tail)[rows[0].id := rows[0]];
        assert ToMap(rows) - {id} == (m - {id})[rows[0].id := rows[0]];
      }
    }
  }

  // ---- the table invariant under each write ----

  lemma AppendKeepsValid(st: Store, s: Student)
    requires Valid(st) && s.id == st.nextId && FitsColumns(s)
    ensures Valid(Store(st.rows + [s], st.nextId + 1))
  {
  }

  lemma ReplaceKeepsValid(st: Store, s: Student)
    requires Valid(st) && FitsColumns(s)
    ensures Valid(Store(Replace(st.rows, s), st.nextId))
  {
    var r := Replace(st.rows, s);
    forall i | 0 <= i < |r|
      ensures r[i].id == st.rows[i].id && FitsColumns(r[i])
    {
    }
    assert AscendingIds(r) by {
      forall i, j | 0 <= i < j < |r|
        ensures r[i].id < r[j].id
      {
        assert r[i].id == st.rows[i].id && r[j].id == st.rows[j].id;
      }
    }
  }

  lemma RemoveKeepsValid(st: Store, id: int)
    requires Valid(st)
    ensures Valid(Store(Remove(st.rows, id), st.nextId))
  {
    var r := Remove(st.rows, id);
    forall i | 0 <= i < |r|
      ensures 1 <= r[i].id < st.nextId && FitsColumns(r[i])
    {
      assert r[i] in st.rows;
    }
  }

  // ---- repository operations ----

  /** Why the store refused a write. */
  datatype StoreError =
    | ExplicitIdentity     // an insert carried its own key into an identity column
    | ConstraintViolation  // a required column was null or a value was too long
    | IdentityOverflow     // the 32-bit identity column has no value left
    | NoRowAffected        // an update or delete matched no row

  /** Insert (`AddStudentAsync`). The store assigns the next identity and,
      when the create date holds `DateTime.MinValue`, the current UTC time
      `now`; the caller gets the entity back with both filled in. */
  function Add(st: Store, s: Student, now: DateTime): (r: Result<(Store, Student), StoreError>)
    requires Valid(st)
    ensures r.Success? <==> s.id == 0 && FitsColumns(s) && st.nextId <= Int32Max
    ensures r.Failure? ==> (s.id != 0 <==> r.error == ExplicitIdentity)
    ensures r.Success? ==>
      var (st', stored) := r.value;
      && Valid(st')
      && stored.id !in ToMap(st.rows)
      && ToMap(st'.rows) == ToMap(st.rows)[stored.id := stored]
      && |ToMap(st'.rows)| == |ToMap(st.rows)| + 1
      && 1 <= stored.id <= Int32Max
      && stored.id == st.nextId && st'.nextId == st.nextId + 1
      && stored == s.(id := stored.id, createDate := stored.createDate)
      && (s.createDate != MinValue ==> stored.createDate == s.createDate)
      && (s.createDate == MinValue ==> stored.createDate == now)
  {
    if s.id != 0 then Failure(ExplicitIdentity)
    else if !FitsColumns(s) then Failure(ConstraintViolation)
    else if st.nextId > Int32Max then Failure(IdentityOverflow)
    else
      var stored := s.(id := st.nextId,
                       createDate := if s.createDate == MinValue then now else s.createDate);
      var st' := Store(st.rows + [stored], st.nextId + 1);
      assert stored.id !in IdsOf(st.rows);
      AppendKeepsValid(st, stored);
      ToMapKeys(st.rows);
      ToMapAppend(st.rows, stored);
      ToMapSize(st.rows);
      ToMapSize(st'.rows);
      Success((st', stored))
  }

  /** Lookup by key (`GetStudentByIdAsync`): the stored record or nothing. */
  function GetById(st: Store, id: int): (r: Option<Student>)
    ensures r == if id in ToMap(st.rows) then Some(ToMap(st.rows)[id]) else None
    ensures r.Some? ==> r.value.id == id
  {
    FindAgreesWithMap(st.rows, id);
    Find(st.rows, id)
  }

  /** Write every member of an entity (`UpdateStudentAsync`). The change
      tracker marks an entity whose identity key still holds 0 as added, not
      modified, so that entity is inserted as `Add` would insert it, under
      the next identity and with the same create-date default from `now`.
      Any other key must name a stored row. */
  function Update(st: Store, s: Student, now: DateTime): (r: Result<Store, StoreError>)
    requires Valid(st)
    ensures r.Success? ==> Valid(r.value)
    ensures r.Failure? ==> r.error != ExplicitIdentity
    ensures s.id != 0 ==> (r.Success? <==> s.id in ToMap(st.rows) && FitsColumns(s))
    ensures s.id != 0 && r.Failure? ==> (s.id !in ToMap(st.rows) <==> r.error == NoRowAffected)
    ensures s.id != 0 && r.Success? ==>
      && r.value.nextId == st.nextId
      && ToMap(r.value.rows) == ToMap(st.rows)[s.id := s]
    ensures s.id == 0 ==> (r.Success? <==> FitsColumns(s) && st.nextId <= Int32Max)
    ensures s.id == 0 && r.Failure? ==> r.error != NoRowAffected
    ensures s.id == 0 && r.Success? ==>
      && st.nextId !in ToMap(st.rows)
      && r.value.nextId == st.nextId + 1
      && ToMap(r.value.rows) == ToMap(st.rows)[st.nextId :=
           s.(id := st.nextId, createDate := if s.createDate == MinValue then now else s.createDate)]
  {
    ToMapKeys(st.rows);
    if s.id == 0 then
      match Add(st, s, now)
      case Success((st', _)) => Success(st')
      case Failure(e) => Failure(e)
    else if s.id !in IdsOf(st.rows) then Failure(NoRowAffected)
    else if !FitsColumns(s) then Failure(ConstraintViolation)
    else
      ToMapReplace(st.rows, s);
      ReplaceKeepsValid(st, s);
      Success(Store(Replace(st.rows, s), st.nextId))
  }

  /** Updating an entity whose key is still 0 is the same write as
      inserting it: same outcome, same store afterwards. */
  lemma UpdateOfUnsavedEntityIsAdd(st: Store, s: Student, now: DateTime)
    requires Valid(st) && s.id == 0
    ensures Update(st, s, now).Success? <==> Add(st, s, now).Success?
    ensures Update(st, s, now).Success? ==> Update(st, s, now).value == Add(st, s, now).value.0
    ensures Update(st, s, now).Failure? ==> Update(st, s, now).error == Add(st, s, now).error
  {
  }

  /** Remove a stored entity by its key (`DeleteStudentAsync`). */
  function Delete(st: Store, s: Student): (r: Result<Store, StoreError>)
    requires Valid(st)
    ensures r.Success? <==> s.id in ToMap(st.rows)
    ensures r.Failure? ==> r.error == NoRowAffected
    ensures r.Success? ==>
      && Valid(r.value)
      && r.value.nextId == st.nextId
      && ToMap(r.value.rows) == ToMap(st.rows) - {s.id}
      && |ToMap(r.value.rows)| == |ToMap(st.rows)| - 1
  {
    ToMapKeys(st.rows);
    if s.id !in IdsOf(st.rows) then Failure(NoRowAffected)
    else
      var rows' := Remove(st.rows, s.id);
      ToMapRemove(st.rows, s.id);
      RemoveKeepsValid(st, s.id);
      ToMapSize(st.rows);
      ToMapSize(rows');
      Success(Store(rows', st.nextId))
  }

  /** The create-date filter: none admits everything, a date admits the
      records created on that calendar day. */
  predicate MatchesCreateDate(s: Student, createDate: Option<DateTime>) {
    createDate.None? || SameCalendarDate(s.createDate, createDate.value)
  }

  /** Listing (`GetStudentsAsync`): the stored records that pass the filter,
      in store order, none invented and none repeated. */
  function GetStudents(st: Store, createDate: Option<DateTime>): (r: seq<Student>)
    requires Valid(st)
    ensures forall s :: s in r <==> s in st.rows && MatchesCreateDate(s, createDate)
    ensures AscendingIds(r)
    ensures createDate.None? ==> r == st.rows
  {
    var r := Filter(st.rows, CreateDateFilter(createDate));
    if createDate.None? then
      FilterKeepingAll(st.rows, CreateDateFilter(createDate));
      r
    else r
  }

  /** The `Where` predicate of the listing. */
  function CreateDateFilter(createDate: Option<DateTime>): Student -> bool {
    (s: Student) => MatchesCreateDate(s, createDate)
  }

  /** A filter that keeps every row yields the rows unchanged. */
  lemma {:induction false} FilterKeepingAll(rows: seq<Student>, keep: Student -> bool)
    requires forall i :: 0 <= i < |rows| ==> keep(rows[i])
    ensures Filter(rows, keep) == rows
  {
    if |rows| > 0 {
      FilterKeepingAll(rows[1..], keep);
      assert [rows[0]] + rows[1..] == rows;
    }
  }

  /** A filter that keeps no row yields nothing. */
  lemma {:induction false} FilterKeepingNothing(rows: seq<Student>, keep: Student -> bool)
    requires forall i :: 0 <= i < |rows| ==> !keep(rows[i])
    ensures Filter(rows, keep) == []
  {
    if |rows| > 0 {
      FilterKeepingNothing(rows[1..], keep);
    }
  }

  /** When no record matches the filter, the listing is empty. */
  lemma NothingListedWithoutMatches(st: Store, createDate: Option<DateTime>)
    requires Valid(st)
    requires forall i :: 0 <= i < |st.rows| ==> !MatchesCreateDate(st.rows[i], createDate)
    ensures GetStudents(st, createDate) == []
  {
    FilterKeepingNothing(st.rows, CreateDateFilter(createDate));
  }

  /** Unfiltered, the listing is every record of the store exactly once. */
  lemma UnfilteredListingIsWholeStore(st: Store)
    requires Valid(st)
    ensures |GetStudents(st, None)| == |ToMap(st.rows)|
    ensures forall k :: k in ToMap(st.rows) ==> ToMap(st.rows)[k] in GetStudents(st, None)
  {
    ToMapSize(st.rows);
    ToMapValuesAreRows(st.rows);
  }

  /** A listed record is the one the store files under its key. */
  lemma ListedRecordsAreStored(st: Store, createDate: Option<DateTime>, s: Student)
    requires Valid(st) && s in GetStudents(st, createDate)
    ensures s.id in ToMap(st.rows) && ToMap(st.rows)[s.id] == s
  {
    var i :| 0 <= i < |st.rows| && st.rows[i] == s;
    ToMapAt(st.rows, i);
  }
}
