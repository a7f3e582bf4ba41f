// The app_settings table: rows keyed by a business key, deleted softly when the database
// client knows the deletedAt column and for good when it does not. Under both clients the
// table refines a plain map from keys to values.

module SettingsTable {
  import opened Text

  /** deleted stands for deletedAt != null. */
  datatype Row = Row(id: nat, key: string, value: string, deleted: bool)

  /** The rows, in no particular order, and the next autoincrement id. */
  datatype Table = Table(rows: seq<Row>, nextId: nat)

  /** The scope of a query: all rows for a client without deletedAt, else the undeleted ones. */
  predicate InScope(r: Row, soft: bool) {
    soft ==> !r.deleted
  }

  ghost predicate AtMostOneRowPerKey(rows: seq<Row>) {
    forall i, j :: 0 <= i < j < |rows| ==> rows[i].key != rows[j].key
  }

  ghost predicate DistinctIds(rows: seq<Row>) {
    forall i, j :: 0 <= i < j < |rows| ==> rows[i].id != rows[j].id
  }

  ghost predicate Valid(t: Table) {
    && AtMostOneRowPerKey(t.rows)
    && DistinctIds(t.rows)
    && (forall i :: 0 <= i < |t.rows| ==> t.rows[i].id < t.nextId)
  }

  // ---- Queries -----------------------------------------------------------------------

  /** findFirst in scope: the first matching row, or |rows|. */
  function FindFirst(rows: seq<Row>, key: string, soft: bool): (i: nat)
    ensures i <= |rows|
    ensures i < |rows| ==> rows[i].key == key && InScope(rows[i], soft)
    ensures forall j :: 0 <= j < i ==> !(rows[j].key == key && InScope(rows[j], soft))
  {
    if rows == [] || (rows[0].key == key && InScope(rows[0], soft)) then 0
    else 1 + FindFirst(rows[1..], key, soft)
  }

  /** findFirst by descending id among the key's rows (only tombstones if asked), or |rows|. */
  function FindLatest(rows: seq<Row>, key: string, tombstones: bool): (i: nat)
    ensures i <= |rows|
    ensures i < |rows| ==> rows[i].key == key && (tombstones ==> rows[i].deleted)
    ensures forall j :: 0 <= j < |rows| && rows[j].key == key && (tombstones ==> rows[j].deleted) ==>
              i < |rows| && rows[j].id <= rows[i].id
  {
    if rows == [] then 0
    else
      var init := rows[..|rows| - 1];
      var last := rows[|rows| - 1];
      var best := FindLatest(init, key, tombstones);
      if last.key == key && (tombstones ==> last.deleted) && (best == |init| || init[best].id <= last.id) then |init|
      else if best == |init| then |rows|
      else best
  }

  /** The map from key to value over the rows in scope; a later row of a key wins. */
  function Contents(rows: seq<Row>, soft: bool): map<string, string> {
    if rows == [] then map[]
    else
      var last := rows[|rows| - 1];
      var earlier := Contents(rows[..|rows| - 1], soft);
      if InScope(last, soft) then earlier[last.key := last.value] else earlier
  }

  // ---- Updates -----------------------------------------------------------------------

  function Upsert(t: Table, key: string, value: string, soft: bool): Table {
    var i := FindFirst(t.rows, key, soft);
    if i < |t.rows| then
      t.(rows := t.rows[i := t.rows[i].(value := value, deleted := if soft then false else t.rows[i].deleted)])
    else
      var tomb := if soft then FindLatest(t.rows, key, true) else |t.rows|;
      if tomb < |t.rows| then t.(rows := t.rows[tomb := t.rows[tomb].(value := value, deleted := false)])
      else Table(t.rows + [Row(t.nextId, key, value, false)], t.nextId + 1)
  }

  function Tombstoned(rows: seq<Row>, key: string): (out: seq<Row>)
    ensures |out| == |rows|
    ensures forall i :: 0 <= i < |rows| ==> out[i] == if rows[i].key == key then rows[i].(deleted := true) else rows[i]
  {
    seq(|rows|, i requires 0 <= i < |rows| => if rows[i].key == key then rows[i].(deleted := true) else rows[i])
  }

  function Removed(rows: seq<Row>, key: string): seq<Row> {
    if rows == [] then []
    else if rows[0].key == key then Removed(rows[1..], key)
    else [rows[0]] + Removed(rows[1..], key)
  }

  function SoftDelete(t: Table, key: string, soft: bool): Table {
    t.(rows := if soft then Tombstoned(t.rows, key) else Removed(t.rows, key))
  }

  // ---- Maps --------------------------------------------------------------------------

  predicate SameValue(a: map<string, string>, b: map<string, string>, key: string) {
    (key in a <==> key in b) && (key in a ==> a[key] == b[key])
  }

  lemma MapsEqual(a: map<string, string>, b: map<string, string>)
    requires forall key :: SameValue(a, b, key)
    ensures a == b
  {
    forall key
      ensures key in a <==> key in b
      ensures key in a ==> a[key] == b[key]
    {
      assert SameValue(a, b, key);
    }
  }

  // ---- Contents under at most one row per key ----------------------------------------

  lemma {:induction false} ContentsOf(rows: seq<Row>, soft: bool, key: string)
    ensures key in Contents(rows, soft) <==>
              exists i :: 0 <= i < |rows| && rows[i].key == key && InScope(rows[i], soft)
    ensures AtMostOneRowPerKey(rows) ==>
              forall i :: 0 <= i < |rows| && rows[i].key == key && InScope(rows[i], soft) ==>
                key in Contents(rows, soft) && Contents(rows, soft)[key] == rows[i].value
  {
    if rows != [] {
      ContentsOf(rows[..|rows| - 1], soft, key);
    }
  }

  /** Two tables whose rows for a key agree have the same contents there. */
  lemma SameAt(a: seq<Row>, b: seq<Row>, soft: bool, key: string)
    requires AtMostOneRowPerKey(a) && AtMostOneRowPerKey(b)
    requires forall r: Row :: r.key == key && InScope(r, soft) ==> (r in a <==> r in b)
    ensures key in Contents(a, soft) <==> key in Contents(b, soft)
    ensures key in Contents(a, soft) ==> Contents(a, soft)[key] == Contents(b, soft)[key]
  {
    ContentsOf(a, soft, key);
    ContentsOf(b, soft, key);
    if i :| 0 <= i < |a| && a[i].key == key && InScope(a[i], soft) {
      assert a[i] in b;
      var j :| 0 <= j < |b| && b[j] == a[i];
    }
    if j :| 0 <= j < |b| && b[j].key == key && InScope(b[j], soft) {
      assert b[j] in a;
      var i :| 0 <= i < |a| && a[i] == b[j];
    }
  }

  lemma ReplacedRow(rows: seq<Row>, i: nat, r: Row, soft: bool)
    requires AtMostOneRowPerKey(rows) && i < |rows| && r.key == rows[i].key && InScope(r, soft)
    ensures AtMostOneRowPerKey(rows[i := r])
    ensures Contents(rows[i := r], soft) == Contents(rows, soft)[r.key := r.value]
  {
    var out := rows[i := r];
    forall key
      ensures key in Contents(out, soft) <==> key in Contents(rows, soft)[r.key := r.value]
      ensures key in Contents(out, soft) ==> Contents(out, soft)[key] == Contents(rows, soft)[r.key := r.value][key]
    {
      if key == r.key {
        ContentsOf(out, soft, key);
        assert out[i] == r;
      } else {
        forall q: Row | q.key == key
          ensures q in out <==> q in rows
        {
          if q in rows {
            var j :| 0 <= j < |rows| && rows[j] == q;
            assert out[j] == q;
          }
        }
        SameAt(out, rows, soft, key);
      }
    }
  }

  lemma AddedRow(rows: seq<Row>, r: Row, soft: bool)
    requires AtMostOneRowPerKey(rows) && InScope(r, soft)
    requires forall i :: 0 <= i < |rows| ==> rows[i].key != r.key
    ensures AtMostOneRowPerKey(rows + [r])
    ensures Contents(rows + [r], soft) == Contents(rows, soft)[r.key := r.value]
  {
    assert (rows + [r])[..|rows|] == rows;
  }

  lemma UpsertValid(t: Table, key: string, value: string, soft: bool)
    requires Valid(t)
    ensures Valid(Upsert(t, key, value, soft))
  {}

  lemma UpsertContents(t: Table, key: string, value: string, soft: bool, scope: bool)
    requires Valid(t) && (scope ==> soft)
    ensures Contents(Upsert(t, key, value, soft).rows, scope) == Contents(t.rows, scope)[key := value]
  {
    var i := FindFirst(t.rows, key, soft);
    if i < |t.rows| {
      ReplacedRow(t.rows, i, t.rows[i].(value := value, deleted := if soft then false else t.rows[i].deleted), scope);
    } else {
      var tomb := if soft then FindLatest(t.rows, key, true) else |t.rows|;
      if tomb < |t.rows| {
        ReplacedRow(t.rows, tomb, t.rows[tomb].(value := value, deleted := false), scope);
      } else {
        AddedRow(t.rows, Row(t.nextId, key, value, false), scope);
      }
    }
  }

  /** Upsert keeps at most one row per key and adds exactly one mapping, in either scope. */
  lemma UpsertRefines(t: Table, key: string, value: string, soft: bool)
    requires Valid(t)
    ensures Valid(Upsert(t, key, value, soft))
    ensures Contents(Upsert(t, key, value, soft).rows, soft) == Contents(t.rows, soft)[key := value]
    ensures Contents(Upsert(t, key, value, soft).rows, false) == Contents(t.rows, false)[key := value]
  {
    UpsertValid(t, key, value, soft);
    UpsertContents(t, key, value, soft, soft);
    UpsertContents(t, key, value, soft, false);
  }

  /** A tombstone is revived, never duplicated: a key that has a row keeps its row's id. */
  lemma UpsertRevives(t: Table, key: string, value: string, soft: bool, i: nat)
    requires Valid(t) && i < |t.rows| && t.rows[i].key == key
    ensures var out := Upsert(t, key, value, soft);
            && |out.rows| == |t.rows| && out.nextId == t.nextId
            && out.rows[i].id == t.rows[i].id && out.rows[i].value == value
            && (soft ==> !out.rows[i].deleted)
            && forall j :: 0 <= j < |t.rows| && j != i ==> out.rows[j] == t.rows[j]
  {}

  lemma {:induction false} RemovedRows(rows: seq<Row>, key: string)
    ensures forall r: Row :: r in Removed(rows, key) <==> r in rows && r.key != key
  {
    if rows != [] {
      RemovedRows(rows[1..], key);
      assert rows == [rows[0]] + rows[1..];
    }
  }

  lemma {:induction false} RemovedDistinct(rows: seq<Row>, key: string)
    ensures AtMostOneRowPerKey(rows) ==> AtMostOneRowPerKey(Removed(rows, key))
    ensures DistinctIds(rows) ==> DistinctIds(Removed(rows, key))
  {
    if rows != [] {
      RemovedDistinct(rows[1..], key);
      var out := Removed(rows[1..], key);
      forall i | 0 <= i < |out|
        ensures out[i] in rows[1..]
      {
        RemovedRows(rows[1..], key);
        assert out[i] in out;
      }
    }
  }

  /** Soft deletion removes exactly one mapping from the scope; tombstones keep their value. */
  lemma SoftDeleteRefines(t: Table, key: string, soft: bool)
    requires Valid(t)
    ensures Valid(SoftDelete(t, key, soft))
    ensures Contents(SoftDelete(t, key, soft).rows, soft) == Contents(t.rows, soft) - {key}
    ensures Contents(SoftDelete(t, key, soft).rows, false) ==
            if soft then Contents(t.rows, false) else Contents(t.rows, false) - {key}
  {
    if soft {
      forall k
        ensures SameValue(Contents(Tombstoned(t.rows, key), true), Contents(t.rows, true) - {key}, k)
        ensures SameValue(Contents(Tombstoned(t.rows, key), false), Contents(t.rows, false), k)
      {
        TombstonedAt(t.rows, key, k);
      }
      MapsEqual(Contents(Tombstoned(t.rows, key), true), Contents(t.rows, true) - {key});
      MapsEqual(Contents(Tombstoned(t.rows, key), false), Contents(t.rows, false));
    } else {
      RemovalRefines(t, key);
    }
  }

  lemma RemovedAt(rows: seq<Row>, key: string, k: string)
    requires AtMostOneRowPerKey(rows)
    ensures SameValue(Contents(Removed(rows, key), false), Contents(rows, false) - {key}, k)
  {
    var out := Removed(rows, key);
    RemovedRows(rows, key);
    RemovedDistinct(rows, key);
    if k == key {
      ContentsOf(out, false, k);
      assert forall i :: 0 <= i < |out| ==> out[i] in out;
    } else {
      SameAt(out, rows, false, k);
    }
  }

  lemma RemovalRefines(t: Table, key: string)
    requires Valid(t)
    ensures Valid(SoftDelete(t, key, false))
    ensures Contents(Removed(t.rows, key), false) == Contents(t.rows, false) - {key}
  {
    var out := Removed(t.rows, key);
    RemovedDistinct(t.rows, key);
    RemovedRows(t.rows, key);
    forall i | 0 <= i < |out|
      ensures out[i].id < t.nextId
    {
      assert out[i] in out;
    }
    forall k
      ensures SameValue(Contents(out, false), Contents(t.rows, false) - {key}, k)
    {
      RemovedAt(t.rows, key, k);
    }
    MapsEqual(Contents(out, false), Contents(t.rows, false) - {key});
  }

  lemma TombstonedAt(rows: seq<Row>, key: string, k: string)
    requires AtMostOneRowPerKey(rows)
    ensures var out := Tombstoned(rows, key);
            && AtMostOneRowPerKey(out)
            && (k in Contents(out, true) <==> k in Contents(rows, true) && k != key)
            && (k in Contents(out, true) ==> Contents(out, true)[k] == Contents(rows, true)[k])
            && (k in Contents(out, false) <==> k in Contents(rows, false))
            && (k in Contents(out, false) ==> Contents(out, false)[k] == Contents(rows, false)[k])
  {
    var out := Tombstoned(rows, key);
    ContentsOf(out, true, k);
    ContentsOf(rows, true, k);
    ContentsOf(out, false, k);
    ContentsOf(rows, false, k);
    assert forall i :: 0 <= i < |rows| ==> out[i].key == rows[i].key && out[i].value == rows[i].value;
  }

  // ---- Every run ---------------------------------------------------------------------

  datatype Op = Put(key: string, value: string) | Clear(key: string)

  function Apply(t: Table, op: Op, soft: bool): Table {
    match op
    case Put(key, value) => Upsert(t, key, value, soft)
    case Clear(key) => SoftDelete(t, key, soft)
  }

  function ApplyAll(t: Table, ops: seq<Op>, soft: bool): Table
    decreases |ops|
  {
    if ops == [] then t else ApplyAll(Apply(t, ops[0], soft), ops[1..], soft)
  }

  /** The same operations on a plain map. */
  function MapAfter(m: map<string, string>, ops: seq<Op>): map<string, string>
    decreases |ops|
  {
    if ops == [] then m
    else
      match ops[0]
      case Put(key, value) => MapAfter(m[key := value], ops[1..])
      case Clear(key) => MapAfter(m - {key}, ops[1..])
  }

  /**
   * Under both clients, every run of upserts and soft deletes from a table with at most
   * one row per key keeps at most one row per key, and the rows in scope are the plain
   * map the same operations produce.
   */
  lemma {:induction false} TableRefinesMap(t: Table, ops: seq<Op>, soft: bool)
    requires Valid(t)
    ensures Valid(ApplyAll(t, ops, soft))
    ensures Contents(ApplyAll(t, ops, soft).rows, soft) == MapAfter(Contents(t.rows, soft), ops)
    decreases |ops|
  {
    if ops != [] {
      match ops[0] {
        case Put(key, value) => UpsertRefines(t, key, value, soft);
        case Clear(key) => SoftDeleteRefines(t, key, soft);
      }
      TableRefinesMap(Apply(t, ops[0], soft), ops[1..], soft);
    }
  }

  /** Operations on other keys leave a key's row, tombstone or not, as it is. */
  lemma {:induction false} OtherKeysKept(t: Table, ops: seq<Op>, soft: bool, key: string)
    requires Valid(t) && forall i :: 0 <= i < |ops| ==> ops[i].key != key
    ensures SameValue(Contents(t.rows, false), Contents(ApplyAll(t, ops, soft).rows, false), key)
    decreases |ops|
  {
    if ops != [] {
      match ops[0] {
        case Put(k, value) => UpsertRefines(t, k, value, soft);
        case Clear(k) => SoftDeleteRefines(t, k, soft);
      }
      OtherKeysKept(Apply(t, ops[0], soft), ops[1..], soft, key);
    }
  }
}
