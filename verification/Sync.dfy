/** Keyed synchronisation of a table into another database: `scripts/sync_local_truth_to_target.py`. */
module Sync {
  import opened Relational
  import opened Wrappers

  type Key = seq<Value>

  datatype Record = Record(id: Uuid, fields: Row)

  /** One of the `_sync_*` functions: its natural key, the fields it copies, the defaults of a new record. */
  datatype Spec = Spec(keyColumns: seq<Column>, names: seq<Column>, defaults: Row)

  predicate Covers(spec: Spec, row: Row) {
    (forall c :: c in spec.keyColumns ==> c in row) && (forall c :: c in spec.names ==> c in row)
  }

  predicate AllCover(spec: Spec, rows: seq<Record>) {
    forall i :: 0 <= i < |rows| ==> Covers(spec, rows[i].fields)
  }

  function KeyOf(spec: Spec, row: Row): Key
    requires Covers(spec, row)
  {
    seq(|spec.keyColumns|, i requires 0 <= i < |spec.keyColumns| => row[spec.keyColumns[i]])
  }

  function Pick(names: seq<Column>, row: Row): Row
    requires forall c :: c in names ==> c in row
  {
    map c | c in names :: row[c]
  }

  function Payload(spec: Spec, row: Row): Row
    requires Covers(spec, row)
  {
    Pick(spec.names, row)
  }

  /** `Record(id=..., <key columns>, **payload)` */
  function Created(spec: Spec, s: Record): (r: Record)
    requires Covers(spec, s.fields)
  {
    Record(s.id, spec.defaults + Pick(spec.keyColumns, s.fields) + Payload(spec, s.fields))
  }

  predicate Agrees(spec: Spec, a: Row, b: Row)
    requires Covers(spec, a) && Covers(spec, b)
  {
    KeyOf(spec, a) == KeyOf(spec, b) && forall c :: c in spec.names ==> a[c] == b[c]
  }

  lemma CreatedAgrees(spec: Spec, s: Record)
    requires Covers(spec, s.fields)
    ensures Covers(spec, Created(spec, s).fields)
    ensures Agrees(spec, Created(spec, s).fields, s.fields)
  {
    var row := Created(spec, s).fields;
    assert forall c :: c in spec.keyColumns ==> row[c] == s.fields[c];
  }

  lemma OverlaidAgrees(spec: Spec, row: Row, s: Record)
    requires Covers(spec, row) && Covers(spec, s.fields) && KeyOf(spec, row) == KeyOf(spec, s.fields)
    ensures Covers(spec, row + Payload(spec, s.fields))
    ensures Agrees(spec, row + Payload(spec, s.fields), s.fields)
    ensures row + Payload(spec, s.fields) == row <==> Agrees(spec, row, s.fields)
  {
    var after := row + Payload(spec, s.fields);
    forall i | 0 <= i < |spec.keyColumns| ensures after[spec.keyColumns[i]] == s.fields[spec.keyColumns[i]] {
      assert KeyOf(spec, row)[i] == KeyOf(spec, s.fields)[i];
    }
    if after == row {
      assert forall c :: c in spec.names ==> row[c] == after[c];
    }
  }

  /** The target's lookup dictionary: the last record with the key. */
  function Find(spec: Spec, rows: seq<Record>, key: Key): (found: Option<nat>)
    requires AllCover(spec, rows)
    ensures found.Some? ==> found.value < |rows| && KeyOf(spec, rows[found.value].fields) == key
    ensures found.None? ==> forall i :: 0 <= i < |rows| ==> KeyOf(spec, rows[i].fields) != key
  {
    if rows == [] then None
    else if KeyOf(spec, rows[|rows| - 1].fields) == key then Some(|rows| - 1)
    else Find(spec, rows[..|rows| - 1], key)
  }

  datatype State = State(rows: seq<Record>, created: nat, updated: nat, same: nat)

  /** Every record that was stored is still there, at its place and under its key. */
  ghost predicate Extends(spec: Spec, stored: seq<Record>, rows: seq<Record>)
    requires AllCover(spec, stored) && AllCover(spec, rows)
  {
    && |stored| <= |rows|
    && forall i :: 0 <= i < |stored| ==>
         rows[i].id == stored[i].id && KeyOf(spec, rows[i].fields) == KeyOf(spec, stored[i].fields)
  }

  /** One source row. */
  function Step(spec: Spec, stored: seq<Record>, st: State, s: Record): (r: State)
    requires Covers(spec, s.fields) && AllCover(spec, stored) && |stored| <= |st.rows|
  {
    match Find(spec, stored, KeyOf(spec, s.fields))
    case None => st.(rows := st.rows + [Created(spec, s)], created := st.created + 1)
    case Some(i) =>
      var after := st.rows[i].fields + Payload(spec, s.fields);
      if after == st.rows[i].fields then st.(same := st.same + 1)
      else st.(rows := st.rows[i := st.rows[i].(fields := after)], updated := st.updated + 1)
  }

  function Synced(spec: Spec, source: seq<Record>, stored: seq<Record>): (r: State)
    requires AllCover(spec, source) && AllCover(spec, stored)
    ensures |stored| <= |r.rows|
  {
    if source == [] then State(stored, 0, 0, 0)
    else Step(spec, stored, Synced(spec, source[..|source| - 1], stored), source[|source| - 1])
  }

  lemma {:induction false} SyncedExtends(spec: Spec, source: seq<Record>, stored: seq<Record>)
    requires AllCover(spec, source) && AllCover(spec, stored)
    ensures AllCover(spec, Synced(spec, source, stored).rows)
    ensures Extends(spec, stored, Synced(spec, source, stored).rows)
  {
    hide Created, Payload, KeyOf, Covers;
    if source != [] {
      var init, s := source[..|source| - 1], source[|source| - 1];
      SyncedExtends(spec, init, stored);
      var st := Synced(spec, init, stored);
      match Find(spec, stored, KeyOf(spec, s.fields))
      case None => CreatedAgrees(spec, s);
      case Some(i) => OverlaidAgrees(spec, st.rows[i].fields, s);
    }
  }

  ghost predicate UniqueKeys(spec: Spec, rows: seq<Record>)
    requires AllCover(spec, rows)
  {
    forall i, j :: 0 <= i < j < |rows| ==> KeyOf(spec, rows[i].fields) != KeyOf(spec, rows[j].fields)
  }

  ghost function Keys(spec: Spec, rows: seq<Record>): set<Key>
    requires AllCover(spec, rows)
  {
    set i | 0 <= i < |rows| :: KeyOf(spec, rows[i].fields)
  }

  lemma AppendKeys(spec: Spec, rows: seq<Record>, r: Record)
    requires AllCover(spec, rows) && Covers(spec, r.fields)
    ensures Keys(spec, rows + [r]) == Keys(spec, rows) + {KeyOf(spec, r.fields)}
    ensures UniqueKeys(spec, rows) && KeyOf(spec, r.fields) !in Keys(spec, rows) ==> UniqueKeys(spec, rows + [r])
  {
    hide KeyOf, Covers;
    var more := rows + [r];
    forall key ensures key in Keys(spec, more) <==> key in Keys(spec, rows) || key == KeyOf(spec, r.fields) {
      if i :| 0 <= i < |rows| && KeyOf(spec, rows[i].fields) == key { assert KeyOf(spec, more[i].fields) == key; }
      assert KeyOf(spec, more[|rows|].fields) == KeyOf(spec, r.fields);
    }
    if KeyOf(spec, r.fields) !in Keys(spec, rows) {
      assert forall i :: 0 <= i < |rows| ==> KeyOf(spec, rows[i].fields) in Keys(spec, rows);
    }
  }

  lemma LastKeyIsNew(spec: Spec, rows: seq<Record>)
    requires AllCover(spec, rows) && rows != [] && UniqueKeys(spec, rows)
    ensures UniqueKeys(spec, rows[..|rows| - 1])
    ensures KeyOf(spec, rows[|rows| - 1].fields) !in Keys(spec, rows[..|rows| - 1])
  {
    hide KeyOf, Covers;
    var init := rows[..|rows| - 1];
    forall i | 0 <= i < |init| ensures KeyOf(spec, init[i].fields) != KeyOf(spec, rows[|rows| - 1].fields) {
      assert init[i] == rows[i];
    }
  }

  lemma SameKeys(spec: Spec, a: seq<Record>, b: seq<Record>)
    requires AllCover(spec, a) && AllCover(spec, b) && |a| == |b|
    requires forall i :: 0 <= i < |a| ==> KeyOf(spec, a[i].fields) == KeyOf(spec, b[i].fields)
    ensures Keys(spec, a) == Keys(spec, b) && (UniqueKeys(spec, a) <==> UniqueKeys(spec, b))
  {
    hide KeyOf, Covers;
    forall key ensures key in Keys(spec, a) <==> key in Keys(spec, b) {
      if i :| 0 <= i < |a| && KeyOf(spec, a[i].fields) == key { assert KeyOf(spec, b[i].fields) == key; }
      if i :| 0 <= i < |b| && KeyOf(spec, b[i].fields) == key { assert KeyOf(spec, a[i].fields) == key; }
    }
  }

  /** A step touches no row under another key. */
  lemma StepKeepsOthers(spec: Spec, stored: seq<Record>, st: State, s: Record, i: nat)
    requires Covers(spec, s.fields) && AllCover(spec, stored) && AllCover(spec, st.rows)
    requires Extends(spec, stored, st.rows)
    requires i < |st.rows| && KeyOf(spec, st.rows[i].fields) != KeyOf(spec, s.fields)
    ensures i < |Step(spec, stored, st, s).rows| && Step(spec, stored, st, s).rows[i] == st.rows[i]
  {
    hide Created, Payload, KeyOf, Covers;
  }

  lemma AgreeingKey(spec: Spec, a: Row, b: Row)
    requires Covers(spec, a) && Covers(spec, b) && Agrees(spec, a, b)
    ensures KeyOf(spec, a) == KeyOf(spec, b)
  {
  }

  /** Every source row lands in a target row that agrees with it. */
  lemma {:induction false} SourceLands(spec: Spec, source: seq<Record>, stored: seq<Record>, j: nat) returns (i: nat)
    requires AllCover(spec, source) && AllCover(spec, stored) && UniqueKeys(spec, source) && j < |source|
    ensures AllCover(spec, Synced(spec, source, stored).rows)
    ensures i < |Synced(spec, source, stored).rows|
    ensures Agrees(spec, Synced(spec, source, stored).rows[i].fields, source[j].fields)
  {
    hide Created, Payload, KeyOf, Covers, Agrees;
    var last := |source| - 1;
    var init, s := source[..last], source[last];
    var st := Synced(spec, init, stored);
    SyncedExtends(spec, source, stored);
    SyncedExtends(spec, init, stored);
    if j < last {
      hide Step;
      i := SourceLands(spec, init, stored, j);
      AgreeingKey(spec, st.rows[i].fields, source[j].fields);
      StepKeepsOthers(spec, stored, st, s, i);
    } else {
      hide UniqueKeys, Step, Extends;
      i := StepLands(spec, stored, st, s);
    }
  }

  lemma StepLands(spec: Spec, stored: seq<Record>, st: State, s: Record) returns (i: nat)
    requires Covers(spec, s.fields) && AllCover(spec, stored) && AllCover(spec, st.rows)
    requires Extends(spec, stored, st.rows)
    ensures i < |Step(spec, stored, st, s).rows| && Covers(spec, Step(spec, stored, st, s).rows[i].fields)
    ensures Agrees(spec, Step(spec, stored, st, s).rows[i].fields, s.fields)
  {
    hide Created, Payload, KeyOf, Covers, Agrees;
    match Find(spec, stored, KeyOf(spec, s.fields))
    case None =>
      CreatedAgrees(spec, s);
      i := |st.rows|;
    case Some(k) =>
      OverlaidAgrees(spec, st.rows[k].fields, s);
      i := k;
  }

  /** A record whose key the source does not have is left exactly as it was. */
  lemma {:induction false} OthersStay(spec: Spec, source: seq<Record>, stored: seq<Record>, i: nat)
    requires AllCover(spec, source) && AllCover(spec, stored) && i < |stored|
    requires KeyOf(spec, stored[i].fields) !in Keys(spec, source)
    ensures Synced(spec, source, stored).rows[i] == stored[i]
  {
    hide Created, Payload, KeyOf, Covers;
    if source != [] {
      var last := |source| - 1;
      assert KeyOf(spec, source[last].fields) in Keys(spec, source);
      assert Keys(spec, source[..last]) <= Keys(spec, source);
      OthersStay(spec, source[..last], stored, i);
    }
  }

  lemma {:induction false} SyncedKeys(spec: Spec, source: seq<Record>, stored: seq<Record>)
    requires AllCover(spec, source) && AllCover(spec, stored) && UniqueKeys(spec, source) && UniqueKeys(spec, stored)
    ensures AllCover(spec, Synced(spec, source, stored).rows)
    ensures UniqueKeys(spec, Synced(spec, source, stored).rows)
    ensures Keys(spec, Synced(spec, source, stored).rows) == Keys(spec, stored) + Keys(spec, source)
  {
    hide Created, Payload, KeyOf, Covers, UniqueKeys, Keys;
    SyncedExtends(spec, source, stored);
    if source == [] {
      NoKeys(spec);
    } else {
      var last := |source| - 1;
      var init, s := source[..last], source[last];
      LastKeyIsNew(spec, source);
      AppendKeys(spec, init, s);
      assert source == init + [s];
      SyncedKeys(spec, init, stored);
      SyncedExtends(spec, init, stored);
      var st := Synced(spec, init, stored);
      match Find(spec, stored, KeyOf(spec, s.fields))
      case None =>
        CreatedAgrees(spec, s);
        StoredKeys(spec, stored, KeyOf(spec, s.fields));
        AppendKeys(spec, st.rows, Created(spec, s));
      case Some(i) =>
        StoredKeys(spec, stored, KeyOf(spec, s.fields));
        OverlaidAgrees(spec, st.rows[i].fields, s);
        SameKeys(spec, st.rows, Synced(spec, source, stored).rows);
    }
  }

  lemma NoKeys(spec: Spec)
    ensures Keys(spec, []) == {}
  {
  }

  lemma StoredKeys(spec: Spec, stored: seq<Record>, key: Key)
    requires AllCover(spec, stored)
    ensures Find(spec, stored, key).Some? <==> key in Keys(spec, stored)
  {
    hide KeyOf, Covers;
  }

  /** Every source row is counted once, and created rows are the ones added. */
  lemma {:induction false} Counted(spec: Spec, source: seq<Record>, stored: seq<Record>)
    requires AllCover(spec, source) && AllCover(spec, stored)
    ensures var r := Synced(spec, source, stored);
            r.created + r.updated + r.same == |source| && |r.rows| == |stored| + r.created
  {
    hide Created, Payload, KeyOf, Covers;
    if source != [] {
      Counted(spec, source[..|source| - 1], stored);
    }
  }

  /** The target has a row that agrees with the given one. */
  ghost predicate Reflected(spec: Spec, rows: seq<Record>, s: Record)
    requires AllCover(spec, rows) && Covers(spec, s.fields)
  {
    exists i :: 0 <= i < |rows| && Agrees(spec, rows[i].fields, s.fields)
  }

  /** A target that agrees with the source is found unchanged, row by row. */
  lemma {:induction false} AgreeingIsUnchanged(spec: Spec, source: seq<Record>, rows: seq<Record>)
    requires AllCover(spec, source) && AllCover(spec, rows) && UniqueKeys(spec, rows)
    requires forall j :: 0 <= j < |source| ==> Reflected(spec, rows, source[j])
    ensures Synced(spec, source, rows) == State(rows, 0, 0, |source|)
  {
    hide Created, Payload, KeyOf, Covers;
    if source != [] {
      var last := |source| - 1;
      AgreeingIsUnchanged(spec, source[..last], rows);
      assert Reflected(spec, rows, source[last]);
      var i :| 0 <= i < |rows| && Agrees(spec, rows[i].fields, source[last].fields);
      OverlaidAgrees(spec, rows[i].fields, source[last]);
      var found := Find(spec, rows, KeyOf(spec, source[last].fields));
      assert found == Some(i);
    }
  }

  /** A second sync finds everything unchanged. */
  lemma SecondSyncIsUnchanged(spec: Spec, source: seq<Record>, stored: seq<Record>)
    requires AllCover(spec, source) && AllCover(spec, stored) && UniqueKeys(spec, source) && UniqueKeys(spec, stored)
    ensures AllCover(spec, Synced(spec, source, stored).rows)
    ensures var rows := Synced(spec, source, stored).rows;
            Synced(spec, source, rows) == State(rows, 0, 0, |source|)
  {
    hide Created, Payload, KeyOf, Covers, Agrees, Synced;
    SyncedKeys(spec, source, stored);
    var rows := Synced(spec, source, stored).rows;
    forall j | 0 <= j < |source|
      ensures Reflected(spec, rows, source[j])
    {
      var i := SourceLands(spec, source, stored, j);
    }
    AgreeingIsUnchanged(spec, source, rows);
  }

  // ------------------------------------------------------- primary keys at the commit

  predicate UniqueIds(rows: seq<Record>) {
    forall i, j :: 0 <= i < j < |rows| ==> rows[i].id != rows[j].id
  }

  ghost function Ids(rows: seq<Record>): set<Uuid> {
    set r | r in rows :: r.id
  }

  lemma {:induction false} SyncedIds(spec: Spec, source: seq<Record>, stored: seq<Record>)
    requires AllCover(spec, source) && AllCover(spec, stored)
    ensures Ids(stored) <= Ids(Synced(spec, source, stored).rows) <= Ids(stored) + Ids(source)
  {
    hide Payload, KeyOf, Covers, Ids;
    if source == [] {
      NoIds();
    } else {
      var init, s := source[..|source| - 1], source[|source| - 1];
      SyncedIds(spec, init, stored);
      assert source == init + [s];
      MoreIds(init, s);
      var before, after := Synced(spec, init, stored).rows, Synced(spec, source, stored).rows;
      match Find(spec, stored, KeyOf(spec, s.fields))
      case None => MoreIds(before, Created(spec, s));
      case Some(k) => SameIds(before, after);
    }
  }

  lemma NoIds()
    ensures Ids([]) == {}
  {
  }

  lemma MoreIds(rows: seq<Record>, r: Record)
    ensures Ids(rows + [r]) == Ids(rows) + {r.id}
  {
    assert r in rows + [r];
  }

  lemma SameIds(a: seq<Record>, b: seq<Record>)
    requires |a| == |b| && forall i :: 0 <= i < |a| ==> a[i].id == b[i].id
    ensures Ids(a) == Ids(b) && (UniqueIds(a) <==> UniqueIds(b))
  {
    forall u ensures u in Ids(a) <==> u in Ids(b) {
      if i :| 0 <= i < |a| && a[i].id == u { assert b[i] in b; }
      if i :| 0 <= i < |b| && b[i].id == u { assert a[i] in a; }
    }
  }

  lemma AppendId(rows: seq<Record>, r: Record)
    ensures UniqueIds(rows + [r]) <==> UniqueIds(rows) && r.id !in Ids(rows)
  {
    var more := rows + [r];
    if UniqueIds(more) {
      forall i, j | 0 <= i < j < |rows| ensures rows[i].id != rows[j].id {
        assert more[i].id != more[j].id;
      }
      forall x | x in rows ensures x.id != r.id {
        var i :| 0 <= i < |rows| && rows[i] == x;
        assert more[i].id != more[|rows|].id;
      }
    }
    if r.id !in Ids(rows) {
      forall i | 0 <= i < |rows| ensures rows[i].id != r.id { assert rows[i] in rows; }
    }
  }

  /** No record to be created carries the id of a stored record. */
  ghost predicate IdsAreFree(spec: Spec, source: seq<Record>, stored: seq<Record>)
    requires AllCover(spec, source) && AllCover(spec, stored)
  {
    forall j :: 0 <= j < |source| && KeyOf(spec, source[j].fields) !in Keys(spec, stored)
                ==> source[j].id !in Ids(stored)
  }

  /** The created records keep their source ids, so the commit fails exactly when one of those ids is taken. */
  lemma {:induction false} CommitsWhenIdsAreFree(spec: Spec, source: seq<Record>, stored: seq<Record>)
    requires AllCover(spec, source) && AllCover(spec, stored) && UniqueIds(source) && UniqueIds(stored)
    ensures UniqueIds(Synced(spec, source, stored).rows) <==> IdsAreFree(spec, source, stored)
  {
    hide Payload, KeyOf, Covers, Keys, Ids;
    if source != [] {
      var init, s := source[..|source| - 1], source[|source| - 1];
      assert source == init + [s];
      AppendId(init, s);
      CommitsWhenIdsAreFree(spec, init, stored);
      SyncedIds(spec, init, stored);
      StoredKeys(spec, stored, KeyOf(spec, s.fields));
      var before, after := Synced(spec, init, stored).rows, Synced(spec, source, stored).rows;
      match Find(spec, stored, KeyOf(spec, s.fields))
      case None => AppendId(before, Created(spec, s));
      case Some(k) => SameIds(before, after);
    }
  }

  // ------------------------------------------------------- the reported extras

  function Extras(targetKeys: nat, sourceRows: nat): nat {
    if targetKeys > sourceRows then targetKeys - sourceRows else 0
  }

  lemma {:induction false} KeyCount(spec: Spec, rows: seq<Record>)
    requires AllCover(spec, rows)
    ensures UniqueKeys(spec, rows) ==> |Keys(spec, rows)| == |rows|
  {
    hide KeyOf, Covers, UniqueKeys;
    if rows != [] && UniqueKeys(spec, rows) {
      var last := |rows| - 1;
      LastKeyIsNew(spec, rows);
      KeyCount(spec, rows[..last]);
      AppendKeys(spec, rows[..last], rows[last]);
      assert rows == rows[..last] + [rows[last]];
    }
  }

  /** The extras never exceed the keys only the target has; they are those exactly when one side's keys
      are all among the other's. */
  lemma ExtrasAreABound(spec: Spec, source: seq<Record>, stored: seq<Record>)
    requires AllCover(spec, source) && AllCover(spec, stored) && UniqueKeys(spec, source)
    ensures var t, s := Keys(spec, stored), Keys(spec, source);
            && Extras(|t|, |source|) <= |t - s|
            && (Extras(|t|, |source|) == |t - s| <==> s <= t || t <= s)
  {
    KeyCount(spec, source);
    Overlap(Keys(spec, stored), Keys(spec, source));
  }

  lemma Overlap<T>(t: set<T>, s: set<T>)
    ensures Extras(|t|, |s|) <= |t - s|
    ensures Extras(|t|, |s|) == |t - s| <==> s <= t || t <= s
  {
    assert t == (t - s) + (t * s) && s == (s - t) + (t * s);
    assert |t| == |t - s| + |t * s| && |s| == |s - t| + |t * s|;
    assert |s - t| == 0 <==> s <= t;
    assert |t - s| == 0 <==> t <= s;
  }

  /** One record on each side, under different keys: no extra is reported, though the target has one. */
  lemma ExtrasAreUnderReported(spec: Spec, s: Record, t: Record)
    requires Covers(spec, s.fields) && Covers(spec, t.fields) && KeyOf(spec, s.fields) != KeyOf(spec, t.fields)
    ensures AllCover(spec, [s]) && AllCover(spec, [t]) && UniqueKeys(spec, [s]) && UniqueKeys(spec, [t])
    ensures Extras(|Keys(spec, [t])|, |[s]|) == 0 && Keys(spec, [t]) - Keys(spec, [s]) == {KeyOf(spec, t.fields)}
  {
    hide KeyOf;
    NoKeys(spec);
    AppendKeys(spec, [], s);
    AppendKeys(spec, [], t);
    assert [] + [s] == [s] && [] + [t] == [t];
  }
}
