/** The pass loop of `scripts/import_materialized_project_snapshot.py`. */
module PassImport {
  import opened Names
  import opened Relational

  type Key = (Table, Uuid)

  /** A snapshot, the tables of it that exist locally, and the database it goes into. */
  datatype Input = Input(schema: Schema, present: set<Table>, dataset: map<Table, seq<Row>>, start: Store) {
    ghost predicate Valid() {
      present <= schema.Keys && present <= start.Keys
    }
  }

  ghost function Keys(store: Store): set<Key> {
    set t, u | t in store && u in IdsOf(store[t]) :: (t, u)
  }

  /** The row has an id, and each of its references is null, in `have`, or to itself. */
  predicate ParentsIn(schema: Schema, have: set<Key>, t: Table, row: Row)
    requires t in schema
  {
    Has(row, "id") &&
    forall fk :: fk in schema[t].fks && Has(row, fk.column) ==>
      (fk.parent, At(row, fk.column)) in have + {(t, At(row, "id"))}
  }

  // ------------------------------------------------------- one upsert

  /** `insert ... on conflict (id) do update`, all other columns replaced. */
  function Upsert(rows: seq<Row>, row: Row): seq<Row>
    requires Has(row, "id")
  {
    if rows == [] then [row]
    else if Has(rows[0], "id") && At(rows[0], "id") == At(row, "id") then [row] + rows[1..]
    else [rows[0]] + Upsert(rows[1..], row)
  }

  lemma {:induction false} UpsertIds(rows: seq<Row>, row: Row)
    requires Has(row, "id")
    ensures IdsOf(Upsert(rows, row)) == IdsOf(rows) + {At(row, "id")}
    ensures row in Upsert(rows, row)
    ensures forall r :: r in Upsert(rows, row) ==> r == row || r in rows
  {
    if rows != [] {
      var tail := rows[1..];
      assert rows == [rows[0]] + tail;
      assert IdsOf(rows) == IdsOf([rows[0]]) + IdsOf(tail) by { IdsConcat([rows[0]], tail); }
      if Has(rows[0], "id") && At(rows[0], "id") == At(row, "id") {
        IdsConcat([row], tail);
        assert IdsOf([row]) == {At(row, "id")} && IdsOf([rows[0]]) == {At(row, "id")};
      } else {
        UpsertIds(tail, row);
        IdsConcat([rows[0]], Upsert(tail, row));
      }
    }
  }

  /** The rows one after the other. */
  function UpsertAll(rows: seq<Row>, more: seq<Row>): seq<Row> {
    if more == [] then rows else
      var before, last := UpsertAll(rows, more[..|more| - 1]), more[|more| - 1];
      if Has(last, "id") then Upsert(before, last) else before
  }

  lemma {:induction false} UpsertAllAppend(rows: seq<Row>, a: seq<Row>, b: seq<Row>)
    ensures UpsertAll(UpsertAll(rows, a), b) == UpsertAll(rows, a + b)
  {
    if b == [] {
      assert a + b == a;
    } else {
      UpsertAllAppend(rows, a, b[..|b| - 1]);
      assert (a + b)[..|a + b| - 1] == a + b[..|b| - 1];
    }
  }

  /** An upsert into a keyed table replaces the row with the id, or adds the row, and touches no other. */
  lemma {:induction false} UpsertIs(rows: seq<Row>, row: Row)
    requires Keyed(rows) && Has(row, "id")
    ensures Keyed(Upsert(rows, row))
    ensures forall r :: r in Upsert(rows, row) <==> r == row || (r in rows && At(r, "id") != At(row, "id"))
  {
    UpsertIds(rows, row);
    if rows != [] {
      var tail := rows[1..];
      assert rows == [rows[0]] + tail;
      forall i | 0 <= i < |tail| ensures tail[i] == rows[i + 1] && At(tail[i], "id") != At(rows[0], "id") {
      }
      assert Keyed(tail);
      if At(rows[0], "id") != At(row, "id") {
        UpsertIs(tail, row);
        UpsertIds(tail, row);
        HeadKeyed(rows[0], Upsert(tail, row));
      } else {
        HeadKeyed(row, tail);
      }
    } else {
      HeadKeyed(row, []);
    }
  }

  lemma HeadKeyed(head: Row, tail: seq<Row>)
    requires Keyed(tail) && Has(head, "id") && forall r :: r in tail ==> At(r, "id") != At(head, "id")
    ensures Keyed([head] + tail)
  {
    forall i | 0 <= i < |tail| ensures At(tail[i], "id") != At(head, "id") { assert tail[i] in tail; }
  }

  /** Rows with distinct ids end up in the table as given, and rows under other ids stay. */
  lemma {:induction false} UpsertAllIs(rows: seq<Row>, more: seq<Row>)
    requires Keyed(rows) && Keyed(more)
    ensures Keyed(UpsertAll(rows, more))
    ensures forall r :: r in UpsertAll(rows, more) <==> r in more || (r in rows && At(r, "id") !in IdsOf(more))
  {
    if more != [] {
      var init, last := more[..|more| - 1], more[|more| - 1];
      LastIsOther(more);
      UpsertAllIs(rows, init);
      LastLands(rows, init, last, UpsertAll(rows, init));
    }
  }

  lemma LastLands(rows: seq<Row>, init: seq<Row>, last: Row, before: seq<Row>)
    requires Keyed(rows) && Keyed(before) && Keyed(init) && Has(last, "id")
    requires forall r :: r in init ==> At(r, "id") != At(last, "id")
    requires forall r :: r in before <==> r in init || (r in rows && At(r, "id") !in IdsOf(init))
    ensures Keyed(Upsert(before, last))
    ensures forall r :: r in Upsert(before, last) <==>
      r in init + [last] || (r in rows && At(r, "id") !in IdsOf(init) + {At(last, "id")})
  {
    UpsertIs(before, last);
    hide Upsert, IdsOf;
  }

  lemma LastIsOther(more: seq<Row>)
    requires Keyed(more) && more != []
    ensures var init, last := more[..|more| - 1], more[|more| - 1];
            && Keyed(init) && Has(last, "id") && IdsOf(more) == IdsOf(init) + {At(last, "id")}
            && forall r :: r in init ==> At(r, "id") != At(last, "id")
  {
    var init, last := more[..|more| - 1], more[|more| - 1];
    IdsConcat(init, [last]);
    assert more == init + [last];
    forall r | r in init ensures At(r, "id") != At(last, "id") {
      var i :| 0 <= i < |init| && init[i] == r;
      assert At(more[i], "id") != At(more[|more| - 1], "id");
    }
  }

  lemma IdsConcat(a: seq<Row>, b: seq<Row>)
    ensures IdsOf(a + b) == IdsOf(a) + IdsOf(b)
  {
    assert forall r :: r in a + b <==> r in a || r in b;
  }

  /** The database takes the row: every reference resolves once the row is in. */
  predicate Accepts(schema: Schema, store: Store, t: Table, row: Row)
    requires t in schema && t in store
  {
    Has(row, "id") && RowResolves(schema, store[t := Upsert(store[t], row)], t, row)
  }

  lemma AcceptsIffParentsIn(schema: Schema, store: Store, t: Table, row: Row)
    requires t in schema && t in store
    ensures Accepts(schema, store, t, row) <==> ParentsIn(schema, Keys(store), t, row)
  {
    if Has(row, "id") {
      UpsertIds(store[t], row);
      var after := store[t := Upsert(store[t], row)];
      forall q, u ensures (q in after && HasId(after[q], u)) <==> (q, u) in Keys(store) + {(t, At(row, "id"))} {
        assert q in after ==> (HasId(after[q], u) <==> u in IdsOf(after[q]));
      }
      forall fk | fk in schema[t].fks
        ensures Resolves(after, row, fk) <==>
          (Has(row, fk.column) ==> (fk.parent, At(row, fk.column)) in Keys(store) + {(t, At(row, "id"))})
      {
      }
    }
  }

  lemma UpsertKeys(store: Store, t: Table, row: Row)
    requires t in store && Has(row, "id")
    ensures Keys(store[t := Upsert(store[t], row)]) == Keys(store) + {(t, At(row, "id"))}
  {
    UpsertIds(store[t], row);
    var after := store[t := Upsert(store[t], row)];
    forall q, u ensures (q, u) in Keys(after) <==> (q, u) in Keys(store) + {(t, At(row, "id"))} {
    }
  }

  lemma ParentsMonotone(schema: Schema, a: set<Key>, b: set<Key>, t: Table, row: Row)
    requires t in schema && a <= b && ParentsIn(schema, a, t, row)
    ensures ParentsIn(schema, b, t, row)
  {
  }

  // ------------------------------------------------------- the least fixpoint

  /** Rows of present tables become available when their parents are. */
  ghost function Next(x: Input, have: set<Key>): set<Key>
    requires x.Valid()
  {
    have + set t, row: Row | t in x.present && t in x.dataset && row in x.dataset[t]
                             && ParentsIn(x.schema, have, t, row)
             :: (t, At(row, "id"))
  }

  /** What is available after chains of at most `k` missing parents. */
  ghost function Level(x: Input, k: nat): set<Key>
    requires x.Valid()
  {
    if k == 0 then Keys(x.start) else Next(x, Level(x, k - 1))
  }

  ghost predicate ClosedSet(x: Input, have: set<Key>)
    requires x.Valid()
  {
    Keys(x.start) <= have && Next(x, have) == have
  }

  /** Every level lies in every closed set: their union is the least one. */
  lemma {:induction false} LevelsAreLeast(x: Input, have: set<Key>, k: nat)
    requires x.Valid() && ClosedSet(x, have)
    ensures Level(x, k) <= have
  {
    if k > 0 {
      LevelsAreLeast(x, have, k - 1);
      forall t, row: Row | t in x.present && t in x.dataset && row in x.dataset[t]
                           && ParentsIn(x.schema, Level(x, k - 1), t, row)
        ensures (t, At(row, "id")) in have
      {
        ParentsMonotone(x.schema, Level(x, k - 1), have, t, row);
        assert (t, At(row, "id")) in Next(x, have);
      }
    }
  }

  lemma {:induction false} LevelsGrow(x: Input, j: nat, k: nat)
    requires x.Valid() && j <= k
    ensures Level(x, j) <= Level(x, k)
    decreases k
  {
    if j < k { LevelsGrow(x, j, k - 1); }
  }

  // ------------------------------------------------------- one table

  /** The keys of the given rows of `t`. */
  ghost function RowKeys(t: Table, rows: seq<Row>): set<Key> {
    set row: Row | row in rows && Has(row, "id") :: (t, At(row, "id"))
  }

  lemma RowKeysSnoc(t: Table, rows: seq<Row>, row: Row)
    requires Has(row, "id")
    ensures RowKeys(t, rows + [row]) == RowKeys(t, rows) + {(t, At(row, "id"))}
  {
  }

  /** Importing the rows that are taken, in order; what is rejected remains. */
  method ImportTable(x: Input, t: Table, rows: seq<Row>, db0: Store, ghost depth0: nat)
    returns (db: Store, remaining: seq<Row>, importedNow: nat, ghost taken: seq<Row>, ghost depth: nat)
    requires x.Valid() && t in x.present && t in x.dataset && t in db0 && Keys(db0) <= Level(x, depth0)
    requires forall row :: row in rows ==> row in x.dataset[t]
    ensures multiset(taken) + multiset(remaining) == multiset(rows) && importedNow == |taken|
    ensures db.Keys == db0.Keys && Keys(db) == Keys(db0) + RowKeys(t, taken)
    ensures forall row :: row in taken ==> ParentsIn(x.schema, Keys(db), t, row)
    ensures forall row :: row in remaining ==> !ParentsIn(x.schema, Keys(db0), t, row)
    ensures db == db0[t := UpsertAll(db0[t], taken)]
    ensures Keys(db) <= Level(x, depth)
  {
    hide Accepts, ParentsIn, Keys, Level, Upsert, RowKeys;
    db, remaining, importedNow, taken, depth := db0, [], 0, [], depth0;
    assert RowKeys(t, []) == {} by { NoRowKeys(t); }
    for i := 0 to |rows|
      invariant multiset(taken) + multiset(remaining) == multiset(rows[..i]) && importedNow == |taken|
      invariant db.Keys == db0.Keys && Keys(db) == Keys(db0) + RowKeys(t, taken)
      invariant forall row :: row in taken ==> ParentsIn(x.schema, Keys(db), t, row)
      invariant forall row :: row in remaining ==> !ParentsIn(x.schema, Keys(db0), t, row)
      invariant db == db0[t := UpsertAll(db0[t], taken)]
      invariant Keys(db) <= Level(x, depth)
    {
      var row := rows[i];
      assert rows[..i + 1] == rows[..i] + [row];
      AcceptsIffParentsIn(x.schema, db, t, row);
      if Accepts(x.schema, db, t, row) {
        Taken(x, t, row, db, taken, depth);
        assert (taken + [row])[..|taken|] == taken;
        db := db[t := Upsert(db[t], row)];
        taken, importedNow, depth := taken + [row], importedNow + 1, depth + 1;
      } else {
        if ParentsIn(x.schema, Keys(db0), t, row) {
          ParentsMonotone(x.schema, Keys(db0), Keys(db), t, row);
        }
        remaining := remaining + [row];
      }
    }
    assert rows[..|rows|] == rows;
  }

  lemma NoRowKeys(t: Table)
    ensures RowKeys(t, []) == {}
  {
  }

  lemma Taken(x: Input, t: Table, row: Row, db: Store, taken: seq<Row>, depth: nat)
    requires x.Valid() && t in x.present && t in x.dataset && row in x.dataset[t] && t in db
    requires Keys(db) <= Level(x, depth) && ParentsIn(x.schema, Keys(db), t, row)
    requires forall r :: r in taken ==> ParentsIn(x.schema, Keys(db), t, r)
    ensures Has(row, "id")
    ensures var after := db[t := Upsert(db[t], row)];
            && Keys(after) == Keys(db) + {(t, At(row, "id"))} && Keys(after) <= Level(x, depth + 1)
            && forall r :: r in taken + [row] ==> ParentsIn(x.schema, Keys(after), t, r)
    ensures RowKeys(t, taken + [row]) == RowKeys(t, taken) + {(t, At(row, "id"))}
  {
    UpsertKeys(db, t, row);
    RowKeysSnoc(t, taken, row);
    ParentsMonotone(x.schema, Keys(db), Level(x, depth), t, row);
    var after := db[t := Upsert(db[t], row)];
    forall r | r in taken + [row] ensures ParentsIn(x.schema, Keys(after), t, r) {
      ParentsMonotone(x.schema, Keys(db), Keys(after), t, r);
    }
  }

  // ------------------------------------------------------- one pass

  type Rows = map<Table, seq<Row>>

  ghost function DoneKeys(done: Rows): set<Key> {
    set t, row: Row | t in done && row in done[t] && Has(row, "id") :: (t, At(row, "id"))
  }

  /** Every row of a table is counted once, as imported or as pending. */
  ghost predicate Counted(all: seq<Row>, pending: seq<Row>, imported: nat, done: seq<Row>, present: bool) {
    multiset(done) + multiset(pending) == multiset(all) && imported == |done| && (!present ==> done == [])
  }

  ghost predicate Balanced(x: Input, pending: Rows, imported: map<Table, nat>, done: Rows) {
    && x.dataset.Keys == pending.Keys == imported.Keys == done.Keys
    && forall t :: t in x.dataset ==> Counted(x.dataset[t], pending[t], imported[t], done[t], t in x.present)
  }

  /** The database holds the imported rows over what it held before. */
  ghost predicate Holds(x: Input, db: Store, done: Rows) {
    && db.Keys == x.start.Keys
    && forall t :: t in db ==> db[t] == UpsertAll(x.start[t], if t in done then done[t] else [])
  }

  lemma HoldsStep(x: Input, db: Store, done: Rows, t: Table, taken: seq<Row>)
    requires Holds(x, db, done) && t in done && t in db
    ensures Holds(x, db[t := UpsertAll(db[t], taken)], done[t := done[t] + taken])
  {
    UpsertAllAppend(x.start[t], done[t], taken);
  }

  /**
   What holds between tables: each row of the snapshot is either imported, with its key in
   the database and its parents too, or still pending, and nothing else has been added.
   */
  ghost predicate Invariant(x: Input, db: Store, pending: Rows, imported: map<Table, nat>, done: Rows, depth: nat)
    requires x.Valid()
  {
    && Holds(x, db, done) && Balanced(x, pending, imported, done)
    && Keys(db) == Keys(x.start) + DoneKeys(done) && Keys(db) <= Level(x, depth)
    && ParentsAreIn(x, Keys(db), done)
  }

  lemma DoneKeysStep(done: Rows, t: Table, taken: seq<Row>)
    requires t in done
    ensures DoneKeys(done[t := done[t] + taken]) == DoneKeys(done) + RowKeys(t, taken)
  {
    var after := done[t := done[t] + taken];
    forall key: Key ensures key in DoneKeys(after) <==> key in DoneKeys(done) + RowKeys(t, taken) {
      if key in DoneKeys(after) {
        var row: Row :| key.0 in after && row in after[key.0] && Has(row, "id") && At(row, "id") == key.1;
        if key.0 == t && row in taken { assert key in RowKeys(t, taken); } else { assert row in done[key.0]; }
      }
      if key in DoneKeys(done) {
        var row: Row :| key.0 in done && row in done[key.0] && Has(row, "id") && At(row, "id") == key.1;
        assert row in after[key.0];
      }
      if key in RowKeys(t, taken) {
        var row: Row :| row in taken && Has(row, "id") && key == (t, At(row, "id"));
        assert row in after[t];
      }
    }
  }

  lemma BalancedStep(x: Input, pending: Rows, imported: map<Table, nat>, done: Rows,
                     t: Table, remaining: seq<Row>, taken: seq<Row>)
    requires Balanced(x, pending, imported, done) && t in x.dataset && t in x.present
    requires multiset(taken) + multiset(remaining) == multiset(pending[t])
    ensures Balanced(x, pending[t := remaining], imported[t := imported[t] + |taken|], done[t := done[t] + taken])
  {
    MovedOver(x.dataset[t], pending[t], imported[t], done[t], remaining, taken);
    hide Counted;
  }

  lemma MovedOver(all: seq<Row>, pending: seq<Row>, imported: nat, done: seq<Row>, remaining: seq<Row>, taken: seq<Row>)
    requires Counted(all, pending, imported, done, true) && multiset(taken) + multiset(remaining) == multiset(pending)
    ensures Counted(all, remaining, imported + |taken|, done + taken, true)
  {
    assert multiset(done + taken) == multiset(done) + multiset(taken);
  }

  lemma InvariantStep(x: Input, db: Store, pending: Rows, imported: map<Table, nat>, done: Rows, depth: nat,
                      t: Table, after: Store, remaining: seq<Row>, taken: seq<Row>, depth': nat)
    requires x.Valid() && Invariant(x, db, pending, imported, done, depth) && t in x.dataset && t in x.present
    requires multiset(taken) + multiset(remaining) == multiset(pending[t])
    requires t in db && after == db[t := UpsertAll(db[t], taken)]
    requires Keys(after) == Keys(db) + RowKeys(t, taken) && Keys(after) <= Level(x, depth')
    requires forall row :: row in taken ==> ParentsIn(x.schema, Keys(after), t, row)
    ensures Invariant(x, after, pending[t := remaining], imported[t := imported[t] + |taken|],
                      done[t := done[t] + taken], depth')
  {
    BalancedStep(x, pending, imported, done, t, remaining, taken);
    DoneKeysStep(done, t, taken);
    HoldsStep(x, db, done, t, taken);
    hide ParentsIn, Level, Keys, DoneKeys, RowKeys, Balanced, Holds;
    ParentsStayIn(x, Keys(db), Keys(after), done, t, taken);
  }

  /** The imported rows have their parents in the database. */
  ghost predicate ParentsAreIn(x: Input, db: set<Key>, done: Rows)
    requires x.Valid()
  {
    forall t, row :: t in done && t in x.present && row in done[t] ==> ParentsIn(x.schema, db, t, row)
  }

  lemma ParentsStayIn(x: Input, before: set<Key>, after: set<Key>, done: Rows, t: Table, taken: seq<Row>)
    requires x.Valid() && t in x.present && ParentsAreIn(x, before, done) && before <= after && t in done
    requires forall row :: row in taken ==> ParentsIn(x.schema, after, t, row)
    ensures ParentsAreIn(x, after, done[t := done[t] + taken])
  {
    hide ParentsIn;
    var done' := done[t := done[t] + taken];
    forall q, row | q in done' && q in x.present && row in done'[q] ensures ParentsIn(x.schema, after, q, row) {
      if q != t || row in done[q] {
        ParentsMonotone(x.schema, before, after, q, row);
      }
    }
  }

  /** The rows still pending, over the tables of the list. */
  function Total(order: seq<Table>, pending: Rows): nat
    requires forall t :: t in order ==> t in pending
  {
    if order == [] then 0 else Total(order[..|order| - 1], pending) + |pending[order[|order| - 1]]|
  }

  lemma {:induction false} TotalFalls(order: seq<Table>, a: Rows, b: Rows)
    requires a.Keys == b.Keys && forall t :: t in order ==> t in a
    requires forall t :: t in a ==> |b[t]| <= |a[t]|
    ensures Total(order, b) <= Total(order, a)
    ensures (exists t :: t in order && |b[t]| < |a[t]|) ==> Total(order, b) < Total(order, a)
  {
    if order != [] {
      TotalFalls(order[..|order| - 1], a, b);
      var last := order[|order| - 1];
      assert order == order[..|order| - 1] + [last];
      if t :| t in order && |b[t]| < |a[t]| {
        assert t == last || t in order[..|order| - 1];
      }
    }
  }

  method Pass(x: Input, order: seq<Table>, db0: Store, pending0: Rows, imported0: map<Table, nat>, ghost done0: Rows,
              ghost depth0: nat)
    returns (db: Store, pending: Rows, imported: map<Table, nat>, progress: bool, ghost done: Rows, ghost depth: nat)
    requires x.Valid() && Invariant(x, db0, pending0, imported0, done0, depth0) && Elems(order) == x.dataset.Keys
    ensures Invariant(x, db, pending, imported, done, depth) && Keys(db0) <= Keys(db)
    ensures forall t, row :: t in pending && t in x.present && row in pending[t] ==>
      !ParentsIn(x.schema, Keys(db0), t, row)
    ensures forall t :: t in pending ==> |pending[t]| <= |pending0[t]|
    ensures progress <==> exists t :: t in pending && |pending[t]| < |pending0[t]|
    ensures !progress ==> db == db0
  {
    hide ParentsIn, Level, Keys, Invariant;
    db, pending, imported, progress, done, depth := db0, pending0, imported0, false, done0, depth0;
    InvariantKeys(x, db, pending, imported, done, depth);
    for i := 0 to |order|
      invariant Invariant(x, db, pending, imported, done, depth)
      invariant Keys(db0) <= Keys(db) && pending.Keys == pending0.Keys
      invariant forall t, row :: t in order[..i] && t in pending && t in x.present && row in pending[t] ==>
        !ParentsIn(x.schema, Keys(db0), t, row)
      invariant forall t :: t in pending ==> |pending[t]| <= |pending0[t]|
      invariant progress <==> exists t :: t in pending && |pending[t]| < |pending0[t]|
      invariant !progress ==> db == db0
    {
      var t := order[i];
      assert t in Elems(order);
      assert order[..i + 1] == order[..i] + [t];
      InvariantKeys(x, db, pending, imported, done, depth);
      var rows := pending[t];
      if rows != [] && t in x.present {
        var after, remaining, importedNow;
        ghost var taken, depth';
        after, remaining, importedNow, taken, depth' := ImportTable(x, t, rows, db, depth);
        InvariantStep(x, db, pending, imported, done, depth, t, after, remaining, taken, depth');
        RejectedBefore(x, t, remaining, Keys(db0), Keys(db));
        SizesAdd(taken, remaining, rows);
        if importedNow > 0 { progress := true; }
        db, pending, imported := after, pending[t := remaining], imported[t := imported[t] + importedNow];
        done, depth := done[t := done[t] + taken], depth';
      }
    }
    assert forall t :: t in pending ==> t in Elems(order);
  }

  lemma SizesAdd(a: seq<Row>, b: seq<Row>, all: seq<Row>)
    requires multiset(a) + multiset(b) == multiset(all)
    ensures |a| + |b| == |all|
  {
    assert |multiset(a) + multiset(b)| == |multiset(all)|;
  }

  lemma InvariantKeys(x: Input, db: Store, pending: Rows, imported: map<Table, nat>, done: Rows, depth: nat)
    requires x.Valid() && Invariant(x, db, pending, imported, done, depth)
    ensures db.Keys == x.start.Keys && x.dataset.Keys == pending.Keys == imported.Keys == done.Keys
    ensures Keys(x.start) <= Keys(db) <= Level(x, depth)
    ensures forall t, row :: t in pending && row in pending[t] ==> row in x.dataset[t]
  {
    forall t, row | t in pending && row in pending[t] ensures row in x.dataset[t] {
      assert row in multiset(done[t]) + multiset(pending[t]);
    }
  }

  lemma RejectedBefore(x: Input, t: Table, rows: seq<Row>, a: set<Key>, b: set<Key>)
    requires x.Valid() && t in x.present && a <= b
    requires forall row :: row in rows ==> !ParentsIn(x.schema, b, t, row)
    ensures forall row :: row in rows ==> !ParentsIn(x.schema, a, t, row)
  {
    forall row | row in rows ensures !ParentsIn(x.schema, a, t, row) {
      if ParentsIn(x.schema, a, t, row) { ParentsMonotone(x.schema, a, b, t, row); }
    }
  }

  // ------------------------------------------------------- the eight passes

  /** The import has settled: what is available is closed, so nothing pending can ever come in. */
  ghost predicate Settled(x: Input, have: set<Key>, pending: Rows)
    requires x.Valid() && pending.Keys == x.dataset.Keys
  {
    && ClosedSet(x, have) && (exists k :: have == Level(x, k))
    && forall t, row :: t in x.present && t in x.dataset ==>
         multiset(pending[t])[row] == if ParentsIn(x.schema, have, t, row) then 0 else multiset(x.dataset[t])[row]
  }

  /** A pass brings in every row whose parents were there before it. */
  lemma PassCompletes(x: Input, before: set<Key>, db: Store, pending: Rows, imported: map<Table, nat>, done: Rows,
                      depth: nat, k: nat)
    requires x.Valid() && Invariant(x, db, pending, imported, done, depth)
    requires before <= Keys(db) && Level(x, k) <= before
    requires forall t, row :: t in pending && t in x.present && row in pending[t] ==>
      !ParentsIn(x.schema, before, t, row)
    ensures Level(x, k + 1) <= Keys(db)
  {
    hide Keys;
    forall t, row: Row | t in x.present && t in x.dataset && row in x.dataset[t]
                         && ParentsIn(x.schema, Level(x, k), t, row)
      ensures (t, At(row, "id")) in Keys(db)
    {
      ParentsMonotone(x.schema, Level(x, k), before, t, row);
      assert row in multiset(done[t]) + multiset(pending[t]);
      assert row in done[t];
      assert (t, At(row, "id")) in DoneKeys(done);
    }
  }

  /** A pass that takes nothing has reached the least fixpoint. */
  lemma StuckIsSettled(x: Input, db: Store, pending: Rows, imported: map<Table, nat>, done: Rows, depth: nat)
    requires x.Valid() && Invariant(x, db, pending, imported, done, depth)
    requires forall t, row :: t in pending && t in x.present && row in pending[t] ==>
      !ParentsIn(x.schema, Keys(db), t, row)
    ensures pending.Keys == x.dataset.Keys && Settled(x, Keys(db), pending)
  {
    hide Keys, Holds, Level;
    var have := Keys(db);
    forall t, row: Row | t in x.present && t in x.dataset && row in x.dataset[t] && ParentsIn(x.schema, have, t, row)
      ensures (t, At(row, "id")) in have
    {
      assert row in multiset(done[t]) + multiset(pending[t]);
      assert (t, At(row, "id")) in DoneKeys(done);
    }
    assert ClosedSet(x, have);
    LevelsAreLeast(x, have, depth);
    assert have == Level(x, depth);
    forall t, row | t in x.present && t in x.dataset
      ensures multiset(pending[t])[row] == if ParentsIn(x.schema, have, t, row) then 0 else multiset(x.dataset[t])[row]
    {
      assert multiset(done[t])[row] + multiset(pending[t])[row] == multiset(x.dataset[t])[row];
      if ParentsIn(x.schema, have, t, row) { assert row !in pending[t]; } else { assert row !in done[t]; }
    }
  }

  lemma NothingDone(x: Input, pending: Rows, imported: map<Table, nat>, done: Rows)
    requires x.Valid() && pending == x.dataset
    requires imported == (map t | t in x.dataset :: 0) && done == map t | t in x.dataset :: []
    ensures Invariant(x, x.start, pending, imported, done, 0)
  {
    assert DoneKeys(done) == {};
  }

  /** Nothing pending, or nothing imported by the last pass. */
  method ImportSnapshot(x: Input, order: seq<Table>)
    returns (db: Store, pending: Rows, imported: map<Table, nat>, totals: seq<nat>, settled: bool,
             ghost done: Rows, ghost depth: nat)
    requires x.Valid() && Elems(order) == x.dataset.Keys
    // Every row is accounted for, table by table.
    ensures Invariant(x, db, pending, imported, done, depth)
    ensures forall t :: t in x.dataset ==> imported[t] + |pending[t]| == |x.dataset[t]|
    // When the loop ends of itself, the outcome is the least fixpoint.
    ensures settled ==> Settled(x, Keys(db), pending)
    // In any case chains of up to eight missing parents are resolved.
    ensures Level(x, 8) <= Keys(db) && (!settled ==> |totals| == 9)
    // Each pass but the last one leaves strictly fewer rows pending.
    ensures 1 <= |totals| <= 9 && totals[0] == Total(order, x.dataset)
    ensures forall i :: 0 < i < |totals| - 1 ==> totals[i] < totals[i - 1]
  {
    hide ParentsIn, Keys, Invariant, Settled, Level, Total;
    db, pending := x.start, x.dataset;
    imported, done, depth := map t | t in x.dataset :: 0, map t | t in x.dataset :: [], 0;
    NothingDone(x, pending, imported, done);
    InvariantKeys(x, db, pending, imported, done, depth);
    totals, settled := [Total(order, pending)], false;
    var pass := 0;
    LevelZero(x);
    while pass < 8
      invariant 0 <= pass <= 8 && !settled && |totals| == pass + 1 && totals[0] == Total(order, x.dataset)
      invariant Invariant(x, db, pending, imported, done, depth) && pending.Keys == x.dataset.Keys
      invariant Level(x, pass) <= Keys(db) && totals[pass] == Total(order, pending)
      invariant forall i :: 0 < i <= pass ==> totals[i] < totals[i - 1]
    {
      ghost var before, pending0 := Keys(db), pending;
      var progress;
      db, pending, imported, progress, done, depth := Pass(x, order, db, pending, imported, done, depth);
      InvariantKeys(x, db, pending, imported, done, depth);
      PassCompletes(x, before, db, pending, imported, done, depth, pass);
      OverAllTables(order, pending0, pending);
      totals, pass := totals + [Total(order, pending)], pass + 1;
      if forall t :: t in pending ==> pending[t] == [] {
        StuckIsSettled(x, db, pending, imported, done, depth);
        settled := true;
        break;
      }
      if !progress {
        StuckIsSettled(x, db, pending, imported, done, depth);
        settled := true;
        break;
      }
    }
    Conserved(x, db, pending, imported, done, depth);
    if settled {
      EightLevels(x, Keys(db), pending);
    }
  }

  lemma LevelZero(x: Input)
    requires x.Valid()
    ensures Level(x, 0) == Keys(x.start)
  {
  }

  lemma EightLevels(x: Input, have: set<Key>, pending: Rows)
    requires x.Valid() && pending.Keys == x.dataset.Keys && Settled(x, have, pending)
    ensures Level(x, 8) <= have
  {
    LevelsAreLeast(x, have, 8);
  }

  lemma OverAllTables(order: seq<Table>, a: Rows, b: Rows)
    requires a.Keys == b.Keys == Elems(order) && forall t :: t in b ==> |b[t]| <= |a[t]|
    ensures Total(order, b) <= Total(order, a)
    ensures (exists t :: t in b && |b[t]| < |a[t]|) ==> Total(order, b) < Total(order, a)
  {
    assert forall t :: t in a <==> t in order;
    TotalFalls(order, a, b);
  }

  lemma Conserved(x: Input, db: Store, pending: Rows, imported: map<Table, nat>, done: Rows, depth: nat)
    requires x.Valid() && Invariant(x, db, pending, imported, done, depth)
    ensures x.dataset.Keys == pending.Keys == imported.Keys
    ensures forall t :: t in x.dataset ==> imported[t] + |pending[t]| == |x.dataset[t]|
  {
    forall t | t in x.dataset ensures imported[t] + |pending[t]| == |x.dataset[t]| {
      SizesAdd(done[t], pending[t], x.dataset[t]);
    }
  }

  // ------------------------------------------------------- the order does not matter

  /** The same snapshot, its rows and tables in any order. */
  ghost predicate SameRows(x: Input, y: Input) {
    && x.schema == y.schema && x.present == y.present && x.start == y.start && x.dataset.Keys == y.dataset.Keys
    && forall t :: t in x.dataset ==> multiset(x.dataset[t]) == multiset(y.dataset[t])
  }

  lemma {:induction false} SameLevels(x: Input, y: Input, k: nat)
    requires x.Valid() && y.Valid() && SameRows(x, y)
    ensures Level(x, k) == Level(y, k)
  {
    if k > 0 {
      SameLevels(x, y, k - 1);
      forall t, row | t in x.dataset ensures row in x.dataset[t] <==> row in y.dataset[t] {
        assert row in x.dataset[t] <==> row in multiset(x.dataset[t]);
        assert row in y.dataset[t] <==> row in multiset(y.dataset[t]);
      }
      assert Next(x, Level(x, k - 1)) == Next(y, Level(y, k - 1));
    }
  }

  /** Whatever the order of tables and rows, settled imports agree on what is in and what is not. */
  lemma ImportIsConfluent(x: Input, y: Input, have1: set<Key>, have2: set<Key>, pending1: Rows, pending2: Rows)
    requires x.Valid() && y.Valid() && SameRows(x, y)
    requires pending1.Keys == x.dataset.Keys && pending2.Keys == y.dataset.Keys
    requires Settled(x, have1, pending1) && Settled(y, have2, pending2)
    ensures have1 == have2
    ensures forall t :: t in x.dataset && t in x.present ==> multiset(pending1[t]) == multiset(pending2[t])
  {
    hide ParentsIn, Keys;
    var j :| have1 == Level(x, j);
    var k :| have2 == Level(y, k);
    SameLevels(x, y, j);
    SameLevels(x, y, k);
    LevelsAreLeast(x, have1, k);
    LevelsAreLeast(y, have2, j);
  }

  /** Distinct ids in the snapshot, and in the database it goes into. */
  ghost predicate AllKeyed(x: Input) {
    (forall t :: t in x.dataset ==> Keyed(x.dataset[t])) && forall t :: t in x.start ==> Keyed(x.start[t])
  }

  lemma KeyedSome(rows: seq<Row>, some: seq<Row>, rest: seq<Row>)
    requires Keyed(rows) && multiset(some) + multiset(rest) == multiset(rows)
    ensures Keyed(some)
  {
    forall i | 0 <= i < |some| ensures Has(some[i], "id") {
      assert some[i] in multiset(rows);
    }
    forall i, j | 0 <= i < j < |some| ensures At(some[i], "id") != At(some[j], "id") {
      assert some[i] in multiset(rows) && some[j] in multiset(rows);
      if some[i] == some[j] {
        RepeatedTwice(some, i, j);
        DistinctOnce(rows, some[i]);
      }
    }
  }

  /** A table ends with the imported rows as they are in the snapshot; rows under other ids are untouched. */
  lemma ImportedAsGiven(x: Input, db: Store, pending: Rows, imported: map<Table, nat>, done: Rows, depth: nat, t: Table)
    requires x.Valid() && Invariant(x, db, pending, imported, done, depth) && AllKeyed(x) && t in db && t in x.dataset
    ensures Keyed(db[t])
    ensures forall r :: r in db[t] <==> r in done[t] || (r in x.start[t] && At(r, "id") !in IdsOf(done[t]))
  {
    hide Keyed, ParentsIn, Level, Keys, DoneKeys;
    KeyedSome(x.dataset[t], done[t], pending[t]);
    UpsertAllIs(x.start[t], done[t]);
  }

  /** Two settled imports of the same rows leave the same rows in every table. */
  lemma SameContents(x: Input, db1: Store, pending1: Rows, imported1: map<Table, nat>, done1: Rows, depth1: nat,
                     y: Input, db2: Store, pending2: Rows, imported2: map<Table, nat>, done2: Rows,
                     depth2: nat, t: Table)
    requires x.Valid() && y.Valid() && SameRows(x, y) && AllKeyed(x) && AllKeyed(y)
    requires Invariant(x, db1, pending1, imported1, done1, depth1) && Settled(x, Keys(db1), pending1)
    requires Invariant(y, db2, pending2, imported2, done2, depth2) && Settled(y, Keys(db2), pending2)
    requires t in db1 && t in x.dataset
    ensures t in db2 && forall r :: r in db1[t] <==> r in db2[t]
  {
    ImportIsConfluent(x, y, Keys(db1), Keys(db2), pending1, pending2);
    hide Keyed, ParentsIn, Level, Keys, DoneKeys, Settled, IdsOf, Holds;
    ImportedAsGiven(x, db1, pending1, imported1, done1, depth1, t);
    ImportedAsGiven(y, db2, pending2, imported2, done2, depth2, t);
    if t in x.present {
      SameTaken(x.dataset[t], done1[t], pending1[t], y.dataset[t], done2[t], pending2[t]);
    }
  }

  lemma SameTaken(all1: seq<Row>, done1: seq<Row>, rest1: seq<Row>, all2: seq<Row>, done2: seq<Row>, rest2: seq<Row>)
    requires multiset(done1) + multiset(rest1) == multiset(all1)
    requires multiset(done2) + multiset(rest2) == multiset(all2)
    requires multiset(all1) == multiset(all2) && multiset(rest1) == multiset(rest2)
    ensures (forall r :: r in done1 <==> r in done2) && IdsOf(done1) == IdsOf(done2)
  {
    assert multiset(done1) == multiset(all1) - multiset(rest1);
    assert multiset(done2) == multiset(all2) - multiset(rest2);
    assert forall r :: r in done1 <==> r in multiset(done1);
    assert forall r :: r in done2 <==> r in multiset(done2);
  }
}
