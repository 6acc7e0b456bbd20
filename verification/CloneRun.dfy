/** `clone_session`: the two phases against the store, and what they leave behind. */
module CloneRun {
  import opened Names
  import opened Relational
  import opened Collector
  import opened Remap
  import opened Cloner

  /** The clone's settings: replacements, target session and title suffix. */
  datatype Plan = Plan(rs: Items, target: Uuid, suffix: seq<Token>)

  ghost function First(p: Plan, t: Table, row: Row): Row {
    FirstRow(t, row, p.rs, p.target, p.suffix)
  }

  ghost function Cloned(p: Plan, t: Table, row: Row): Row {
    ClonedRow(t, row, p.rs, p.target, p.suffix)
  }

  ghost function FirstRows(p: Plan, t: Table, rows: seq<Row>): seq<Row> {
    seq(|rows|, k requires 0 <= k < |rows| => First(p, t, rows[k]))
  }

  ghost function ClonedRows(p: Plan, t: Table, rows: seq<Row>): seq<Row> {
    seq(|rows|, k requires 0 <= k < |rows| => Cloned(p, t, rows[k]))
  }

  // ------------------------------------------------------- phase one: inserts

  /** The database accepts the row: its key is new and its references resolve. */
  predicate CanInsert(schema: Schema, store: Store, t: Table, row: Row)
    requires t in schema && t in store
  {
    && (schema[t].idKey ==> Has(row, "id") && !HasId(store[t], At(row, "id")))
    && RowResolves(schema, store[t := store[t] + [row]], t, row)
  }

  method RewriteAll(p: Plan, t: Table, rows: seq<Row>) returns (out: seq<Row>)
    ensures out == FirstRows(p, t, rows)
  {
    out := [];
    for k := 0 to |rows|
      invariant |out| == k && forall i :: 0 <= i < k ==> out[i] == First(p, t, rows[i])
    {
      var row := RewriteRow(t, rows[k], p.rs, p.target, p.suffix, t in SELF_REFERENCE_FIELDS);
      out := out + [row];
    }
  }

  function Append(db: Store, t: Table, rows: seq<Row>): Store
    requires t in db
  {
    db[t := db[t] + rows]
  }

  lemma AppendMore(db: Store, t: Table, rows: seq<Row>, row: Row)
    requires t in db
    ensures Append(db, t, []) == db
    ensures Append(Append(db, t, rows), t, [row]) == Append(db, t, rows + [row])
  {
    assert db[t] + [] == db[t];
    assert (db[t] + rows) + [row] == db[t] + (rows + [row]);
  }

  /** Row after row, each insert into `t` is accepted. */
  ghost predicate RowsFit(schema: Schema, db: Store, t: Table, rows: seq<Row>)
    requires t in schema && t in db
  {
    forall k :: 0 <= k < |rows| ==> CanInsert(schema, Append(db, t, rows[..k]), t, rows[k])
  }

  method InsertRows(schema: Schema, db0: Store, t: Table, rows: seq<Row>) returns (ok: bool, db: Store)
    requires t in schema && t in db0
    ensures ok ==> db == Append(db0, t, rows)
    ensures ok <==> RowsFit(schema, db0, t, rows)
  {
    hide CanInsert;
    db := db0;
    AppendMore(db0, t, [], map[]);
    for k := 0 to |rows|
      invariant db == Append(db0, t, rows[..k])
      invariant forall i :: 0 <= i < k ==> CanInsert(schema, Append(db0, t, rows[..i]), t, rows[i])
    {
      if !CanInsert(schema, db, t, rows[k]) {
        return false, db;
      }
      AppendMore(db0, t, rows[..k], rows[k]);
      assert rows[..k + 1] == rows[..k] + [rows[k]];
      db := Append(db, t, [rows[k]]);
    }
    assert rows[..|rows|] == rows;
    ok := true;
  }

  /** The store when the tables of `done`, and no others, have been inserted. */
  ghost function Inserted(p: Plan, store: Store, rowsBy: RowsByTable, done: set<Table>): Store {
    map t | t in store :: if t in rowsBy && t in done then store[t] + FirstRows(p, t, rowsBy[t]) else store[t]
  }

  lemma InsertedStep(p: Plan, store: Store, rowsBy: RowsByTable, done: set<Table>, t: Table)
    requires t in store && t in rowsBy && t !in done
    ensures Append(Inserted(p, store, rowsBy, done), t, FirstRows(p, t, rowsBy[t]))
         == Inserted(p, store, rowsBy, done + {t})
  {
  }

  /** Table after table, each insert is accepted. */
  ghost predicate AllFit(schema: Schema, p: Plan, store: Store, rowsBy: RowsByTable, ordered: seq<Table>)
    requires Elems(ordered) <= rowsBy.Keys <= schema.Keys <= store.Keys
  {
    ordered == [] ||
    var init, t := ordered[..|ordered| - 1], ordered[|ordered| - 1];
    assert t in Elems(ordered) && Elems(init) <= Elems(ordered);
    && AllFit(schema, p, store, rowsBy, init)
    && RowsFit(schema, Inserted(p, store, rowsBy, Elems(init)), t, FirstRows(p, t, rowsBy[t]))
  }

  lemma {:induction false} PrefixFits(schema: Schema, p: Plan, store: Store, rowsBy: RowsByTable, ordered: seq<Table>,
                                      i: nat)
    requires Elems(ordered) <= rowsBy.Keys <= schema.Keys <= store.Keys && i <= |ordered|
    requires AllFit(schema, p, store, rowsBy, ordered)
    ensures Elems(ordered[..i]) <= rowsBy.Keys && AllFit(schema, p, store, rowsBy, ordered[..i])
    decreases |ordered|
  {
    hide RowsFit;
    if i < |ordered| {
      var init := ordered[..|ordered| - 1];
      assert init[..i] == ordered[..i];
      PrefixFits(schema, p, store, rowsBy, init, i);
    } else {
      assert ordered[..i] == ordered;
    }
  }

  method InsertAll(schema: Schema, p: Plan, store: Store, rowsBy: RowsByTable, ordered: seq<Table>)
    returns (ok: bool, db: Store)
    requires rowsBy.Keys <= schema.Keys <= store.Keys && Distinct(ordered) && Elems(ordered) == rowsBy.Keys
    ensures ok ==> db == Inserted(p, store, rowsBy, rowsBy.Keys)
    ensures ok <==> AllFit(schema, p, store, rowsBy, ordered)
  {
    hide RowsFit, FirstRows;
    db := store;
    assert db == Inserted(p, store, rowsBy, {});
    assert Elems(ordered[..0]) == {};
    for i := 0 to |ordered|
      invariant Elems(ordered[..i]) <= rowsBy.Keys && AllFit(schema, p, store, rowsBy, ordered[..i])
      invariant db == Inserted(p, store, rowsBy, Elems(ordered[..i]))
    {
      var t := ordered[i];
      ghost var next := ordered[..i + 1];
      NextTable(ordered, i);
      var rows := RewriteAll(p, t, rowsBy[t]);
      var fits;
      fits, db := InsertRows(schema, db, t, rows);
      assert AllFit(schema, p, store, rowsBy, next) <==> fits;
      if !fits {
        if AllFit(schema, p, store, rowsBy, ordered) { PrefixFits(schema, p, store, rowsBy, ordered, i + 1); }
        return false, db;
      }
      InsertedStep(p, store, rowsBy, Elems(ordered[..i]), t);
    }
    assert ordered[..|ordered|] == ordered;
    ok := true;
  }

  lemma NextTable(ordered: seq<Table>, i: nat)
    requires Distinct(ordered) && i < |ordered|
    ensures ordered[i] in Elems(ordered) && ordered[i] !in Elems(ordered[..i])
    ensures Elems(ordered[..i + 1]) == Elems(ordered[..i]) + {ordered[i]} && Elems(ordered[..i + 1]) <= Elems(ordered)
    ensures ordered[..i + 1][..i] == ordered[..i] && ordered[..i + 1][i] == ordered[i] && |ordered[..i + 1]| == i + 1
  {
    forall k | 0 <= k < i ensures ordered[..i][k] != ordered[i] { assert ordered[k] != ordered[i]; }
    assert ordered[..i + 1] == ordered[..i] + [ordered[i]];
    assert forall x :: x in ordered[..i + 1] ==> x in ordered;
  }

  // ------------------------------------------------------- phase two: self-references

  /** `update ... where id = u` */
  function UpdateWhere(rows: seq<Row>, u: Uuid, values: Row): seq<Row> {
    seq(|rows|, k requires 0 <= k < |rows| =>
      if Has(rows[k], "id") && At(rows[k], "id") == u then rows[k] + values else rows[k])
  }

  ghost function PatchAll(table: seq<Row>, t: Table, rows: seq<Row>, rs: Items): seq<Row>
    requires forall r :: r in rows ==> Has(r, "id")
  {
    if rows == [] then table else
      var last := rows[|rows| - 1];
      UpdateWhere(PatchAll(table, t, rows[..|rows| - 1], rs), Mapped(rs, At(last, "id")), Patch(t, last, rs))
  }

  method UpdateSelfReferences(table0: seq<Row>, t: Table, rows: seq<Row>, rs: Items) returns (table: seq<Row>)
    requires forall r :: r in rows ==> Has(r, "id")
    ensures table == PatchAll(table0, t, rows, rs)
  {
    hide Mapped, IsKey;
    table := table0;
    for k := 0 to |rows|
      invariant table == PatchAll(table0, t, rows[..k], rs)
    {
      var row := rows[k];
      assert rows[..k + 1][..k] == rows[..k];
      var values: Row := map[];
      var todo := SelfFields(t);
      while todo != {}
        invariant todo <= SelfFields(t)
        invariant values == map f | f in SelfFields(t) - todo && Has(row, f) && IsKey(rs, At(row, f))
                              :: Ref(Mapped(rs, At(row, f)))
        decreases todo
      {
        var field :| field in todo;
        if Has(row, field) && IsKey(rs, At(row, field)) {
          values := values[field := Ref(Mapped(rs, At(row, field)))];
        }
        todo := todo - {field};
      }
      assert SelfFields(t) - todo == SelfFields(t);
      assert values == Patch(t, row, rs);
      if values == map[] {
        assert UpdateWhere(table, Mapped(rs, At(row, "id")), values) == table by {
          NoUpdate(table, Mapped(rs, At(row, "id")));
        }
      } else {
        table := UpdateWhere(table, Mapped(rs, At(row, "id")), values);
      }
    }
    assert rows[..|rows|] == rows;
  }

  lemma NoUpdate(rows: seq<Row>, u: Uuid)
    ensures UpdateWhere(rows, u, map[]) == rows
  {
    forall k | 0 <= k < |rows| ensures UpdateWhere(rows, u, map[])[k] == rows[k] {
      var empty: Row := map[];
      assert rows[k] + empty == rows[k];
    }
  }

  lemma CloneIds(p: Plan, t: Table, row: Row)
    requires t != "sessions" && Has(row, "id")
    ensures Has(First(p, t, row), "id") && At(First(p, t, row), "id") == Mapped(p.rs, At(row, "id"))
    ensures Has(Cloned(p, t, row), "id") && At(Cloned(p, t, row), "id") == Mapped(p.rs, At(row, "id"))
  {
    hide RewrittenRow;
    RewrittenColumns(t, row, p.rs, p.target, p.suffix, t in SELF_REFERENCE_FIELDS, "id");
    ClonedColumns(t, row, p.rs, p.target, p.suffix, "id");
    IdIsNotSet(t);
  }

  lemma IdIsNotSet(t: Table)
    requires t != "sessions"
    ensures "id" !in SetColumns(t)
  {
    assert |"id"| == 2 && |"session_id"| == 10 && |"idempotency_key"| == 15;
    assert |"based_on_artifact_id"| == 20 && |"superseded_by_artifact_id"| == 25;
  }

  ghost predicate FreshId(store: Store, u: Uuid) {
    forall t :: t in store ==> u !in IdsOf(store[t])
  }

  /**
   What the dictionary of replacements has to be for references to be mapped one to one.  The target
   may be the id of a row of another table, collected or not, but not of a session.
   */
  ghost predicate Faithful(schema: Schema, store: Store, rowsBy: RowsByTable, rs: Items, source: Uuid, target: Uuid) {
    && DistinctKeys(rs) && Mapped(rs, source) == target
    && (forall u :: IsKey(rs, u) <==> u == source || CollectedId(schema, rowsBy, u))
    && (forall u, v :: IsKey(rs, u) && IsKey(rs, v) && Mapped(rs, u) == Mapped(rs, v) ==> u == v)
    && (forall u :: IsKey(rs, u) && u != source ==> FreshId(store, Mapped(rs, u)))
    && SourceIsOwn(schema, rowsBy, source) && "sessions" in store && target !in IdsOf(store["sessions"])
  }

  /** A row of the patched table is told apart by its id. */
  ghost predicate Separate(p: Plan, old_: seq<Row>, rows: seq<Row>) {
    && (forall k :: 0 <= k < |rows| ==> Has(rows[k], "id"))
    && (forall i, k :: 0 <= i < |rows| && 0 <= k < |rows| && i != k ==>
          Mapped(p.rs, At(rows[i], "id")) != Mapped(p.rs, At(rows[k], "id")))
    && (forall k :: 0 <= k < |rows| ==> Mapped(p.rs, At(rows[k], "id")) !in IdsOf(old_))
  }

  /** Updating by id changes the one row that carries it. */
  lemma UpdateOne(p: Plan, t: Table, old_: seq<Row>, rows: seq<Row>, k: nat)
    requires Separate(p, old_, rows) && t != "sessions" && k < |rows|
    ensures UpdateWhere(old_ + ClonedRows(p, t, rows[..k]) + FirstRows(p, t, rows[k..]),
                        Mapped(p.rs, At(rows[k], "id")), Patch(t, rows[k], p.rs))
            == old_ + ClonedRows(p, t, rows[..k + 1]) + FirstRows(p, t, rows[k + 1..])
  {
    hide FirstRow, ClonedRow, Mapped;
    var u := Mapped(p.rs, At(rows[k], "id"));
    var before := old_ + ClonedRows(p, t, rows[..k]) + FirstRows(p, t, rows[k..]);
    var after := old_ + ClonedRows(p, t, rows[..k + 1]) + FirstRows(p, t, rows[k + 1..]);
    var n := |old_|;
    forall j | 0 <= j < |before| ensures UpdateWhere(before, u, Patch(t, rows[k], p.rs))[j] == after[j] {
      if j < n {
        assert before[j] == old_[j];
        assert Has(old_[j], "id") ==> At(old_[j], "id") in IdsOf(old_);
      } else {
        var i := j - n;
        CloneIds(p, t, rows[i]);
        if i < k {
          assert before[j] == Cloned(p, t, rows[i]) == after[j];
        } else {
          assert before[j] == First(p, t, rows[i]);
          if i == k { ClonedIsPatched(p, t, rows[k]); }
        }
      }
    }
  }

  lemma ClonedIsPatched(p: Plan, t: Table, row: Row)
    ensures Cloned(p, t, row) == First(p, t, row) + Patch(t, row, p.rs)
  {
  }

  /** Phase two turns the rows as inserted into the rows of the clone. */
  lemma {:induction false} PatchedIsCloned(p: Plan, t: Table, old_: seq<Row>, rows: seq<Row>, k: nat)
    requires Separate(p, old_, rows) && t != "sessions" && k <= |rows|
    ensures PatchAll(old_ + FirstRows(p, t, rows), t, rows[..k], p.rs)
            == old_ + ClonedRows(p, t, rows[..k]) + FirstRows(p, t, rows[k..])
  {
    hide FirstRow, ClonedRow, Mapped, Patch;
    if k == 0 {
      assert rows[..0] == [] && rows[0..] == rows;
      assert ClonedRows(p, t, rows[..0]) == [];
    } else {
      PatchedIsCloned(p, t, old_, rows, k - 1);
      UpdateOne(p, t, old_, rows, k - 1);
      assert rows[..k][..k - 1] == rows[..k - 1];
    }
  }

  /** The store with the finished clone beside everything it held before. */
  ghost function WithClone(p: Plan, store: Store, rowsBy: RowsByTable): Store {
    map t | t in store :: if t in rowsBy then store[t] + ClonedRows(p, t, rowsBy[t]) else store[t]
  }

  lemma NothingToPatch(p: Plan, t: Table, rows: seq<Row>)
    requires SelfFields(t) == {}
    ensures FirstRows(p, t, rows) == ClonedRows(p, t, rows)
  {
    hide FirstRow;
    forall k | 0 <= k < |rows| ensures First(p, t, rows[k]) == Cloned(p, t, rows[k]) {
      assert Patch(t, rows[k], p.rs) == map[];
    }
  }

  lemma AllPatched(p: Plan, t: Table, old_: seq<Row>, rows: seq<Row>)
    requires Separate(p, old_, rows) && t != "sessions"
    ensures PatchAll(old_ + FirstRows(p, t, rows), t, rows, p.rs) == old_ + ClonedRows(p, t, rows)
  {
    hide FirstRow, ClonedRow, Mapped, Patch;
    PatchedIsCloned(p, t, old_, rows, |rows|);
    assert rows[..|rows|] == rows && rows[|rows|..] == [];
    assert FirstRows(p, t, []) == [];
  }

  /** The store in phase two, when the tables of `done` have been patched. */
  ghost function Patched(p: Plan, store: Store, rowsBy: RowsByTable, done: set<Table>): Store {
    map t | t in store ::
      if t !in rowsBy then store[t]
      else if t in done then store[t] + ClonedRows(p, t, rowsBy[t])
      else store[t] + FirstRows(p, t, rowsBy[t])
  }

  lemma PatchedStep(p: Plan, store: Store, rowsBy: RowsByTable, done: set<Table>, t: Table)
    requires t in store && t in rowsBy
    ensures Patched(p, store, rowsBy, done)[t := store[t] + ClonedRows(p, t, rowsBy[t])]
         == Patched(p, store, rowsBy, done + {t})
  {
  }

  lemma PatchedBounds(p: Plan, store: Store, rowsBy: RowsByTable)
    requires rowsBy.Keys <= store.Keys
    ensures Inserted(p, store, rowsBy, rowsBy.Keys) == Patched(p, store, rowsBy, {})
    ensures Patched(p, store, rowsBy, rowsBy.Keys) == WithClone(p, store, rowsBy)
  {
    hide FirstRows, ClonedRows;
  }

  lemma NotYetPatched(p: Plan, store: Store, rowsBy: RowsByTable, done: set<Table>, t: Table)
    requires t in store && t in rowsBy && t !in done
    ensures t in Patched(p, store, rowsBy, done)
    ensures Patched(p, store, rowsBy, done)[t] == store[t] + FirstRows(p, t, rowsBy[t])
  {
    hide FirstRows, ClonedRows;
  }

  method PatchStore(p: Plan, ghost store: Store, rowsBy: RowsByTable, ordered: seq<Table>,
                    db0: Store) returns (db: Store)
    requires rowsBy.Keys <= store.Keys && db0 == Inserted(p, store, rowsBy, rowsBy.Keys)
    requires Distinct(ordered) && Elems(ordered) == rowsBy.Keys
    requires forall t :: t in rowsBy && SelfFields(t) != {} ==> Separate(p, store[t], rowsBy[t])
    ensures db == WithClone(p, store, rowsBy)
  {
    hide FirstRows, ClonedRows, Separate, SelfFields, Patched, Inserted, WithClone;
    db := db0;
    PatchedBounds(p, store, rowsBy);
    assert Elems(ordered[..0]) == {};
    for i := 0 to |ordered|
      invariant db == Patched(p, store, rowsBy, Elems(ordered[..i]))
    {
      var t := ordered[i];
      NextTable(ordered, i);
      NotYetPatched(p, store, rowsBy, Elems(ordered[..i]), t);
      if SelfFields(t) != {} {
        SessionsHaveNoSelfFields();
        HaveIds(p, store[t], rowsBy[t]);
        var table := UpdateSelfReferences(db[t], t, rowsBy[t], p.rs);
        AllPatched(p, t, store[t], rowsBy[t]);
        db := db[t := table];
      } else {
        NothingToPatch(p, t, rowsBy[t]);
        assert db == db[t := store[t] + ClonedRows(p, t, rowsBy[t])];
      }
      PatchedStep(p, store, rowsBy, Elems(ordered[..i]), t);
    }
    assert ordered[..|ordered|] == ordered;
  }

  lemma HaveIds(p: Plan, old_: seq<Row>, rows: seq<Row>)
    requires Separate(p, old_, rows)
    ensures forall r :: r in rows ==> Has(r, "id")
  {
  }
}
