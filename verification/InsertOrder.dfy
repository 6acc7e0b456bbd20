/** When the inserts of a clone go through, table by table. */
module InsertOrder {
  import opened Names
  import opened Kahn
  import opened Relational
  import opened Collector
  import opened Remap
  import opened TableOrder
  import opened Cloner
  import opened CloneRun
  import opened CloneTheorems

  /** The first insert writes the column as it was, remapped. */
  predicate Written(t: Table, c: Column) {
    && c != "session_id" && c !in SelfFields(t)
    && (t == "sessions" ==> c !in {"id", "title", "suggested_title", "title_source", "row_version", "archived_at",
                                   "archived_by_user_id", "deleted_at", "deleted_by_user_id"})
  }

  /** Row `k` of table `t` references, through a column that is written, the collected row `l` of table `q`. */
  predicate RefersToCollected(schema: Schema, rowsBy: RowsByTable, t: Table, k: nat, fk: ForeignKey, l: nat)
    requires t in schema && t in rowsBy && k < |rowsBy[t]|
  {
    && fk in schema[t].fks && Written(t, fk.column) && Has(rowsBy[t][k], fk.column)
    && fk.parent in rowsBy && fk.parent in schema && schema[fk.parent].idKey && l < |rowsBy[fk.parent]|
    && Has(rowsBy[fk.parent][l], "id") && At(rowsBy[fk.parent][l], "id") == At(rowsBy[t][k], fk.column)
  }

  /** Row `k` of `t` finds the rows it references inserted, after the tables of `done` and the rows before it. */
  ghost predicate ParentsInserted(schema: Schema, rowsBy: RowsByTable, done: set<Table>, t: Table, k: nat)
    requires t in schema && t in rowsBy && k < |rowsBy[t]|
  {
    forall fk, l: nat :: RefersToCollected(schema, rowsBy, t, k, fk, l) ==>
      fk.parent in done || (fk.parent == t && l <= k)
  }

  /** In the order, each collected row comes behind the collected rows it references. */
  ghost predicate ParentsGoFirst(schema: Schema, rowsBy: RowsByTable, ordered: seq<Table>)
    requires rowsBy.Keys <= schema.Keys
  {
    forall i, k: nat :: 0 <= i < |ordered| && ordered[i] in rowsBy && k < |rowsBy[ordered[i]]| ==>
      ParentsInserted(schema, rowsBy, Elems(ordered[..i]), ordered[i], k)
  }

  lemma WrittenColumn(t: Table, row: Row, rs: Items, target: Uuid, suffix: seq<Token>, c: Column)
    requires Written(t, c) && Has(row, c)
    ensures var r := FirstRow(t, row, rs, target, suffix); Has(r, c) && At(r, c) == Mapped(rs, At(row, c))
  {
    hide CloneTitle, Chars, NextVersion, IsKey, Mapped, WithId;
    IdIsRemappedAnyway(row, rs);
    assert RemappedRow(row, rs)[c] == Ref(Mapped(rs, At(row, c)));
  }

  /** What is set anew in the session's own row is no reference, its id apart. */
  lemma OverriddenIsNoReference(row: Row, rs: Items, target: Uuid, suffix: seq<Token>, c: Column)
    requires !Written("sessions", c) && c != "id" && c != "session_id" && c !in SelfFields("sessions")
    ensures !Has(FirstRow("sessions", row, rs, target, suffix), c)
  {
    hide CloneTitle, Chars, NextVersion, IsKey, Mapped, WithId, WithSession, WithIdempotencyKey, RemappedRow,
         SelfFields;
  }

  lemma InsertIsNew(schema: Schema, store: Store, rowsBy: RowsByTable, p: Plan, source: Uuid, t: Table, k: nat)
    requires Collected(schema, store, source, rowsBy) && Faithful(schema, store, rowsBy, p.rs, source, p.target)
    requires t in rowsBy && schema[t].idKey && k < |rowsBy[t]|
    ensures Has(First(p, t, rowsBy[t][k]), "id")
    ensures !HasId(store[t] + FirstRows(p, t, rowsBy[t])[..k], At(First(p, t, rowsBy[t][k]), "id"))
  {
    hide FirstRow, Mapped;
    var rows, batch := rowsBy[t], FirstRows(p, t, rowsBy[t])[..k];
    assert Keyed(rows);
    CloneId(schema, store, rowsBy, p, source, t, rows[k]);
    var u := Mapped(p.rs, At(rows[k], "id"));
    assert At(rows[k], "id") in IdsOf(rows);
    assert t != "sessions" ==> FreshId(store, u);
    HasIdIn(store[t], batch, u);
    forall r: Row | r in batch ensures !(Has(r, "id") && At(r, "id") == u) {
      var i :| 0 <= i < k && batch[i] == r;
      assert At(rows[i], "id") in IdsOf(rows) && At(rows[i], "id") != At(rows[k], "id");
      CloneId(schema, store, rowsBy, p, source, t, rows[i]);
    }
  }

  lemma AppendedHas(p: Plan, store: Store, rowsBy: RowsByTable, done: set<Table>, t: Table, batch: seq<Row>, q: Table,
                    u: Uuid)
    requires t in store && q in store
    ensures var db := Append(Inserted(p, store, rowsBy, done), t, batch);
            q in db && (HasId(db[q], u) <==>
              || HasId(store[q], u)
              || (q in done && q in rowsBy && HasId(FirstRows(p, q, rowsBy[q]), u))
              || (q == t && HasId(batch, u)))
  {
    hide FirstRows, HasId;
    var base := Inserted(p, store, rowsBy, done);
    if q in rowsBy && q in done { HasIdIn(store[q], FirstRows(p, q, rowsBy[q]), u); }
    HasIdIn(base[q], batch, u);
  }

  /** The table of a replaced id is collected and keyed by `id`, and the replacement is new there. */
  lemma ReplacedInTable(schema: Schema, store: Store, rowsBy: RowsByTable, p: Plan, source: Uuid, q: Table, u: Uuid)
    requires Collected(schema, store, source, rowsBy) && Faithful(schema, store, rowsBy, p.rs, source, p.target)
    requires UniqueIds(store) && SchemaOk(schema) && q in store && HasId(store[q], u) && IsKey(p.rs, u)
    ensures q in rowsBy && u in IdsOf(rowsBy[q]) && schema[q].idKey && Keyed(rowsBy[q])
    ensures !HasId(store[q], Mapped(p.rs, u))
  {
    hide Mapped, IsKey, Keyed;
    HasIdIn(store[q], [], u);
    HasIdIn(store[q], [], Mapped(p.rs, u));
    KeyOf(schema, store, rowsBy, p.rs, source, p.target, q, u);
    if u == source {
      assert source in IdsOf(rowsBy["sessions"]);
      IdsOfCollected(schema, store, source, rowsBy, "sessions");
    } else {
      var x :| x in rowsBy && x in schema && schema[x].idKey && u in IdsOf(rowsBy[x]);
      IdsOfCollected(schema, store, source, rowsBy, x);
    }
  }

  /** Among the first `m` rows inserted into `q` is the replacement of `u` when `u` is among those copied. */
  lemma BatchHas(schema: Schema, store: Store, rowsBy: RowsByTable, p: Plan, source: Uuid, q: Table, u: Uuid, m: nat)
    requires Collected(schema, store, source, rowsBy) && Faithful(schema, store, rowsBy, p.rs, source, p.target)
    requires q in rowsBy && u in IdsOf(rowsBy[q]) && schema[q].idKey && Keyed(rowsBy[q]) && IsKey(p.rs, u)
    requires m <= |rowsBy[q]|
    ensures HasId(FirstRows(p, q, rowsBy[q])[..m], Mapped(p.rs, u)) <==>
            exists l: nat :: l < m && At(rowsBy[q][l], "id") == u
  {
    hide FirstRow, Mapped, IsKey, IdsOf, Faithful, Collected;
    var rows, batch := rowsBy[q], FirstRows(p, q, rowsBy[q])[..m];
    forall l | 0 <= l < m
      ensures Has(batch[l], "id") && (At(batch[l], "id") == Mapped(p.rs, u) <==> At(rows[l], "id") == u)
    {
      CloneId(schema, store, rowsBy, p, source, q, rows[l]);
      IdOf(rows, l);
      ReplacedApart(schema, store, rowsBy, p, source, q, At(rows[l], "id"), u);
    }
    if l: nat :| l < m && At(rows[l], "id") == u { assert batch[l] in batch; }
    if HasId(batch, Mapped(p.rs, u)) {
      var r: Row :| r in batch && Has(r, "id") && At(r, "id") == Mapped(p.rs, u);
      var l :| 0 <= l < m && batch[l] == r;
    }
  }

  lemma IdOf(rows: seq<Row>, l: nat)
    requires l < |rows| && Has(rows[l], "id")
    ensures At(rows[l], "id") in IdsOf(rows)
  {
  }

  lemma ReplacedApart(schema: Schema, store: Store, rowsBy: RowsByTable, p: Plan, source: Uuid, q: Table,
                      u: Uuid, v: Uuid)
    requires Collected(schema, store, source, rowsBy) && Faithful(schema, store, rowsBy, p.rs, source, p.target)
    requires q in rowsBy && schema[q].idKey && u in IdsOf(rowsBy[q]) && v in IdsOf(rowsBy[q])
    ensures Mapped(p.rs, u) == Mapped(p.rs, v) <==> u == v
  {
    hide Mapped, IsKey, IdsOf;
  }

  /** What replaces `u` is there when `u` is not replaced, or its table has been inserted, or its row has. */
  lemma ReferredIsInserted(schema: Schema, store: Store, rowsBy: RowsByTable, p: Plan, source: Uuid, done: set<Table>,
                           t: Table, m: nat, q: Table, u: Uuid)
    requires Collected(schema, store, source, rowsBy) && Faithful(schema, store, rowsBy, p.rs, source, p.target)
    requires UniqueIds(store) && SchemaOk(schema) && q in store && HasId(store[q], u)
    requires t in rowsBy && t !in done && m <= |rowsBy[t]|
    ensures var db := Append(Inserted(p, store, rowsBy, done), t, FirstRows(p, t, rowsBy[t])[..m]);
            q in db && (HasId(db[q], Mapped(p.rs, u)) <==>
              || !IsKey(p.rs, u) || q in done
              || (q == t && exists l: nat :: l < m && Has(rowsBy[t][l], "id") && At(rowsBy[t][l], "id") == u))
  {
    assert |FirstRows(p, t, rowsBy[t])| == |rowsBy[t]|;
    hide FirstRows, Mapped, IsKey, Inserted, Append, Keyed;
    AppendedHas(p, store, rowsBy, done, t, FirstRows(p, t, rowsBy[t])[..m], q, Mapped(p.rs, u));
    if IsKey(p.rs, u) {
      ReplacedInTable(schema, store, rowsBy, p, source, q, u);
      CloneStands(schema, store, rowsBy, p, source, q, u);
      if q == t {
        BatchHas(schema, store, rowsBy, p, source, q, u, m);
        assert forall l: nat :: l < m ==> Has(rowsBy[t][l], "id") by { HaveIdsIn(rowsBy[t]); }
      }
    } else {
      MappedOther(p.rs, u);
    }
  }

  lemma HaveIdsIn(rows: seq<Row>)
    requires Keyed(rows)
    ensures forall l: nat :: l < |rows| ==> Has(rows[l], "id")
  {
  }

  /** The session's own clone stands once `sessions` is inserted or being inserted. */
  lemma SessionIsInserted(schema: Schema, store: Store, rowsBy: RowsByTable, p: Plan, source: Uuid, done: set<Table>,
                          t: Table, m: nat)
    requires Collected(schema, store, source, rowsBy) && Faithful(schema, store, rowsBy, p.rs, source, p.target)
    requires UniqueIds(store) && SchemaOk(schema) && t in rowsBy && t !in done && 0 < m <= |rowsBy[t]|
    requires t == "sessions" || "sessions" in done
    ensures var db := Append(Inserted(p, store, rowsBy, done), t, FirstRows(p, t, rowsBy[t])[..m]);
            "sessions" in db && HasId(db["sessions"], p.target)
  {
    hide FirstRows, Mapped, Inserted, Append, CollectedId;
    assert source in IdsOf(rowsBy["sessions"]);
    IdsOfCollected(schema, store, source, rowsBy, "sessions");
    HasIdIn(store["sessions"], [], source);
    ReferredIsInserted(schema, store, rowsBy, p, source, done, t, m, "sessions", source);
    if t == "sessions" { SessionsOwnId(schema, store, rowsBy, source, rowsBy[t][0]); }
  }

  /** At the insert of row `k`, its reference through `fk` is to a row that is there. */
  lemma ReferenceResolvesIff(schema: Schema, store: Store, rowsBy: RowsByTable, p: Plan, source: Uuid,
                             done: set<Table>, t: Table, k: nat, fk: ForeignKey)
    requires Collected(schema, store, source, rowsBy) && Faithful(schema, store, rowsBy, p.rs, source, p.target)
    requires UniqueIds(store) && SchemaOk(schema) && NoDangling(schema, store)
    requires t in rowsBy && t !in done && k < |rowsBy[t]| && fk in schema[t].fks
    requires t == "sessions" || "sessions" in done
    ensures var db := Append(Inserted(p, store, rowsBy, done), t, FirstRows(p, t, rowsBy[t])[..k + 1]);
            Resolves(db, First(p, t, rowsBy[t][k]), fk) <==>
            forall l: nat :: RefersToCollected(schema, rowsBy, t, k, fk, l) ==>
              fk.parent in done || (fk.parent == t && l <= k)
  {
    hide FirstRow, FirstRows, Mapped, IsKey, Inserted, Append, Keyed, Written, CollectedId;
    var row, r, q, c := rowsBy[t][k], First(p, t, rowsBy[t][k]), fk.parent, fk.column;
    assert RowResolves(schema, store, t, row) && Resolves(store, row, fk);
    if Written(t, c) {
      if Has(row, c) {
        WrittenColumn(t, row, p.rs, p.target, p.suffix, c);
        ReferredIsInserted(schema, store, rowsBy, p, source, done, t, k + 1, q, At(row, c));
        WaitsForCollected(schema, store, rowsBy, p, source, t, k, fk);
      } else {
        NoReference(t, row, p, c);
      }
    } else {
      SetReference(schema, store, rowsBy, p, source, t, k, fk);
      if Has(r, c) { SessionIsInserted(schema, store, rowsBy, p, source, done, t, k + 1); }
    }
  }

  /** A written column holds no reference that it did not hold before. */
  lemma NoReference(t: Table, row: Row, p: Plan, c: Column)
    requires Written(t, c) && !Has(row, c)
    ensures !Has(First(p, t, row), c)
  {
    hide RewrittenRow, Mapped;
    RewrittenRefs(t, row, p.rs, p.target, p.suffix, t in SELF_REFERENCE_FIELDS, c);
  }

  /** A column that is set anew holds at most the id of the new session. */
  lemma SetReference(schema: Schema, store: Store, rowsBy: RowsByTable, p: Plan, source: Uuid, t: Table, k: nat,
                     fk: ForeignKey)
    requires Collected(schema, store, source, rowsBy) && UniqueIds(store) && SchemaOk(schema)
    requires NoDangling(schema, store)
    requires t in rowsBy && k < |rowsBy[t]| && fk in schema[t].fks && !Written(t, fk.column)
    ensures Has(First(p, t, rowsBy[t][k]), fk.column) ==>
      fk.parent == "sessions" && At(First(p, t, rowsBy[t][k]), fk.column) == p.target
  {
    hide RewrittenRow, Mapped, IsKey, Keyed;
    var row, c := rowsBy[t][k], fk.column;
    RewrittenRefs(t, row, p.rs, p.target, p.suffix, t in SELF_REFERENCE_FIELDS, c);
    SelfFieldsAreOther(t);
    SessionsHaveNoSelfFields();
    if t == "sessions" && c == "id" {
      assert RowResolves(schema, store, t, row) && Resolves(store, row, fk);
      SessionsOwnId(schema, store, rowsBy, source, row);
      HasIdIn(store[fk.parent], [], source);
      SessionId(row, p.rs, p.target, p.suffix, t in SELF_REFERENCE_FIELDS);
    } else if t == "sessions" && c != "session_id" && c !in SelfFields(t) {
      OverriddenIsNoReference(row, p.rs, p.target, p.suffix, c);
    }
  }

  /** A reference to a replaced id is one to the collected row that has it. */
  lemma WaitsForCollected(schema: Schema, store: Store, rowsBy: RowsByTable, p: Plan, source: Uuid, t: Table, k: nat,
                          fk: ForeignKey)
    requires Collected(schema, store, source, rowsBy) && Faithful(schema, store, rowsBy, p.rs, source, p.target)
    requires UniqueIds(store) && SchemaOk(schema) && t in rowsBy && k < |rowsBy[t]| && fk in schema[t].fks
    requires Written(t, fk.column) && Has(rowsBy[t][k], fk.column)
    requires fk.parent in store && HasId(store[fk.parent], At(rowsBy[t][k], fk.column))
    ensures IsKey(p.rs, At(rowsBy[t][k], fk.column)) <==>
            exists l: nat :: RefersToCollected(schema, rowsBy, t, k, fk, l)
    ensures forall l: nat, j: nat :: RefersToCollected(schema, rowsBy, t, k, fk, l) && j < |rowsBy[fk.parent]| ==>
      (Has(rowsBy[fk.parent][j], "id") && At(rowsBy[fk.parent][j], "id") == At(rowsBy[t][k], fk.column) ==> j == l)
  {
    hide Mapped, Written;
    var q, u := fk.parent, At(rowsBy[t][k], fk.column);
    if IsKey(p.rs, u) {
      ReplacedInTable(schema, store, rowsBy, p, source, q, u);
      var x: Row :| x in rowsBy[q] && Has(x, "id") && At(x, "id") == u;
      var l: nat :| l < |rowsBy[q]| && rowsBy[q][l] == x;
      assert RefersToCollected(schema, rowsBy, t, k, fk, l);
    }
    if l: nat :| RefersToCollected(schema, rowsBy, t, k, fk, l) {
      assert rowsBy[q][l] in rowsBy[q] && u in IdsOf(rowsBy[q]);
      assert CollectedId(schema, rowsBy, u);
      assert Keyed(rowsBy[q]);
    }
  }

  /** The inserts of a table go through exactly when each row finds the rows it references inserted. */
  lemma RowsFitIff(schema: Schema, store: Store, rowsBy: RowsByTable, p: Plan, source: Uuid, done: set<Table>, t: Table)
    requires Collected(schema, store, source, rowsBy) && Faithful(schema, store, rowsBy, p.rs, source, p.target)
    requires UniqueIds(store) && SchemaOk(schema) && NoDangling(schema, store)
    requires t in rowsBy && t !in done && (t == "sessions" || "sessions" in done)
    ensures RowsFit(schema, Inserted(p, store, rowsBy, done), t, FirstRows(p, t, rowsBy[t])) <==>
            forall k: nat :: k < |rowsBy[t]| ==> ParentsInserted(schema, rowsBy, done, t, k)
  {
    hide FirstRow, Mapped, UniqueIds, SchemaOk, NoDangling, Faithful, Resolves, HasId, RefersToCollected, Inserted;
    var rows, db := FirstRows(p, t, rowsBy[t]), Inserted(p, store, rowsBy, done);
    assert t in db by { InsertedTables(p, store, rowsBy, done); }
    forall k: nat | k < |rows|
      ensures CanInsert(schema, Append(db, t, rows[..k]), t, rows[k]) <==> ParentsInserted(schema, rowsBy, done, t, k)
    {
      RowFitsIff(schema, store, rowsBy, p, source, done, t, k);
    }
  }

  lemma InsertedTables(p: Plan, store: Store, rowsBy: RowsByTable, done: set<Table>)
    ensures Inserted(p, store, rowsBy, done).Keys == store.Keys
    ensures forall t :: t in store && t !in done ==> Inserted(p, store, rowsBy, done)[t] == store[t]
  {
  }

  lemma RowFitsIff(schema: Schema, store: Store, rowsBy: RowsByTable, p: Plan, source: Uuid, done: set<Table>, t: Table,
                   k: nat)
    requires Collected(schema, store, source, rowsBy) && Faithful(schema, store, rowsBy, p.rs, source, p.target)
    requires UniqueIds(store) && SchemaOk(schema) && NoDangling(schema, store)
    requires t in rowsBy && t !in done && (t == "sessions" || "sessions" in done) && k < |rowsBy[t]|
    ensures t in Inserted(p, store, rowsBy, done)
    ensures var rows, db := FirstRows(p, t, rowsBy[t]), Inserted(p, store, rowsBy, done);
            CanInsert(schema, Append(db, t, rows[..k]), t, rows[k]) <==> ParentsInserted(schema, rowsBy, done, t, k)
  {
    hide FirstRow, Mapped, UniqueIds, SchemaOk, NoDangling, Faithful, Resolves, HasId, RefersToCollected, Inserted;
    var rows, db := FirstRows(p, t, rowsBy[t]), Inserted(p, store, rowsBy, done);
    InsertedTables(p, store, rowsBy, done);
    var grown := Append(db, t, rows[..k]);
    AppendMore(db, t, rows[..k], rows[k]);
    assert rows[..k] + [rows[k]] == rows[..k + 1];
    assert grown[t := grown[t] + [rows[k]]] == Append(db, t, rows[..k + 1]);
    if schema[t].idKey { InsertIsNew(schema, store, rowsBy, p, source, t, k); }
    forall fk | fk in schema[t].fks
      ensures Resolves(Append(db, t, rows[..k + 1]), rows[k], fk) <==>
              forall l: nat :: RefersToCollected(schema, rowsBy, t, k, fk, l) ==>
                fk.parent in done || (fk.parent == t && l <= k)
    {
      ReferenceResolvesIff(schema, store, rowsBy, p, source, done, t, k, fk);
    }
    assert forall fk, l: nat :: RefersToCollected(schema, rowsBy, t, k, fk, l) ==> fk in schema[t].fks by {
      ReferenceIsKey(schema, rowsBy, t, k);
    }
  }

  lemma ReferenceIsKey(schema: Schema, rowsBy: RowsByTable, t: Table, k: nat)
    requires t in schema && t in rowsBy && k < |rowsBy[t]|
    ensures forall fk, l: nat :: RefersToCollected(schema, rowsBy, t, k, fk, l) ==> fk in schema[t].fks
  {
  }

  /** All inserts go through exactly when the order puts the referenced rows first. */
  lemma {:induction false} AllFitIff(schema: Schema, store: Store, rowsBy: RowsByTable, p: Plan, source: Uuid,
                                     ordered: seq<Table>)
    requires Collected(schema, store, source, rowsBy) && Faithful(schema, store, rowsBy, p.rs, source, p.target)
    requires UniqueIds(store) && SchemaOk(schema) && NoDangling(schema, store)
    requires Distinct(ordered) && Elems(ordered) <= rowsBy.Keys && (ordered != [] ==> ordered[0] == "sessions")
    ensures AllFit(schema, p, store, rowsBy, ordered) <==> ParentsGoFirst(schema, rowsBy, ordered)
    decreases |ordered|
  {
    hide UniqueIds, SchemaOk, NoDangling, Faithful, RowsFit, ParentsInserted;
    if ordered != [] {
      var n := |ordered| - 1;
      var init, t := ordered[..n], ordered[n];
      NextTable(ordered, n);
      assert ordered[..n + 1] == ordered;
      assert n > 0 ==> init[0] == "sessions" && init[0] in Elems(init);
      AllFitIff(schema, store, rowsBy, p, source, init);
      RowsFitIff(schema, store, rowsBy, p, source, Elems(init), t);
      assert forall i :: 0 <= i < n ==> init[..i] == ordered[..i] && init[i] == ordered[i];
    }
  }

  /** A row that references a later one of its own table, through a field that is not deferred, fits in no order. */
  lemma LateParent(schema: Schema, rowsBy: RowsByTable, ordered: seq<Table>, t: Table, k: nat, fk: ForeignKey, l: nat)
    requires rowsBy.Keys <= schema.Keys && Distinct(ordered) && Elems(ordered) == rowsBy.Keys
    requires t in rowsBy && k < l < |rowsBy[t]| && fk.parent == t && RefersToCollected(schema, rowsBy, t, k, fk, l)
    ensures !ParentsGoFirst(schema, rowsBy, ordered)
  {
    hide RefersToCollected;
    assert t in Elems(ordered);
    var i: nat :| i < |ordered| && ordered[i] == t;
    assert t !in ordered[..i] by {
      forall j | 0 <= j < i ensures ordered[..i][j] != t { assert ordered[j] != ordered[i]; }
    }
    assert !ParentsInserted(schema, rowsBy, Elems(ordered[..i]), ordered[i], k);
  }

  // ------------------------------------------------------- tables in order

  /** Every foreign key of a table to itself is among its deferred fields. */
  ghost predicate SelfKeysDeferred(schema: Schema) {
    forall t, fk :: t in schema && fk in schema[t].fks && fk.parent == t ==> fk.column in SelfFields(t)
  }

  /** With parents first, and self-references deferred, the referenced rows come first. */
  lemma OrderedParentsGoFirst(schema: Schema, rowsBy: RowsByTable, ordered: seq<Table>)
    requires rowsBy.Keys <= schema.Keys && DepsFirst(FkGraph(schema, rowsBy.Keys), ordered) && SelfKeysDeferred(schema)
    ensures ParentsGoFirst(schema, rowsBy, ordered)
  {
    forall i, k: nat | 0 <= i < |ordered| && ordered[i] in rowsBy && k < |rowsBy[ordered[i]]|
      ensures ParentsInserted(schema, rowsBy, Elems(ordered[..i]), ordered[i], k)
    {
      forall fk, l: nat | RefersToCollected(schema, rowsBy, ordered[i], k, fk, l)
        ensures fk.parent in Elems(ordered[..i])
      {
        assert fk.parent in FkGraph(schema, rowsBy.Keys)[ordered[i]];
      }
    }
  }

  /** With parents first and sessions foremost, every single insert is accepted. */
  lemma OrderFits(schema: Schema, store: Store, rowsBy: RowsByTable, p: Plan, source: Uuid, ordered: seq<Table>)
    requires Collected(schema, store, source, rowsBy) && Faithful(schema, store, rowsBy, p.rs, source, p.target)
    requires UniqueIds(store) && SchemaOk(schema) && NoDangling(schema, store) && SelfKeysDeferred(schema)
    requires Distinct(ordered) && DepsFirst(FkGraph(schema, rowsBy.Keys), ordered)
    requires ordered != [] ==> ordered[0] == "sessions"
    ensures Elems(ordered) <= rowsBy.Keys && AllFit(schema, p, store, rowsBy, ordered)
  {
    hide UniqueIds, SchemaOk, NoDangling, SelfKeysDeferred, Faithful, AllFit, ParentsGoFirst;
    OrderedParentsGoFirst(schema, rowsBy, ordered);
    AllFitIff(schema, store, rowsBy, p, source, ordered);
  }
}
