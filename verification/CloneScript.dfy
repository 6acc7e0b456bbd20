/** `clone_session`: collect, prepare, insert in order, patch. */
module CloneScript {
  import opened Names
  import opened Kahn
  import opened Relational
  import opened Collector
  import opened Remap
  import opened TableOrder
  import opened Cloner
  import opened CloneRun
  import opened CloneTheorems
  import opened InsertOrder
  import opened CloneContents

  datatype Error = SourceMissing | IntegrityError
  datatype Result = Done(store: Store, counts: map<Table, nat>) | Failed(error: Error)

  /** The collected tables reference each other without cycles, and `sessions` none of them. */
  ghost predicate Orderable(schema: Schema, rowsBy: RowsByTable) {
    && rowsBy.Keys <= schema.Keys && "sessions" in rowsBy
    && Acyclic(FkGraph(schema, rowsBy.Keys)) && FkGraph(schema, rowsBy.Keys)["sessions"] == {}
  }

  lemma CloneOrderIsValid(schema: Schema, rowsBy: RowsByTable)
    requires Orderable(schema, rowsBy)
    ensures var g := FkGraph(schema, rowsBy.Keys);
            DepsFirst(g, SessionsFirst(FullOrder(g))) && SessionsFirst(FullOrder(g))[..1] == ["sessions"]
  {
    hide Order, Acyclic, Without;
    var g := FkGraph(schema, rowsBy.Keys);
    OrderComplete(g);
    assert g.Keys - Elems(Order(g)) == {};
    assert FullOrder(g) == Order(g);
    assert "sessions" in Order(g) by { assert "sessions" in Elems(Order(g)); }
    SessionsFirstIsValid(g);
  }

  lemma CloneOrderLists(g: Graph)
    ensures Distinct(SessionsFirst(FullOrder(g))) && Elems(SessionsFirst(FullOrder(g))) == g.Keys
  {
    hide FullOrder;
    FullOrderFacts(g);
    WithoutSize(FullOrder(g), "sessions");
    assert Elems(SessionsFirst(FullOrder(g))) == Elems(FullOrder(g));
  }

  /** The self-references of a table are patched row by row. */
  lemma DrawnIsSeparate(schema: Schema, store: Store, source: Uuid, target: Uuid, draw: nat -> Uuid,
                        rowsBy: RowsByTable, p: Plan, drawn: map<Uuid, nat>, n: nat, t: Table)
    requires Collected(schema, store, source, rowsBy) && UniqueIds(store) && SchemaOk(schema)
    requires FreshDraws(store, target, draw) && Drawn(p.rs, drawn, n, target, draw)
    requires forall u :: IsKey(p.rs, u) <==> u == source || CollectedId(schema, rowsBy, u)
    requires forall u :: u in drawn <==> IsKey(p.rs, u) && u != source
    requires t in rowsBy && SelfFields(t) != {}
    ensures Separate(p, store[t], rowsBy[t])
  {
    hide Mapped;
    SessionsHaveNoSelfFields();
    SourceIsOwnRow(schema, store, source, rowsBy);
    var rows := rowsBy[t];
    assert Keyed(rows);
    forall k | 0 <= k < |rows|
      ensures At(rows[k], "id") in drawn && Mapped(p.rs, At(rows[k], "id")) == draw(drawn[At(rows[k], "id")])
    {
      assert At(rows[k], "id") in IdsOf(rows);
      assert CollectedId(schema, rowsBy, At(rows[k], "id"));
    }
    forall i, k | 0 <= i < |rows| && 0 <= k < |rows| && i != k
      ensures Mapped(p.rs, At(rows[i], "id")) != Mapped(p.rs, At(rows[k], "id"))
    {
      if i < k {
        assert At(rows[i], "id") != At(rows[k], "id");
      } else {
        assert At(rows[k], "id") != At(rows[i], "id");
      }
    }
    forall k | 0 <= k < |rows| ensures Mapped(p.rs, At(rows[k], "id")) !in IdsOf(store[t]) {
      assert FreshId(store, draw(drawn[At(rows[k], "id")]));
    }
  }

  /** No insert succeeds under the id of an existing session. */
  lemma TargetTaken(schema: Schema, store: Store, rowsBy: RowsByTable, p: Plan, source: Uuid, ordered: seq<Table>)
    requires Collected(schema, store, source, rowsBy) && SchemaOk(schema) && HasId(store["sessions"], p.target)
    requires Elems(ordered) <= rowsBy.Keys && ordered != [] && ordered[0] == "sessions"
    ensures !AllFit(schema, p, store, rowsBy, ordered)
  {
    hide RewrittenRow;
    var rows, db := FirstRows(p, "sessions", rowsBy["sessions"]), Inserted(p, store, rowsBy, {});
    assert source in IdsOf(rowsBy["sessions"]);
    var row: Row :| row in rowsBy["sessions"] && Has(row, "id");
    SessionId(rowsBy["sessions"][0], p.rs, p.target, p.suffix, "sessions" in SELF_REFERENCE_FIELDS);
    AppendMore(db, "sessions", rows[..0], rows[0]);
    assert rows[..0] == [] && !CanInsert(schema, Append(db, "sessions", rows[..0]), "sessions", rows[0]);
    assert !RowsFit(schema, db, "sessions", rows);
    assert ordered[..1] == ["sessions"] && ordered[..1][..0] == [] && Elems(ordered[..1][..0]) == {};
    if AllFit(schema, p, store, rowsBy, ordered) {
      PrefixFits(schema, p, store, rowsBy, ordered, 1);
    }
  }

  method CloneSession(schema: Schema, store: Store, source: Uuid, target: Uuid, suffix: seq<Token>, execute: bool,
                      draw: nat -> Uuid)
    returns (r: Result, ghost p: Plan, ghost rowsBy: RowsByTable)
    requires WellKeyed(schema, store) && SchemaOk(schema) && UniqueIds(store) && FreshDraws(store, target, draw)
    ensures !HasId(store["sessions"], source) <==> r == Failed(SourceMissing)
    // Whatever is copied and reported has been collected, completely and from this session.
    ensures r != Failed(SourceMissing) ==>
      && IsCollection(schema, store, source, SelectedIds(schema, store, source), rowsBy)
      && IsSelection(schema, store, source, SelectedIds(schema, store, source))
    ensures r.Done? ==> r.counts == map t | t in rowsBy :: |rowsBy[t]|
    // A dry run changes nothing.
    ensures r.Done? && !execute ==> r.store == store
    // Execution leaves every old row in place, maps the references one to one and keeps every one intact.
    ensures r.Done? && execute ==>
      && Collected(schema, store, source, rowsBy) && Faithful(schema, store, rowsBy, p.rs, source, target)
      && Beside(store, r.store, rowsBy)
      && (NoDangling(schema, store) ==> NoDangling(schema, r.store))
    // Every new row holds what the script makes of the stored one, and the session is live under its new title.
    ensures r.Done? && execute ==> AllClonedAs(store, r.store, rowsBy, p.rs, target, suffix)
    ensures r.Done? && execute ==>
      && |rowsBy["sessions"]| == 1 && Has(rowsBy["sessions"][0], "id") && At(rowsBy["sessions"][0], "id") == source
      && LiveSession(rowsBy["sessions"][0], r.store["sessions"][|store["sessions"]|], target, suffix)
    // The new rows are copies, unless the target is a collected row's id and some text names the session.
    ensures r.Done? && execute ==>
      (IsCopy(store, r.store, rowsBy, p.rs, target) <==>
       !(CollectedId(schema, rowsBy, target) && SessionInText(rowsBy, source)))
    ensures r.Done? && execute ==> forall u ::
      InTurn(p.rs, u) != Mapped(p.rs, u) <==> u == source && CollectedId(schema, rowsBy, target)
    // It is accepted exactly when the order puts referenced rows first, as it does when the tables can be ordered.
    ensures HasId(store["sessions"], source) && !execute ==> r.Done?
    ensures HasId(store["sessions"], source) ==> rowsBy.Keys <= schema.Keys
    ensures execute && HasId(store["sessions"], source) && !HasId(store["sessions"], target) ==>
      NoDangling(schema, store) ==>
        (r.Done? <==> ParentsGoFirst(schema, rowsBy, SessionsFirst(FullOrder(FkGraph(schema, rowsBy.Keys)))))
    ensures HasId(store["sessions"], source) && SelfKeysDeferred(schema) && Orderable(schema, rowsBy) ==>
      ParentsGoFirst(schema, rowsBy, SessionsFirst(FullOrder(FkGraph(schema, rowsBy.Keys))))
    // Never onto an existing session.
    ensures execute && HasId(store["sessions"], target) ==> r.Failed?
  {
    hide Sound, Eligible, Saturated, OfSession, Keyed, Order, FullOrder, Acyclic, FirstRows, ClonedRows, Drawn, Mapped,
         IsKey, CollectedId, SourceIsOwn, IsSelection, SelectedIds, IsCollection, Collected, Faithful, UniqueIds,
         FreshDraws, SchemaOk, SelfKeysDeferred, NoDangling, IsCopy, AllFit, Separate, Beside, InTurn, RowRenamed,
         SessionInText, ParentsGoFirst, Orderable, FkGraph, LiveSession, AllClonedAs, WithClone;
    p, rowsBy := Plan([], target, suffix), map[];
    SchemaHasSessions(schema);
    var collection := CollectRows(schema, store, source);
    ghost var selected := SelectedIds(schema, store, source);
    if collection.NoSuchSession? {
      return Failed(SourceMissing), p, rowsBy;
    }
    var rows := collection.rowsBy;
    rowsBy := rows;
    CollectionIsCollected(schema, store, source, selected, rows);
    SourceIsOwnRow(schema, store, source, rows);
    CollectedKeys(schema, store, source, rows);
    var rs, drawn, n := PrepareReplacements(schema, rows, source, target, draw);
    var plan := Plan(rs, target, suffix);
    p := plan;
    ghost var g := FkGraph(schema, rows.Keys);
    var ordered := CloneOrder(schema, rows.Keys);
    CloneOrderLists(g);
    AcceptedWhen(schema, store, rows, plan, source, ordered);
    var counts := map t | t in rows :: |rows[t]|;
    if !execute {
      return Done(store, counts), p, rowsBy;
    }
    if !HasId(store["sessions"], target) {
      DrawnIsFaithful(schema, store, source, target, draw, rows, rs, drawn, n);
    }
    var ok, db := InsertAll(schema, plan, store, rows, ordered);
    if !ok {
      return Failed(IntegrityError), p, rowsBy;
    }
    forall t | t in rows && SelfFields(t) != {} ensures Separate(plan, store[t], rows[t]) {
      DrawnIsSeparate(schema, store, source, target, draw, rows, plan, drawn, n, t);
    }
    db := PatchStore(plan, store, rows, ordered, db);
    CopyIsSound(schema, store, rows, plan, source);
    RowsAreClonedAs(store, rows, plan);
    TheSession(schema, store, rows, plan, source);
    ChainedIffCollected(schema, store, source, target, draw, rows, rs, drawn, n);
    RenamedUnlessInText(rows, rs, source, CollectedId(schema, rows, target));
    r := Done(db, counts);
  }

  /** Each row behind the old ones is the clone of its original. */
  ghost predicate AllClonedAs(store: Store, after: Store, rowsBy: RowsByTable, rs: Items, target: Uuid,
                              suffix: seq<Token>) {
    forall t, k :: t in store && t in rowsBy && 0 <= k < |rowsBy[t]| ==>
      t in after && |store[t]| + k < |after[t]|
      && ClonedAs(t, rowsBy[t][k], after[t][|store[t]| + k], rs, target, suffix)
  }

  lemma RowsAreClonedAs(store: Store, rowsBy: RowsByTable, p: Plan)
    ensures AllClonedAs(store, WithClone(p, store, rowsBy), rowsBy, p.rs, p.target, p.suffix)
  {
    hide ClonedRow, ClonedAs;
    var after := WithClone(p, store, rowsBy);
    forall t, k | t in store && t in rowsBy && 0 <= k < |rowsBy[t]|
      ensures |store[t]| + k < |after[t]|
      ensures ClonedAs(t, rowsBy[t][k], after[t][|store[t]| + k], p.rs, p.target, p.suffix)
    {
      ClonedRowIs(t, rowsBy[t][k], p.rs, p.target, p.suffix);
      assert after[t][|store[t]| + k] == Cloned(p, t, rowsBy[t][k]);
    }
  }

  lemma OnlyRow(rows: seq<Row>, u: Uuid)
    requires Keyed(rows) && IdsOf(rows) == {u}
    ensures |rows| == 1 && Has(rows[0], "id") && At(rows[0], "id") == u
  {
    KeyedSize(rows);
    assert u in IdsOf(rows);
    assert rows[0] in rows;
  }

  lemma KeyedSize(rows: seq<Row>)
    requires Keyed(rows)
    ensures |IdsOf(rows)| == |rows|
  {
    var ids := seq(|rows|, i requires 0 <= i < |rows| => At(rows[i], "id"));
    DistinctSize(ids);
    forall u ensures u in Elems(ids) <==> u in IdsOf(rows) {
      if u in Elems(ids) {
        var i :| 0 <= i < |ids| && ids[i] == u;
        assert rows[i] in rows;
      }
      if u in IdsOf(rows) {
        var row: Row :| row in rows && At(row, "id") == u;
        var i :| 0 <= i < |rows| && rows[i] == row;
        assert ids[i] == u;
      }
    }
    assert Elems(ids) == IdsOf(rows);
  }

  lemma TheSession(schema: Schema, store: Store, rowsBy: RowsByTable, p: Plan, source: Uuid)
    requires Collected(schema, store, source, rowsBy) && SchemaOk(schema)
    ensures |rowsBy["sessions"]| == 1 && Has(rowsBy["sessions"][0], "id") && At(rowsBy["sessions"][0], "id") == source
    ensures "sessions" in store && |WithClone(p, store, rowsBy)["sessions"]| == |store["sessions"]| + 1
    ensures LiveSession(rowsBy["sessions"][0], WithClone(p, store, rowsBy)["sessions"][|store["sessions"]|], p.target,
                        p.suffix)
  {
    hide ClonedRow, LiveSession;
    var rows := rowsBy["sessions"];
    OnlyRow(rows, source);
    assert ClonedRows(p, "sessions", rows)[0] == Cloned(p, "sessions", rows[0]);
    SessionLives(rows[0], p.rs, p.target, p.suffix);
  }

  lemma SchemaHasSessions(schema: Schema)
    requires SchemaOk(schema)
    ensures "sessions" in schema && schema["sessions"].idKey
  {
  }

  lemma CollectedKeys(schema: Schema, store: Store, source: Uuid, rowsBy: RowsByTable)
    requires Collected(schema, store, source, rowsBy)
    ensures rowsBy.Keys <= schema.Keys == store.Keys && "sessions" in rowsBy
  {
  }

  lemma AcceptedWhen(schema: Schema, store: Store, rowsBy: RowsByTable, p: Plan, source: Uuid, ordered: seq<Table>)
    requires Collected(schema, store, source, rowsBy) && UniqueIds(store) && SchemaOk(schema)
    requires ordered == SessionsFirst(FullOrder(FkGraph(schema, rowsBy.Keys)))
    ensures Elems(ordered) == rowsBy.Keys
    ensures Faithful(schema, store, rowsBy, p.rs, source, p.target) && NoDangling(schema, store) ==>
      (AllFit(schema, p, store, rowsBy, ordered) <==> ParentsGoFirst(schema, rowsBy, ordered))
    ensures SelfKeysDeferred(schema) && Orderable(schema, rowsBy) ==> ParentsGoFirst(schema, rowsBy, ordered)
    ensures HasId(store["sessions"], p.target) ==> !AllFit(schema, p, store, rowsBy, ordered)
  {
    hide FullOrder, AllFit, Orderable, ParentsGoFirst, Faithful, NoDangling, SelfKeysDeferred, UniqueIds, DepsFirst;
    var g := FkGraph(schema, rowsBy.Keys);
    CloneOrderLists(g);
    assert "sessions" in FullOrder(g) by { FullOrderFacts(g); assert "sessions" in Elems(FullOrder(g)); }
    assert ordered[0] == "sessions";
    if Faithful(schema, store, rowsBy, p.rs, source, p.target) && NoDangling(schema, store) {
      AllFitIff(schema, store, rowsBy, p, source, ordered);
    }
    if SelfKeysDeferred(schema) && Orderable(schema, rowsBy) {
      CloneOrderIsValid(schema, rowsBy);
      OrderedParentsGoFirst(schema, rowsBy, ordered);
    }
    if HasId(store["sessions"], p.target) {
      TargetTaken(schema, store, rowsBy, p, source, ordered);
    }
  }

  lemma CopyIsSound(schema: Schema, store: Store, rowsBy: RowsByTable, p: Plan, source: Uuid)
    requires Collected(schema, store, source, rowsBy) && Faithful(schema, store, rowsBy, p.rs, source, p.target)
    requires UniqueIds(store) && SchemaOk(schema)
    ensures Beside(store, WithClone(p, store, rowsBy), rowsBy)
    ensures IsCopy(store, WithClone(p, store, rowsBy), rowsBy, p.rs, p.target) <==>
            forall t, row :: t in rowsBy && row in rowsBy[t] ==> RowRenamed(t, row, p.rs)
    ensures NoDangling(schema, store) ==> NoDangling(schema, WithClone(p, store, rowsBy))
  {
    hide NoDangling, IsCopy, UniqueIds, SchemaOk, WithClone, RowRenamed, Beside;
    CloneIsCopy(store, rowsBy, p);
    if NoDangling(schema, store) { CloneKeepsReferences(schema, store, rowsBy, p, source); }
  }
}
