/** The cloned session is an isomorphic copy that leaves the rest of the store alone. */
module CloneTheorems {
  import opened Relational
  import opened Collector
  import opened Remap
  import opened Cloner
  import opened CloneRun

  // ------------------------------------------------------- the setting

  /** A UUID is the id of rows of one table only. */
  ghost predicate UniqueIds(store: Store) {
    forall a, b, u :: a in store && b in store && u in IdsOf(store[a]) && u in IdsOf(store[b]) ==> a == b
  }

  /** The random UUIDs still to be drawn are new and do not repeat. */
  ghost predicate FreshDraws(store: Store, target: Uuid, draw: nat -> Uuid) {
    && (forall n: nat :: FreshId(store, draw(n)) && draw(n) != target)
    && (forall m: nat, n: nat :: draw(m) == draw(n) ==> m == n)
  }

  /** Tables with deferred self-references are keyed by `id`, and `session_id` refers to sessions. */
  ghost predicate SchemaOk(schema: Schema) {
    && "sessions" in schema && schema["sessions"].idKey
    && (forall t :: t in schema && SelfFields(t) != {} ==> schema[t].idKey)
    && (forall t, fk :: t in schema && fk in schema[t].fks && fk.column == "session_id" ==> fk.parent == "sessions")
  }

  /** The collected rows, by table. */
  ghost predicate Collected(schema: Schema, store: Store, source: Uuid, rowsBy: RowsByTable) {
    && rowsBy.Keys <= schema.Keys && schema.Keys == store.Keys && "sessions" in rowsBy
    && (forall t, row :: t in rowsBy && row in rowsBy[t] ==> row in store[t])
    && (forall t :: t in rowsBy && schema[t].idKey ==> Keyed(rowsBy[t]))
    && IdsOf(rowsBy["sessions"]) == {source}
  }

  lemma {:induction false} WhereKeyed(rows: seq<Row>, column: Column, ids: set<Uuid>)
    requires Keyed(rows)
    ensures Keyed(Where(rows, column, ids))
  {
    if rows != [] {
      var init := rows[..|rows| - 1];
      WhereKeyed(init, column, ids);
      var w := Where(init, column, ids);
      forall i | 0 <= i < |w| ensures Has(w[i], "id") && At(w[i], "id") != At(rows[|init|], "id") {
        assert w[i] in w;
        var k :| 0 <= k < |init| && init[k] == w[i];
        assert At(rows[k], "id") != At(rows[|init|], "id");
      }
    }
  }

  lemma CollectionIsCollected(schema: Schema, store: Store, source: Uuid, selected: Selection, rowsBy: RowsByTable)
    requires WellKeyed(schema, store) && SchemaOk(schema) && HasId(store["sessions"], source)
    requires IsCollection(schema, store, source, selected, rowsBy)
    ensures Collected(schema, store, source, rowsBy)
  {
    hide OfSession, Keyed;
    forall t | t in rowsBy
      ensures forall row :: row in rowsBy[t] ==> row in store[t]
      ensures schema[t].idKey ==> Keyed(rowsBy[t])
    {
      if schema[t].idKey { RowsKeyed(schema, store, source, selected, t); }
    }
    PickedId(store["sessions"], source);
  }

  lemma PickedId(rows: seq<Row>, u: Uuid)
    requires HasId(rows, u)
    ensures IdsOf(Where(rows, "id", {u})) == {u}
  {
    var row: Row :| row in rows && Has(row, "id") && At(row, "id") == u;
    assert row in Where(rows, "id", {u});
  }

  lemma RowsKeyed(schema: Schema, store: Store, source: Uuid, selected: Selection, t: Table)
    requires schema.Keys <= store.Keys && t in schema && Keyed(store[t])
    ensures Keyed(RowsOf(schema, store, source, selected, t))
  {
    hide OfSession;
    WhereKeyed(store[t], "id", {source});
    WhereKeyed(store[t], "session_id", {source});
    if t in selected { WhereKeyed(store[t], "id", selected[t]); }
  }

  /** Drawing fresh ids makes the replacements faithful onto any id that no session has. */
  lemma DrawnIsFaithful(schema: Schema, store: Store, source: Uuid, target: Uuid, draw: nat -> Uuid,
                        rowsBy: RowsByTable, rs: Items, drawn: map<Uuid, nat>, n: nat)
    requires Collected(schema, store, source, rowsBy) && UniqueIds(store)
    requires FreshDraws(store, target, draw) && "sessions" in store && !HasId(store["sessions"], target)
    requires Drawn(rs, drawn, n, target, draw)
    requires forall u :: IsKey(rs, u) <==> u == source || CollectedId(schema, rowsBy, u)
    requires forall u :: u in drawn <==> IsKey(rs, u) && u != source
    ensures Faithful(schema, store, rowsBy, rs, source, target)
  {
    hide Mapped, IdsOf, UniqueIds, HasId, CollectedId;
    SourceIsOwnRow(schema, store, source, rowsBy);
    DrawnApart(store, source, target, draw, rs, drawn, n);
    HasIdIn(store["sessions"], [], target);
    assert source in IdsOf(rowsBy["sessions"]);
    IdsOfCollected(schema, store, source, rowsBy, "sessions");
  }

  lemma DrawnApart(store: Store, source: Uuid, target: Uuid, draw: nat -> Uuid, rs: Items, drawn: map<Uuid, nat>,
                   n: nat)
    requires FreshDraws(store, target, draw) && Drawn(rs, drawn, n, target, draw)
    requires IsKey(rs, source) && forall u :: u in drawn <==> IsKey(rs, u) && u != source
    ensures Mapped(rs, source) == target
    ensures forall u, v :: IsKey(rs, u) && IsKey(rs, v) && Mapped(rs, u) == Mapped(rs, v) ==> u == v
    ensures forall u :: IsKey(rs, u) && u != source ==> FreshId(store, Mapped(rs, u))
  {
    hide Mapped, IsKey, IdsOf;
  }

  /**
   Only the session's id can be rewritten twice, and it is exactly when the target is itself the
   id of a collected row; otherwise the order of the replacements has no part in the outcome.
   */
  lemma ChainedIffCollected(schema: Schema, store: Store, source: Uuid, target: Uuid, draw: nat -> Uuid,
                            rowsBy: RowsByTable, rs: Items, drawn: map<Uuid, nat>, n: nat)
    requires Collected(schema, store, source, rowsBy) && UniqueIds(store)
    requires FreshDraws(store, target, draw) && "sessions" in store && !HasId(store["sessions"], target)
    requires Drawn(rs, drawn, n, target, draw) && rs != [] && rs[0].0 == source
    requires forall u :: IsKey(rs, u) <==> u == source || CollectedId(schema, rowsBy, u)
    requires forall u :: u in drawn <==> IsKey(rs, u) && u != source
    ensures forall u :: InTurn(rs, u) != Mapped(rs, u) <==> u == source && CollectedId(schema, rowsBy, target)
    ensures NoTargetIsKey(rs) <==> !CollectedId(schema, rowsBy, target)
  {
    hide Mapped, InTurn, IdsOf, UniqueIds, HasId, CollectedId, Collected;
    SourceIsNotTarget(schema, store, source, target, rowsBy);
    KeysAreIds(schema, store, source, rowsBy, rs);
    DrawnApart(store, source, target, draw, rs, drawn, n);
    forall k | 0 <= k < |rs| ensures IsKey(rs, rs[k].0) && Mapped(rs, rs[k].0) == rs[k].1 {
      MappedIs(rs, k);
      assert rs[k] in rs;
    }
    DrawsAreNoKeys(store, source, rs);
    TargetDecides(rs, target);
  }

  lemma SourceIsNotTarget(schema: Schema, store: Store, source: Uuid, target: Uuid, rowsBy: RowsByTable)
    requires Collected(schema, store, source, rowsBy) && !HasId(store["sessions"], target)
    ensures source != target
  {
    assert source in IdsOf(rowsBy["sessions"]);
    IdsOfCollected(schema, store, source, rowsBy, "sessions");
    HasIdIn(store["sessions"], [], target);
  }

  lemma DrawsAreNoKeys(store: Store, source: Uuid, rs: Items)
    requires forall u :: IsKey(rs, u) ==> exists t :: t in store && u in IdsOf(store[t])
    requires forall u :: IsKey(rs, u) && u != source ==> FreshId(store, Mapped(rs, u))
    requires forall k :: 0 <= k < |rs| ==> IsKey(rs, rs[k].0) && Mapped(rs, rs[k].0) == rs[k].1
    ensures forall i :: 0 <= i < |rs| && rs[i].0 != source ==> !IsKey(rs, rs[i].1)
  {
    hide Mapped, IsKey, IdsOf;
  }

  /** When all but the first item lead to ids that are no keys, all depends on the target of the first. */
  lemma TargetDecides(rs: Items, target: Uuid)
    requires DistinctKeys(rs) && rs != [] && rs[0].1 == target && rs[0].0 != target
    requires forall i :: 0 < i < |rs| ==> !IsKey(rs, rs[i].1)
    ensures forall u :: InTurn(rs, u) != Mapped(rs, u) <==> u == rs[0].0 && IsKey(rs, target)
    ensures NoTargetIsKey(rs) <==> !IsKey(rs, target)
  {
    hide InTurn, Mapped;
    forall i | 0 <= i < |rs| ensures rs[i] in rs && IsKey(rs, rs[i].0) { }
    forall u ensures InTurn(rs, u) != Mapped(rs, u) <==> u == rs[0].0 && IsKey(rs, target) {
      if k :| 0 <= k < |rs| && rs[k].0 == u {
        MappedIs(rs, k);
        if k == 0 && IsKey(rs, target) {
          var j :| 0 <= j < |rs| && rs[j].0 == target;
          Overwritten(rs, 0, j);
        } else {
          InTurnHits(rs, k);
          assert forall j :: 0 <= j < |rs| ==> rs[j].0 != rs[k].1;
          InTurnStays(rs, u, k + 1);
        }
      } else {
        InTurnOther(rs, u);
      }
    }
  }

  /** Every key is the id of an existing row. */
  lemma KeysAreIds(schema: Schema, store: Store, source: Uuid, rowsBy: RowsByTable, rs: Items)
    requires Collected(schema, store, source, rowsBy)
    requires forall u :: IsKey(rs, u) <==> u == source || CollectedId(schema, rowsBy, u)
    ensures forall u :: IsKey(rs, u) ==> exists t :: t in store && u in IdsOf(store[t])
  {
    forall u | IsKey(rs, u) ensures exists t :: t in store && u in IdsOf(store[t]) {
      if u == source {
        assert source in IdsOf(rowsBy["sessions"]);
        IdsOfCollected(schema, store, source, rowsBy, "sessions");
      } else {
        var t :| t in rowsBy && t in schema && schema[t].idKey && u in IdsOf(rowsBy[t]);
        IdsOfCollected(schema, store, source, rowsBy, t);
      }
    }
  }

  lemma IdsOfCollected(schema: Schema, store: Store, source: Uuid, rowsBy: RowsByTable, t: Table)
    requires Collected(schema, store, source, rowsBy) && t in rowsBy
    ensures IdsOf(rowsBy[t]) <= IdsOf(store[t])
  {
  }

  /** Ids do not mix: the session's id belongs to the session's own row. */
  lemma SourceIsOwnRow(schema: Schema, store: Store, source: Uuid, rowsBy: RowsByTable)
    requires Collected(schema, store, source, rowsBy) && UniqueIds(store)
    ensures SourceIsOwn(schema, rowsBy, source)
  {
    assert source in IdsOf(rowsBy["sessions"]);
    IdsOfCollected(schema, store, source, rowsBy, "sessions");
    forall t, u | t in rowsBy && t in schema && schema[t].idKey && u in IdsOf(rowsBy[t])
      ensures u == source <==> t == "sessions"
    {
      IdsOfCollected(schema, store, source, rowsBy, t);
    }
  }

  /** The id of each inserted row, the session's own included. */
  lemma CloneId(schema: Schema, store: Store, rowsBy: RowsByTable, p: Plan, source: Uuid, t: Table, row: Row)
    requires Collected(schema, store, source, rowsBy) && Faithful(schema, store, rowsBy, p.rs, source, p.target)
    requires t in rowsBy && row in rowsBy[t] && Has(row, "id")
    ensures Has(First(p, t, row), "id") && At(First(p, t, row), "id") == Mapped(p.rs, At(row, "id"))
    ensures Has(Cloned(p, t, row), "id") && At(Cloned(p, t, row), "id") == Mapped(p.rs, At(row, "id"))
  {
    if t == "sessions" {
      assert At(row, "id") in IdsOf(rowsBy["sessions"]);
      SessionId(row, p.rs, p.target, p.suffix, t in SELF_REFERENCE_FIELDS);
      ClonedColumns(t, row, p.rs, p.target, p.suffix, "id");
    } else {
      CloneIds(p, t, row);
    }
  }

  // ------------------------------------------------------- references

  /** A reference to a collected row is to a row of a collected table. */
  lemma KeyOf(schema: Schema, store: Store, rowsBy: RowsByTable, rs: Items, source: Uuid, target: Uuid, q: Table,
              u: Uuid)
    requires Collected(schema, store, source, rowsBy) && Faithful(schema, store, rowsBy, rs, source, target)
    requires UniqueIds(store) && IsKey(rs, u) && q in store && u in IdsOf(store[q])
    ensures q in rowsBy && u in IdsOf(rowsBy[q])
  {
    if u == source {
      assert source in IdsOf(rowsBy["sessions"]);
      IdsOfCollected(schema, store, source, rowsBy, "sessions");
    } else {
      var t :| t in rowsBy && t in schema && schema[t].idKey && u in IdsOf(rowsBy[t]);
      IdsOfCollected(schema, store, source, rowsBy, t);
    }
  }

  /** The clone of the row with id `u` stands in the same table, under the id that replaces `u`. */
  lemma CloneStands(schema: Schema, store: Store, rowsBy: RowsByTable, p: Plan, source: Uuid, q: Table, u: Uuid)
    requires Collected(schema, store, source, rowsBy) && Faithful(schema, store, rowsBy, p.rs, source, p.target)
    requires q in rowsBy && u in IdsOf(rowsBy[q])
    ensures HasId(FirstRows(p, q, rowsBy[q]), Mapped(p.rs, u))
    ensures HasId(ClonedRows(p, q, rowsBy[q]), Mapped(p.rs, u))
  {
    hide FirstRow, ClonedRow, Mapped;
    var row: Row :| row in rowsBy[q] && Has(row, "id") && At(row, "id") == u;
    var k :| 0 <= k < |rowsBy[q]| && rowsBy[q][k] == row;
    CloneId(schema, store, rowsBy, p, source, q, row);
    assert FirstRows(p, q, rowsBy[q])[k] == First(p, q, row);
    assert ClonedRows(p, q, rowsBy[q])[k] == Cloned(p, q, row);
  }

  lemma CloneKeepsIds(p: Plan, store: Store, rowsBy: RowsByTable)
    ensures IdsKept(store, WithClone(p, store, rowsBy))
  {
    forall t, u | t in store && HasId(store[t], u) ensures HasId(WithClone(p, store, rowsBy)[t], u) {
      var r: Row :| r in store[t] && Has(r, "id") && At(r, "id") == u;
      assert r in WithClone(p, store, rowsBy)[t];
    }
  }

  lemma HasIdIn(rows: seq<Row>, more: seq<Row>, u: Uuid)
    ensures HasId(rows + more, u) <==> HasId(rows, u) || HasId(more, u)
    ensures HasId(rows, u) <==> u in IdsOf(rows)
  {
    assert forall r :: r in rows + more <==> r in rows || r in more;
  }

  /** A reference held by a clone resolves beside the clone. */
  lemma CloneResolves(schema: Schema, store: Store, rowsBy: RowsByTable, p: Plan, source: Uuid, t: Table, row: Row,
                      fk: ForeignKey)
    requires Collected(schema, store, source, rowsBy) && Faithful(schema, store, rowsBy, p.rs, source, p.target)
    requires UniqueIds(store) && SchemaOk(schema) && NoDangling(schema, store)
    requires t in rowsBy && row in rowsBy[t] && fk in schema[t].fks
    ensures Resolves(WithClone(p, store, rowsBy), Cloned(p, t, row), fk)
  {
    hide ClonedRow, ClonedRows, FirstRows, Mapped, IsKey;
    var copy, after := Cloned(p, t, row), WithClone(p, store, rowsBy);
    ClonedRefs(t, row, p.rs, p.target, p.suffix, fk.column);
    if Has(copy, fk.column) {
      assert RowResolves(schema, store, t, row);
      if fk.column == "session_id" && At(copy, fk.column) == p.target {
        SessionStands(schema, store, rowsBy, p, source);
      } else if t == "sessions" && fk.column == "id" && At(copy, fk.column) == p.target {
        assert row in store[t];
        SessionsOwnId(schema, store, rowsBy, source, row);
        HasIdIn(store[fk.parent], [], source);
        SessionStands(schema, store, rowsBy, p, source);
      } else {
        var u, q := At(row, fk.column), fk.parent;
        assert Resolves(store, row, fk);
        ReferredStands(schema, store, rowsBy, p, source, q, u);
      }
    }
  }

  lemma SessionsOwnId(schema: Schema, store: Store, rowsBy: RowsByTable, source: Uuid, row: Row)
    requires Collected(schema, store, source, rowsBy) && row in rowsBy["sessions"] && SchemaOk(schema)
    ensures Has(row, "id") && At(row, "id") == source && source in IdsOf(store["sessions"])
  {
    assert Keyed(rowsBy["sessions"]);
    assert At(row, "id") in IdsOf(rowsBy["sessions"]);
    IdsOfCollected(schema, store, source, rowsBy, "sessions");
  }

  lemma SessionStands(schema: Schema, store: Store, rowsBy: RowsByTable, p: Plan, source: Uuid)
    requires Collected(schema, store, source, rowsBy) && Faithful(schema, store, rowsBy, p.rs, source, p.target)
    ensures HasId(WithClone(p, store, rowsBy)["sessions"], p.target)
  {
    hide ClonedRows, FirstRows, Mapped;
    assert source in IdsOf(rowsBy["sessions"]);
    CloneStands(schema, store, rowsBy, p, source, "sessions", source);
    HasIdIn(store["sessions"], ClonedRows(p, "sessions", rowsBy["sessions"]), p.target);
  }

  /** What `u` of table `q` is replaced by stands in table `q`. */
  lemma ReferredStands(schema: Schema, store: Store, rowsBy: RowsByTable, p: Plan, source: Uuid, q: Table, u: Uuid)
    requires Collected(schema, store, source, rowsBy) && Faithful(schema, store, rowsBy, p.rs, source, p.target)
    requires UniqueIds(store) && q in store && HasId(store[q], u)
    ensures HasId(WithClone(p, store, rowsBy)[q], Mapped(p.rs, u))
  {
    hide ClonedRows, FirstRows, Mapped, IsKey;
    HasIdIn(store[q], if q in rowsBy then ClonedRows(p, q, rowsBy[q]) else [], Mapped(p.rs, u));
    HasIdIn(store[q], [], u);
    if IsKey(p.rs, u) {
      KeyOf(schema, store, rowsBy, p.rs, source, p.target, q, u);
      CloneStands(schema, store, rowsBy, p, source, q, u);
    } else {
      MappedOther(p.rs, u);
    }
  }

  /** A store without dangling references has none after the clone either. */
  lemma CloneKeepsReferences(schema: Schema, store: Store, rowsBy: RowsByTable, p: Plan, source: Uuid)
    requires Collected(schema, store, source, rowsBy) && Faithful(schema, store, rowsBy, p.rs, source, p.target)
    requires UniqueIds(store) && SchemaOk(schema) && NoDangling(schema, store)
    ensures NoDangling(schema, WithClone(p, store, rowsBy))
  {
    hide ClonedRow, Faithful, RowResolves;
    var after := WithClone(p, store, rowsBy);
    CloneKeepsIds(p, store, rowsBy);
    forall t, row | t in after && row in after[t] ensures RowResolves(schema, after, t, row) {
      if row in store[t] {
        ResolvesIsMonotone(schema, store, after, t, row);
      } else {
        var k :| 0 <= k < |rowsBy[t]| && row == Cloned(p, t, rowsBy[t][k]);
        RowOfCloneResolves(schema, store, rowsBy, p, source, t, rowsBy[t][k]);
      }
    }
  }

  lemma RowOfCloneResolves(schema: Schema, store: Store, rowsBy: RowsByTable, p: Plan, source: Uuid, t: Table, row: Row)
    requires Collected(schema, store, source, rowsBy) && Faithful(schema, store, rowsBy, p.rs, source, p.target)
    requires UniqueIds(store) && SchemaOk(schema) && NoDangling(schema, store)
    requires t in rowsBy && row in rowsBy[t]
    ensures RowResolves(schema, WithClone(p, store, rowsBy), t, Cloned(p, t, row))
  {
    hide ClonedRow, Faithful, NoDangling, UniqueIds, SchemaOk, WithClone;
    forall fk | fk in schema[t].fks ensures Resolves(WithClone(p, store, rowsBy), Cloned(p, t, row), fk) {
      CloneResolves(schema, store, rowsBy, p, source, t, row, fk);
    }
  }

  // ------------------------------------------------------- the copy

  /**
   `copy` stands for `row` under the renaming: same columns, every value outside the set
   columns renamed at once, the session replaced, self-references following the renaming.
   */
  ghost predicate StandsFor(t: Table, row: Row, copy: Row, rs: Items, target: Uuid) {
    && row.Keys <= copy.Keys <= row.Keys + SetColumns(t)
    && (forall c :: c in row && c !in SetColumns(t) ==> copy[c] == Rename(row[c], (u: Uuid) => Mapped(rs, u)))
    && ("session_id" in row ==> copy["session_id"] == Ref(target))
    && (forall c :: c in row && c in SelfFields(t) ==>
          copy[c] == if Has(row, c) && IsKey(rs, At(row, c)) then Ref(Mapped(rs, At(row, c))) else Null)
  }

  /** Nothing old changes, and behind it stands one row for each collected one. */
  ghost predicate Beside(store: Store, after: Store, rowsBy: RowsByTable) {
    && after.Keys == store.Keys
    && (forall t :: t in store && t !in rowsBy ==> after[t] == store[t])
    && (forall t :: t in store && t in rowsBy ==>
          |after[t]| == |store[t]| + |rowsBy[t]| && after[t][..|store[t]|] == store[t])
  }

  /** Those rows are the clones of the collected ones, one for one. */
  ghost predicate IsCopy(store: Store, after: Store, rowsBy: RowsByTable, rs: Items, target: Uuid) {
    && Beside(store, after, rowsBy)
    && forall t, k :: t in store && t in rowsBy && 0 <= k < |rowsBy[t]| ==>
         StandsFor(t, rowsBy[t][k], after[t][|store[t]| + k], rs, target)
  }

  /** No remapped text of the row holds an id that is rewritten more than once. */
  ghost predicate RowRenamed(t: Table, row: Row, rs: Items) {
    forall c :: c in row && c !in SetColumns(t) ==> NoneInText(row[c], rs)
  }

  lemma StandsForIff(t: Table, row: Row, p: Plan)
    ensures StandsFor(t, row, Cloned(p, t, row), p.rs, p.target) <==> RowRenamed(t, row, p.rs)
  {
    hide ClonedRow, Mapped, IsKey, SelfFields, SetColumns, NoneInText;
    var copy := Cloned(p, t, row);
    ClonedColumns(t, row, p.rs, p.target, p.suffix, "session_id");
    SelfFieldsAreOther(t);
    forall c | c in row
      ensures c in copy
      ensures c !in SetColumns(t) ==>
        (copy[c] == Rename(row[c], (u: Uuid) => Mapped(p.rs, u)) <==> NoneInText(row[c], p.rs))
      ensures c in SelfFields(t) ==>
        copy[c] == if Has(row, c) && IsKey(p.rs, At(row, c)) then Ref(Mapped(p.rs, At(row, c))) else Null
    {
      ClonedColumns(t, row, p.rs, p.target, p.suffix, c);
      RenamedIffNoneInText(row[c], p.rs);
    }
  }

  /**
   The rows behind the old ones are copies exactly when no text of a collected row holds an id
   that is rewritten more than once.
   */
  lemma CloneIsCopy(store: Store, rowsBy: RowsByTable, p: Plan)
    requires rowsBy.Keys <= store.Keys
    ensures Beside(store, WithClone(p, store, rowsBy), rowsBy)
    ensures IsCopy(store, WithClone(p, store, rowsBy), rowsBy, p.rs, p.target) <==>
            forall t, row :: t in rowsBy && row in rowsBy[t] ==> RowRenamed(t, row, p.rs)
  {
    hide ClonedRow, StandsFor, RowRenamed;
    var after := WithClone(p, store, rowsBy);
    forall t, k | t in rowsBy && 0 <= k < |rowsBy[t]|
      ensures StandsFor(t, rowsBy[t][k], after[t][|store[t]| + k], p.rs, p.target) <==>
              RowRenamed(t, rowsBy[t][k], p.rs)
    {
      StandsForIff(t, rowsBy[t][k], p);
    }
    if IsCopy(store, after, rowsBy, p.rs, p.target) {
      forall t, row | t in rowsBy && row in rowsBy[t] ensures RowRenamed(t, row, p.rs) {
        var k :| 0 <= k < |rowsBy[t]| && rowsBy[t][k] == row;
        assert StandsFor(t, rowsBy[t][k], after[t][|store[t]| + k], p.rs, p.target);
      }
    }
  }

  /** Some text of a collected row that the clone only remaps mentions the session, and more. */
  ghost predicate SessionInText(rowsBy: RowsByTable, source: Uuid) {
    exists t, row: Row, c ::
      t in rowsBy && row in rowsBy[t] && c in row && c !in SetColumns(t) && InText(source, row[c])
  }

  lemma RenamedUnlessInText(rowsBy: RowsByTable, rs: Items, source: Uuid, chained: bool)
    requires forall u :: InTurn(rs, u) != Mapped(rs, u) <==> u == source && chained
    ensures (forall t, row :: t in rowsBy && row in rowsBy[t] ==> RowRenamed(t, row, rs)) <==>
            !(chained && SessionInText(rowsBy, source))
  {
    hide InTurn, Mapped, InText, SetColumns;
    forall value ensures NoneInText(value, rs) <==> !(chained && InText(source, value)) { }
    hide NoneInText;
    if chained && SessionInText(rowsBy, source) {
      var t, row: Row, c :| t in rowsBy && row in rowsBy[t] && c in row && c !in SetColumns(t)
                            && InText(source, row[c]);
      assert !RowRenamed(t, row, rs);
    }
  }

  /**
   References are mapped both ways: through a foreign key outside the set columns the copy
   references the clone of a collected row exactly when the original references that row,
   and otherwise it references what the original references.
   */
  lemma ReferencesCorrespond(schema: Schema, store: Store, rowsBy: RowsByTable, p: Plan, source: Uuid,
                             t: Table, row: Row, fk: ForeignKey, v: Uuid)
    requires Collected(schema, store, source, rowsBy) && Faithful(schema, store, rowsBy, p.rs, source, p.target)
    requires NoDangling(schema, store) && t in rowsBy && row in rowsBy[t] && fk in schema[t].fks
    requires fk.column !in SetColumns(t) && Has(row, fk.column)
    ensures Has(Cloned(p, t, row), fk.column)
    ensures IsKey(p.rs, v) && (v != source || FreshId(store, p.target) || fk.parent == "sessions") ==>
      (At(Cloned(p, t, row), fk.column) == Mapped(p.rs, v) <==> At(row, fk.column) == v)
    ensures !IsKey(p.rs, At(row, fk.column)) ==> At(Cloned(p, t, row), fk.column) == At(row, fk.column)
  {
    hide ClonedRow, SetColumns;
    ClonedColumns(t, row, p.rs, p.target, p.suffix, fk.column);
    var u := At(row, fk.column);
    if !IsKey(p.rs, u) {
      MappedOther(p.rs, u);
      assert RowResolves(schema, store, t, row) && Resolves(store, row, fk);
      HasIdIn(store[fk.parent], [], u);
      assert u in IdsOf(store[fk.parent]);
    }
  }

  lemma KeyedAppend(a: seq<Row>, b: seq<Row>)
    requires Keyed(a) && Keyed(b) && IdsOf(a) !! IdsOf(b)
    ensures Keyed(a + b)
  {
    forall i, j | 0 <= i < j < |a + b| ensures At((a + b)[i], "id") != At((a + b)[j], "id") {
      if i < |a| <= j {
        assert At(a[i], "id") in IdsOf(a) && At(b[j - |a|], "id") in IdsOf(b);
      }
    }
  }

  lemma ClonesAreKeyed(schema: Schema, store: Store, rowsBy: RowsByTable, p: Plan, source: Uuid, t: Table)
    requires Collected(schema, store, source, rowsBy) && Faithful(schema, store, rowsBy, p.rs, source, p.target)
    requires t in rowsBy && schema[t].idKey
    ensures Keyed(ClonedRows(p, t, rowsBy[t])) && IdsOf(ClonedRows(p, t, rowsBy[t])) !! IdsOf(store[t])
  {
    hide ClonedRow, FirstRow, Mapped;
    var rows, clones := rowsBy[t], ClonedRows(p, t, rowsBy[t]);
    assert Keyed(rows);
    forall k | 0 <= k < |rows|
      ensures Has(clones[k], "id") && At(clones[k], "id") == Mapped(p.rs, At(rows[k], "id"))
      ensures IsKey(p.rs, At(rows[k], "id")) && Mapped(p.rs, At(rows[k], "id")) !in IdsOf(store[t])
    {
      CloneId(schema, store, rowsBy, p, source, t, rows[k]);
      assert At(rows[k], "id") in IdsOf(rows);
      assert t != "sessions" ==> FreshId(store, Mapped(p.rs, At(rows[k], "id")));
    }
    forall i, j | 0 <= i < j < |clones| ensures At(clones[i], "id") != At(clones[j], "id") {
      assert At(rows[i], "id") != At(rows[j], "id");
    }
  }

  /** Ids stay unique: the store with the clone is keyed as the store was. */
  lemma CloneKeepsKeys(schema: Schema, store: Store, rowsBy: RowsByTable, p: Plan, source: Uuid, t: Table)
    requires Collected(schema, store, source, rowsBy) && Faithful(schema, store, rowsBy, p.rs, source, p.target)
    requires t in store && schema[t].idKey && Keyed(store[t])
    ensures Keyed(WithClone(p, store, rowsBy)[t])
  {
    hide ClonedRows, FirstRow, Mapped;
    if t in rowsBy {
      ClonesAreKeyed(schema, store, rowsBy, p, source, t);
      KeyedAppend(store[t], ClonedRows(p, t, rowsBy[t]));
    }
  }
}
