/** `_purge_generated_state` of `scripts/run_react_runtime_clone_comparison.py`. */
module Purge {
  import opened Names
  import opened Kahn
  import opened Relational
  import opened Collector
  import opened TableOrder

  predicate Preserved(t: Table) {
    t in PRESERVE_SESSION_TABLES || t in GLOBAL_TABLE_EXCLUSIONS
  }

  /** The delete issued for table `t` matches the row. */
  predicate Doomed(schema: Schema, selected: Selection, sessions: set<Uuid>, t: Table, row: Row)
    requires t in schema
  {
    && !Preserved(t)
    && if t in selected && selected[t] != {} && "id" in schema[t].columns
       then Has(row, "id") && At(row, "id") in selected[t]
       else "session_id" in schema[t].columns && Has(row, "session_id") && At(row, "session_id") in sessions
  }

  /** The rows the delete leaves. */
  function Survivors(schema: Schema, selected: Selection, sessions: set<Uuid>, t: Table, rows: seq<Row>): (r: seq<Row>)
    requires t in schema
    ensures forall x :: x in r <==> x in rows && !Doomed(schema, selected, sessions, t, x)
  {
    if rows == [] then [] else
      var last := rows[|rows| - 1];
      Survivors(schema, selected, sessions, t, rows[..|rows| - 1])
      + if Doomed(schema, selected, sessions, t, last) then [] else [last]
  }

  /** The store when the deletes of the tables of `done` have been issued. */
  function Purged(schema: Schema, store: Store, selected: Selection, sessions: set<Uuid>, done: set<Table>): Store
    requires store.Keys == schema.Keys
  {
    map t | t in store :: if t in done then Survivors(schema, selected, sessions, t, store[t]) else store[t]
  }

  /** Whatever references a doomed row is doomed as well. */
  ghost predicate ClosedUnderReferences(schema: Schema, store: Store, selected: Selection, sessions: set<Uuid>)
    requires store.Keys == schema.Keys
  {
    forall t, row, fk, target: Row ::
      t in store && row in store[t] && fk in schema[t].fks && fk.parent in store && target in store[fk.parent]
      && Has(row, fk.column) && Has(target, "id") && At(target, "id") == At(row, fk.column)
      && Doomed(schema, selected, sessions, fk.parent, target)
      ==> Doomed(schema, selected, sessions, t, row)
  }

  /** Foreign keys reference tables keyed by `id`. */
  ghost predicate KeyedParents(schema: Schema) {
    forall t, fk :: t in schema && fk in schema[t].fks ==> fk.parent in schema && schema[fk.parent].idKey
  }

  // ------------------------------------------------------- the whole purge

  /** A row that stays keeps its reference, provided the purge is closed. */
  lemma StaysResolved(schema: Schema, store: Store, selected: Selection, sessions: set<Uuid>, done: set<Table>,
                      t: Table, row: Row, fk: ForeignKey)
    requires WellKeyed(schema, store) && NoDangling(schema, store)
    requires ClosedUnderReferences(schema, store, selected, sessions)
    requires t in store && row in store[t] && fk in schema[t].fks
    requires fk.parent in done ==> !Doomed(schema, selected, sessions, t, row)
    ensures Resolves(Purged(schema, store, selected, sessions, done), row, fk)
  {
    hide Doomed;
    assert RowResolves(schema, store, t, row) && Resolves(store, row, fk);
    if Has(row, fk.column) {
      var target: Row :| target in store[fk.parent] && Has(target, "id") && At(target, "id") == At(row, fk.column);
      assert target in Purged(schema, store, selected, sessions, done)[fk.parent];
    }
  }

  /**
   After the purge no reference dangles exactly when the selection is closed under incoming
   references; the order of the deletes has no part in this.
   */
  lemma PurgeIsSoundIffClosed(schema: Schema, store: Store, selected: Selection, sessions: set<Uuid>)
    requires WellKeyed(schema, store) && NoDangling(schema, store) && KeyedParents(schema)
    ensures NoDangling(schema, Purged(schema, store, selected, sessions, schema.Keys)) <==>
            ClosedUnderReferences(schema, store, selected, sessions)
  {
    hide Doomed;
    var after := Purged(schema, store, selected, sessions, schema.Keys);
    if ClosedUnderReferences(schema, store, selected, sessions) {
      forall t, row | t in after && row in after[t] ensures RowResolves(schema, after, t, row) {
        forall fk | fk in schema[t].fks ensures Resolves(after, row, fk) {
          StaysResolved(schema, store, selected, sessions, schema.Keys, t, row, fk);
        }
      }
    }
    if NoDangling(schema, after) {
      forall t, row, fk, target: Row |
        t in store && row in store[t] && fk in schema[t].fks && fk.parent in store && target in store[fk.parent]
        && Has(row, fk.column) && Has(target, "id") && At(target, "id") == At(row, fk.column)
        && Doomed(schema, selected, sessions, fk.parent, target)
        ensures Doomed(schema, selected, sessions, t, row)
      {
        if !Doomed(schema, selected, sessions, t, row) {
          assert row in after[t];
          assert RowResolves(schema, after, t, row) && Resolves(after, row, fk);
          var other: Row :| other in after[fk.parent] && Has(other, "id") && At(other, "id") == At(row, fk.column);
          KeyDetermines(store[fk.parent], other, target);
        }
      }
    }
  }

  // ------------------------------------------------------- step by step

  /** The tables of `done` come last in an order with parents first. */
  ghost predicate ChildrenDone(schema: Schema, done: set<Table>) {
    forall t, fk :: t in schema && t !in done && fk in schema[t].fks && fk.parent != t && fk.parent in schema ==>
      fk.parent !in done
  }

  /** Deleting children before their parents leaves no dangling reference at any step. */
  lemma StepIsSound(schema: Schema, store: Store, selected: Selection, sessions: set<Uuid>, done: set<Table>)
    requires WellKeyed(schema, store) && NoDangling(schema, store) && KeyedParents(schema)
    requires ClosedUnderReferences(schema, store, selected, sessions) && ChildrenDone(schema, done)
    ensures NoDangling(schema, Purged(schema, store, selected, sessions, done))
  {
    hide Doomed;
    var after := Purged(schema, store, selected, sessions, done);
    forall t, row | t in after && row in after[t] ensures RowResolves(schema, after, t, row) {
      forall fk | fk in schema[t].fks ensures Resolves(after, row, fk) {
        StaysResolved(schema, store, selected, sessions, done, t, row, fk);
      }
    }
  }

  /** A doomed row of `t` references a doomed row of `q`. */
  ghost predicate NeedsFirst(schema: Schema, store: Store, selected: Selection, sessions: set<Uuid>, t: Table, q: Table)
    requires store.Keys == schema.Keys
  {
    t in store && q in store && exists row: Row, fk, target: Row ::
      row in store[t] && fk in schema[t].fks && fk.parent == q && target in store[q]
      && Has(row, fk.column) && Has(target, "id") && At(target, "id") == At(row, fk.column)
      && Doomed(schema, selected, sessions, t, row) && Doomed(schema, selected, sessions, q, target)
  }

  /** Among the doomed rows, none references a row whose table comes after its own, and so is deleted before. */
  ghost predicate ChildrenGoFirst(schema: Schema, store: Store, selected: Selection, sessions: set<Uuid>,
                                  ordered: seq<Table>)
    requires store.Keys == schema.Keys
  {
    forall i, j :: 0 <= i < j < |ordered| ==> !NeedsFirst(schema, store, selected, sessions, ordered[i], ordered[j])
  }

  /**
   Deletes of the tables of `done` leave no dangling reference exactly when no doomed row that
   still stands references a deleted one.
   */
  lemma StepIsSoundIff(schema: Schema, store: Store, selected: Selection, sessions: set<Uuid>, done: set<Table>)
    requires WellKeyed(schema, store) && NoDangling(schema, store) && KeyedParents(schema)
    requires ClosedUnderReferences(schema, store, selected, sessions)
    ensures NoDangling(schema, Purged(schema, store, selected, sessions, done)) <==>
            forall t, q :: t in schema && t !in done && q in done ==>
              !NeedsFirst(schema, store, selected, sessions, t, q)
  {
    hide Doomed, ClosedUnderReferences;
    var after := Purged(schema, store, selected, sessions, done);
    if NoDangling(schema, after) {
      forall t, q | t in schema && t !in done && q in done
        ensures !NeedsFirst(schema, store, selected, sessions, t, q)
      {
        if NeedsFirst(schema, store, selected, sessions, t, q) {
          Dangles(schema, store, selected, sessions, done, t, q);
        }
      }
    } else {
      var t, row :| t in after && row in after[t] && !RowResolves(schema, after, t, row);
      var fk :| fk in schema[t].fks && !Resolves(after, row, fk);
      Waits(schema, store, selected, sessions, done, t, row, fk);
    }
  }

  lemma Dangles(schema: Schema, store: Store, selected: Selection, sessions: set<Uuid>, done: set<Table>,
                t: Table, q: Table)
    requires WellKeyed(schema, store) && KeyedParents(schema) && t !in done && q in done
    requires NeedsFirst(schema, store, selected, sessions, t, q)
    ensures !NoDangling(schema, Purged(schema, store, selected, sessions, done))
  {
    hide Doomed;
    var after := Purged(schema, store, selected, sessions, done);
    var row: Row, fk, target: Row :|
      row in store[t] && fk in schema[t].fks && fk.parent == q && target in store[q]
      && Has(row, fk.column) && Has(target, "id") && At(target, "id") == At(row, fk.column)
      && Doomed(schema, selected, sessions, t, row) && Doomed(schema, selected, sessions, q, target);
    assert row in after[t];
    if RowResolves(schema, after, t, row) {
      assert Resolves(after, row, fk);
      var other: Row :| other in after[q] && Has(other, "id") && At(other, "id") == At(row, fk.column);
      KeyDetermines(store[q], other, target);
    }
  }

  /** A reference that dangles is that of a doomed row still standing. */
  lemma Waits(schema: Schema, store: Store, selected: Selection, sessions: set<Uuid>, done: set<Table>,
              t: Table, row: Row, fk: ForeignKey)
    requires WellKeyed(schema, store) && NoDangling(schema, store)
    requires ClosedUnderReferences(schema, store, selected, sessions)
    requires t in store && row in Purged(schema, store, selected, sessions, done)[t] && fk in schema[t].fks
    requires !Resolves(Purged(schema, store, selected, sessions, done), row, fk)
    ensures t !in done && fk.parent in done && NeedsFirst(schema, store, selected, sessions, t, fk.parent)
  {
    if fk.parent !in done || !Doomed(schema, selected, sessions, t, row) {
      StaysResolved(schema, store, selected, sessions, done, t, row, fk);
    }
    hide Doomed;
    assert RowResolves(schema, store, t, row) && Resolves(store, row, fk);
    assert forall x: Row :: x in store[fk.parent] && !Doomed(schema, selected, sessions, fk.parent, x) ==>
      x in Purged(schema, store, selected, sessions, done)[fk.parent];
    var target: Row :| target in store[fk.parent] && Has(target, "id") && At(target, "id") == At(row, fk.column);
  }

  lemma NotInSuffix(s: seq<Table>, m: nat, i: nat)
    requires m < i <= |s| && Distinct(s)
    ensures s[m] !in s[i..]
  {
    var rest := s[i..];
    forall x | 0 <= x < |rest| ensures rest[x] != s[m] {
      assert s[m] != s[i + x];
    }
  }

  // ------------------------------------------------------- the script

  datatype Result = Done(store: Store, deleted: map<Table, nat>) | Rejected

  /** The tables, last first, with the deletes issued so far. */
  ghost predicate StepsSound(schema: Schema, store: Store, selected: Selection, sessions: set<Uuid>,
                             ordered: seq<Table>, i: nat)
    requires store.Keys == schema.Keys && i <= |ordered|
  {
    forall k :: i <= k < |ordered| ==>
      NoDangling(schema, Purged(schema, store, selected, sessions, Elems(ordered[k..])))
  }

  /** The report counts, for each table that lost rows, how many. */
  ghost predicate Accounted(store: Store, db: Store, deleted: map<Table, nat>) {
    && db.Keys == store.Keys
    && forall t :: t in store ==> |store[t]| - |db[t]| == if t in deleted then deleted[t] else 0
  }

  lemma PurgedStep(schema: Schema, store: Store, selected: Selection, sessions: set<Uuid>, done: set<Table>, t: Table,
                   deleted: map<Table, nat>)
    requires store.Keys == schema.Keys && t in schema && t !in done && deleted.Keys <= done
    requires Accounted(store, Purged(schema, store, selected, sessions, done), deleted)
    ensures var rest := Survivors(schema, selected, sessions, t, store[t]);
            var db := Purged(schema, store, selected, sessions, done)[t := rest];
            && t in Purged(schema, store, selected, sessions, done)
            && Purged(schema, store, selected, sessions, done)[t] == store[t] && |rest| <= |store[t]|
            && db == Purged(schema, store, selected, sessions, {t} + done)
            && Accounted(store, db, if |rest| < |store[t]| then deleted[t := |store[t]| - |rest|] else deleted)
  {
    hide Doomed, Survivors;
    SurvivorsSize(schema, selected, sessions, t, store[t]);
  }

  method DeleteAll(schema: Schema, store: Store, selected: Selection, sessions: set<Uuid>, ordered: seq<Table>)
    returns (ok: bool, db: Store, deleted: map<Table, nat>)
    requires store.Keys == schema.Keys && Distinct(ordered) && Elems(ordered) == schema.Keys
    ensures ok <==> StepsSound(schema, store, selected, sessions, ordered, 0)
    ensures ok ==> db == Purged(schema, store, selected, sessions, schema.Keys) && Accounted(store, db, deleted)
  {
    hide Doomed, NoDangling, Survivors, Accounted, Purged;
    db, deleted := store, map[];
    var i := |ordered|;
    NothingPurged(schema, store, selected, sessions);
    assert Elems(ordered[i..]) == {};
    while i > 0
      invariant i <= |ordered| && db == Purged(schema, store, selected, sessions, Elems(ordered[i..]))
      invariant StepsSound(schema, store, selected, sessions, ordered, i)
      invariant deleted.Keys <= Elems(ordered[i..]) && Accounted(store, db, deleted)
    {
      i := i - 1;
      var t := ordered[i];
      SuffixStep(ordered, i);
      PurgedStep(schema, store, selected, sessions, Elems(ordered[i + 1..]), t, deleted);
      var rest := Survivors(schema, selected, sessions, t, db[t]);
      if |rest| < |db[t]| {
        deleted := deleted[t := |db[t]| - |rest|];
      }
      db := db[t := rest];
      if !NoDangling(schema, db) {
        return false, db, deleted;
      }
    }
    assert ordered[0..] == ordered;
    ok := true;
  }

  lemma NothingPurged(schema: Schema, store: Store, selected: Selection, sessions: set<Uuid>)
    requires store.Keys == schema.Keys
    ensures Purged(schema, store, selected, sessions, {}) == store && Accounted(store, store, map[])
  {
  }

  lemma SuffixStep(ordered: seq<Table>, i: nat)
    requires i < |ordered| && Distinct(ordered)
    ensures ordered[i] !in Elems(ordered[i + 1..]) && ordered[i] in Elems(ordered)
    ensures Elems(ordered[i..]) == {ordered[i]} + Elems(ordered[i + 1..])
  {
    NotInSuffix(ordered, i, i + 1);
    assert ordered[i..] == [ordered[i]] + ordered[i + 1..];
  }

  lemma {:induction false} SurvivorsSize(schema: Schema, selected: Selection, sessions: set<Uuid>, t: Table,
                                         rows: seq<Row>)
    requires t in schema
    ensures |Survivors(schema, selected, sessions, t, rows)| <= |rows|
  {
    if rows != [] { SurvivorsSize(schema, selected, sessions, t, rows[..|rows| - 1]); }
  }

  /** `update sessions set current_stage, status, updated_at where id in sessions` */
  function ResetSessions(rows: seq<Row>, sessions: set<Uuid>, now: int): seq<Row> {
    seq(|rows|, k requires 0 <= k < |rows| =>
      if Has(rows[k], "id") && At(rows[k], "id") in sessions
      then rows[k]["current_stage" := Text(Chars("normalize_discovery"))]["status" := Text(Chars("needs_review"))]
                ["updated_at" := Atom(now)]
      else rows[k])
  }

  /** What the delete of a table matches: the selected ids if there are some, or else the rows of the sessions. */
  ghost predicate Deletes(schema: Schema, selected: Selection, sessions: set<Uuid>, t: Table, row: Row)
    requires t in schema
  {
    if t in selected && selected[t] != {} && "id" in schema[t].columns
    then exists u :: u in selected[t] && CellIs(row, "id", u)
    else "session_id" in schema[t].columns && CarriesOne(row, sessions)
  }

  /** Three tables stay as they are; every other one, but for `sessions`, keeps the rows no delete matches. */
  ghost predicate PurgedByName(schema: Schema, store: Store, selected: Selection, sessions: set<Uuid>, after: Store)
    requires store.Keys == schema.Keys
  {
    && after.Keys == store.Keys
    && forall t :: t in store && t != "sessions" ==>
         if t == "opportunities" || t == "knowledge_documents" || t == "knowledge_sections" then after[t] == store[t]
         else IsFilter(store[t], after[t], (r: Row) => !Deletes(schema, selected, sessions, t, r))
  }

  lemma {:induction false} SurvivorsAreFilter(schema: Schema, selected: Selection, sessions: set<Uuid>, t: Table,
                                              rows: seq<Row>, keep: Row -> bool)
    requires t in schema && forall r: Row :: keep(r) <==> !Doomed(schema, selected, sessions, t, r)
    ensures IsFilter(rows, Survivors(schema, selected, sessions, t, rows), keep)
  {
    hide Doomed;
    if rows == [] {
      NothingFiltered(keep);
    } else {
      var init, last := rows[..|rows| - 1], rows[|rows| - 1];
      SurvivorsAreFilter(schema, selected, sessions, t, init, keep);
      FilterSnoc(init, Survivors(schema, selected, sessions, t, init), keep, last);
      assert rows == init + [last];
    }
  }

  lemma PreservedIs(t: Table)
    ensures Preserved(t) <==> PurgeSkips(t)
  {
  }

  lemma DoomedIs(schema: Schema, selected: Selection, sessions: set<Uuid>, t: Table, row: Row)
    requires t in schema && !Preserved(t)
    ensures Doomed(schema, selected, sessions, t, row) <==> Deletes(schema, selected, sessions, t, row)
  {
    hide Preserved;
    if Has(row, "id") { assert CellIs(row, "id", At(row, "id")); }
    if Has(row, "session_id") { assert CellIs(row, "session_id", At(row, "session_id")); }
  }

  lemma PurgedIsByName(schema: Schema, store: Store, selected: Selection, sessions: set<Uuid>, after: Store)
    requires store.Keys == schema.Keys == after.Keys
    requires forall t :: t in store && t != "sessions" ==>
      after[t] == Survivors(schema, selected, sessions, t, store[t])
    ensures PurgedByName(schema, store, selected, sessions, after)
  {
    hide Doomed, Deletes, Survivors, Preserved, IsFilter;
    forall t | t in store && t != "sessions"
      ensures if t == "opportunities" || t == "knowledge_documents" || t == "knowledge_sections"
              then after[t] == store[t]
              else IsFilter(store[t], after[t], (r: Row) => !Deletes(schema, selected, sessions, t, r))
    {
      PreservedIs(t);
      if Preserved(t) {
        PreservedStays(schema, selected, sessions, t, store[t]);
      } else {
        forall r: Row ensures Doomed(schema, selected, sessions, t, r) <==> Deletes(schema, selected, sessions, t, r) {
          DoomedIs(schema, selected, sessions, t, r);
        }
        SurvivorsAreFilter(schema, selected, sessions, t, store[t],
                           (r: Row) => !Deletes(schema, selected, sessions, t, r));
      }
    }
  }

  /** Row by row: the sessions of the set start over, the others stay. */
  ghost predicate SessionsReset(before: seq<Row>, after: seq<Row>, sessions: set<Uuid>, now: int) {
    |after| == |before| && forall k :: 0 <= k < |before| ==>
      if "id" in before[k] && before[k]["id"].Ref? && before[k]["id"].id in sessions
      then StartsOver(before[k], after[k], now) else after[k] == before[k]
  }

  ghost predicate StartsOver(before: Row, after: Row, now: int) {
    && after.Keys == before.Keys + {"current_stage", "status", "updated_at"}
    && after["current_stage"] == Text(Chars("normalize_discovery"))
    && after["status"] == Text(Chars("needs_review"))
    && after["updated_at"] == Atom(now)
    && forall c :: c in before && c != "current_stage" && c != "status" && c != "updated_at" ==> after[c] == before[c]
  }

  lemma SessionsAreReset(rows: seq<Row>, sessions: set<Uuid>, now: int)
    ensures SessionsReset(rows, ResetSessions(rows, sessions, now), sessions, now)
  {
    assert |"current_stage"| == 13 && |"status"| == 6 && |"updated_at"| == 10;
    hide Chars;
  }

  lemma PreservedByName()
    ensures forall t :: t in ["opportunities", "knowledge_documents", "knowledge_sections"] ==>
      Preserved(t) && t != "sessions"
  {
    assert |"opportunities"| == 13 && |"knowledge_documents"| == 19 && |"knowledge_sections"| == 18;
    assert |"sessions"| == 8;
  }

  lemma ResetKeepsReferences(schema: Schema, store: Store, sessions: set<Uuid>, now: int)
    requires NoDangling(schema, store) && "sessions" in store
    ensures NoDangling(schema, store["sessions" := ResetSessions(store["sessions"], sessions, now)])
  {
    var after := store["sessions" := ResetSessions(store["sessions"], sessions, now)];
    ResetKeepsIds(store["sessions"], sessions, now);
    forall t, u | t in store && HasId(store[t], u) ensures HasId(after[t], u) { }
    assert IdsKept(store, after);
    forall t, row | t in after && row in after[t] ensures RowResolves(schema, after, t, row) {
      if t == "sessions" {
        var k :| 0 <= k < |store[t]| && row == ResetSessions(store[t], sessions, now)[k];
        assert forall c :: Has(row, c) ==> Has(store[t][k], c) && At(row, c) == At(store[t][k], c);
        assert RowResolves(schema, store, t, store[t][k]);
      } else {
        ResolvesIsMonotone(schema, store, after, t, row);
      }
    }
  }

  lemma ResetKeepsIds(rows: seq<Row>, sessions: set<Uuid>, now: int)
    ensures forall u :: HasId(rows, u) ==> HasId(ResetSessions(rows, sessions, now), u)
  {
    assert |"current_stage"| == 13 && |"status"| == 6 && |"updated_at"| == 10 && |"id"| == 2;
    var after := ResetSessions(rows, sessions, now);
    forall u | HasId(rows, u) ensures HasId(after, u) {
      var r: Row :| r in rows && Has(r, "id") && At(r, "id") == u;
      var k :| 0 <= k < |rows| && rows[k] == r;
      assert Has(after[k], "id") && At(after[k], "id") == u;
    }
  }

  /** Each row the purge removes hangs off the given sessions. */
  lemma DoomedIsReached(schema: Schema, store: Store, selected: Selection, sessions: set<Uuid>, t: Table, row: Row)
    requires WellKeyed(schema, store) && SessionsAreReferenced(schema) && IsDeletable(schema, store, sessions, selected)
    requires t in store && row in store[t] && Doomed(schema, selected, sessions, t, row)
    ensures !Preserved(t) && Chained(schema, store, sessions, t, row)
  {
    hide Saturated, Keyed, Chained, Reached, SessionSeeds;
    if t in selected && selected[t] != {} && "id" in schema[t].columns {
      assert schema[t].idKey by { DeletableIsKeyed(schema, store, selected, sessions, t); }
      ReachedIsChained(schema, store, PRESERVE_SESSION_TABLES + GLOBAL_TABLE_EXCLUSIONS, sessions, t, row);
    } else {
      OfSessionIsChained(schema, store, sessions, t, row);
    }
  }

  lemma DeletableIsKeyed(schema: Schema, store: Store, selected: Selection, sessions: set<Uuid>, t: Table)
    requires schema.Keys <= store.Keys && t in schema && t in selected && t != "sessions"
    requires IsDeletable(schema, store, sessions, selected)
    ensures schema[t].idKey
  {
    hide Saturated, Sound, Where, IdsOf;
  }

  /** Collect, then delete children first. */
  method PurgeRows(schema: Schema, store: Store, tables: seq<Table>, sessions: set<Uuid>)
    returns (r: Result)
    requires WellKeyed(schema, store) && Elems(tables) == schema.Keys && "sessions" in schema
    ensures IsDeletable(schema, store, sessions, DeletableIds(schema, store, tables, sessions))
    ensures SelectedByName(schema, store, sessions, (t: Table) => PurgeSkips(t),
                           DeletableIds(schema, store, tables, sessions))
    ensures r.Done? ==> NoDangling(schema, r.store)
    ensures r.Done? ==>
      r.store == Purged(schema, store, DeletableIds(schema, store, tables, sessions), sessions, schema.Keys)
    ensures r.Done? ==> Accounted(store, r.store, r.deleted)
    // It succeeds exactly when the selection is closed and its children go first, as on an acyclic schema they do.
    ensures NoDangling(schema, store) && KeyedParents(schema) ==>
      var selected := DeletableIds(schema, store, tables, sessions);
      (r.Done? <==> (&& ClosedUnderReferences(schema, store, selected, sessions)
                     && ChildrenGoFirst(schema, store, selected, sessions, FullOrder(FkGraph(schema, schema.Keys)))))
    ensures Acyclic(FkGraph(schema, schema.Keys)) ==>
      ChildrenGoFirst(schema, store, DeletableIds(schema, store, tables, sessions), sessions,
                      FullOrder(FkGraph(schema, schema.Keys)))
  {
    hide Doomed, Purged, NoDangling, Accounted, KeyedParents, ClosedUnderReferences, Acyclic, FullOrder, Keyed,
         IsDeletable, DeletableIds, ChildrenGoFirst, SelectedByName;
    var chosen := CollectDeletableIds(schema, store, tables, sessions);
    var ordered := TableOrder.TopologicalOrder(schema, schema.Keys);
    FullOrderFacts(FkGraph(schema, schema.Keys));
    var ok, db, deleted := DeleteAll(schema, store, chosen, sessions, ordered);
    AcceptedIff(schema, store, chosen, sessions, ordered);
    if !ok {
      return Rejected;
    }
    LastStep(schema, store, chosen, sessions, ordered);
    r := Done(db, deleted);
  }

  method PurgeGeneratedState(schema: Schema, store: Store, tables: seq<Table>, sessions: set<Uuid>, now: int)
    returns (r: Result, ghost rest: Store)
    requires WellKeyed(schema, store) && Elems(tables) == schema.Keys && "sessions" in schema
    ensures IsDeletable(schema, store, sessions, DeletableIds(schema, store, tables, sessions))
    // What is left is what was not doomed, with the sessions reset, and no reference dangles.
    ensures r.Done? ==>
      rest == Purged(schema, store, DeletableIds(schema, store, tables, sessions), sessions, schema.Keys)
    ensures r.Done? ==> Accounted(store, rest, r.deleted)
    ensures r.Done? ==> rest["sessions"] == store["sessions"]
    ensures r.Done? ==> r.store == rest["sessions" := ResetSessions(store["sessions"], sessions, now)]
    ensures r.Done? ==> NoDangling(schema, r.store)
    // Preserved and global tables lose no row.
    ensures r.Done? ==> forall t :: t in store && Preserved(t) ==> rest[t] == store[t]
    ensures r.Done? ==> forall t :: t in ["opportunities", "knowledge_documents", "knowledge_sections"] ==>
      t in store ==> t in r.store && r.store[t] == store[t]
    // Of the other tables exactly the selected rows, or else those of the sessions, are gone.
    ensures r.Done? ==>
      PurgedByName(schema, store, DeletableIds(schema, store, tables, sessions), sessions, r.store)
    ensures SelectedByName(schema, store, sessions, (t: Table) => PurgeSkips(t),
                           DeletableIds(schema, store, tables, sessions))
    // The given sessions are back at the first stage, to be reviewed; nothing else about them or the others changes.
    ensures r.Done? ==> "sessions" in r.store && SessionsReset(store["sessions"], r.store["sessions"], sessions, now)
    // It succeeds exactly when the selection is closed and its children go first, as on an acyclic schema they do.
    ensures NoDangling(schema, store) && KeyedParents(schema) ==>
      var selected := DeletableIds(schema, store, tables, sessions);
      (r.Done? <==> (&& ClosedUnderReferences(schema, store, selected, sessions)
                     && ChildrenGoFirst(schema, store, selected, sessions, FullOrder(FkGraph(schema, schema.Keys)))))
    ensures Acyclic(FkGraph(schema, schema.Keys)) ==>
      ChildrenGoFirst(schema, store, DeletableIds(schema, store, tables, sessions), sessions,
                      FullOrder(FkGraph(schema, schema.Keys)))
  {
    hide Doomed, NoDangling, Accounted, KeyedParents, ClosedUnderReferences, Acyclic, Keyed, IsDeletable, ResetSessions,
         DeletableIds, ChildrenGoFirst, FullOrder, SessionsReset, SelectedByName, PurgedByName;
    rest := store;
    r := PurgeRows(schema, store, tables, sessions);
    ghost var selected := DeletableIds(schema, store, tables, sessions);
    if r.Done? {
      rest := r.store;
      PreservedStay(schema, store, selected, sessions);
      assert Preserved("sessions");
      ResetKeepsReferences(schema, r.store, sessions, now);
      SessionsAreReset(store["sessions"], sessions, now);
      PreservedByName();
      r := Done(r.store["sessions" := ResetSessions(r.store["sessions"], sessions, now)], r.deleted);
      PurgedIsByName(schema, store, selected, sessions, r.store);
    }
  }

  lemma LastStep(schema: Schema, store: Store, selected: Selection, sessions: set<Uuid>, ordered: seq<Table>)
    requires store.Keys == schema.Keys && Elems(ordered) == schema.Keys && ordered != []
    requires StepsSound(schema, store, selected, sessions, ordered, 0)
    ensures NoDangling(schema, Purged(schema, store, selected, sessions, schema.Keys))
  {
    hide Doomed, NoDangling, Purged;
    assert ordered[0..] == ordered;
  }

  lemma {:induction false} PreservedStays(schema: Schema, selected: Selection, sessions: set<Uuid>, t: Table,
                                          rows: seq<Row>)
    requires t in schema && Preserved(t)
    ensures Survivors(schema, selected, sessions, t, rows) == rows
  {
    if rows != [] { PreservedStays(schema, selected, sessions, t, rows[..|rows| - 1]); }
  }

  lemma PreservedStay(schema: Schema, store: Store, selected: Selection, sessions: set<Uuid>)
    requires store.Keys == schema.Keys
    ensures forall t :: t in store && Preserved(t) ==>
      Purged(schema, store, selected, sessions, schema.Keys)[t] == store[t]
  {
    forall t | t in store && Preserved(t)
      ensures Purged(schema, store, selected, sessions, schema.Keys)[t] == store[t]
    {
      PreservedStays(schema, selected, sessions, t, store[t]);
    }
  }

  /** The deletes go through exactly when the selection is closed and every child goes before its parent. */
  lemma StepsSoundIff(schema: Schema, store: Store, selected: Selection, sessions: set<Uuid>, ordered: seq<Table>)
    requires WellKeyed(schema, store) && NoDangling(schema, store) && KeyedParents(schema)
    requires ordered != [] && Distinct(ordered) && Elems(ordered) == schema.Keys
    ensures StepsSound(schema, store, selected, sessions, ordered, 0) <==>
            ClosedUnderReferences(schema, store, selected, sessions)
            && ChildrenGoFirst(schema, store, selected, sessions, ordered)
  {
    hide Doomed, Purged, NoDangling, KeyedParents, ClosedUnderReferences, NeedsFirst;
    PurgeIsSoundIffClosed(schema, store, selected, sessions);
    if StepsSound(schema, store, selected, sessions, ordered, 0) {
      LastStep(schema, store, selected, sessions, ordered);
      forall i, j | 0 <= i < j < |ordered|
        ensures !NeedsFirst(schema, store, selected, sessions, ordered[i], ordered[j])
      {
        StepIsSoundIff(schema, store, selected, sessions, Elems(ordered[j..]));
        NotInSuffix(ordered, i, j);
        assert ordered[j..][0] == ordered[j] && ordered[i] in Elems(ordered);
      }
    }
    if ClosedUnderReferences(schema, store, selected, sessions)
       && ChildrenGoFirst(schema, store, selected, sessions, ordered) {
      forall k | 0 <= k < |ordered|
        ensures NoDangling(schema, Purged(schema, store, selected, sessions, Elems(ordered[k..])))
      {
        StepIsSoundIff(schema, store, selected, sessions, Elems(ordered[k..]));
        forall t, q | t in schema && t !in Elems(ordered[k..]) && q in Elems(ordered[k..])
          ensures !NeedsFirst(schema, store, selected, sessions, t, q)
        {
          SplitAt(ordered, k, t, q);
        }
      }
    }
  }

  lemma SplitAt(ordered: seq<Table>, k: nat, t: Table, q: Table)
    requires k < |ordered| && t in Elems(ordered) && t !in Elems(ordered[k..]) && q in Elems(ordered[k..])
    ensures exists i, j :: 0 <= i < j < |ordered| && ordered[i] == t && ordered[j] == q
  {
    var i :| 0 <= i < |ordered| && ordered[i] == t;
    var j :| 0 <= j < |ordered[k..]| && ordered[k..][j] == q;
    assert forall x :: k <= x < |ordered| ==> ordered[x] in ordered[k..];
    assert ordered[k + j] == q;
  }

  /** With parents first nothing has to go before its own children. */
  lemma ParentsFirst(schema: Schema, store: Store, selected: Selection, sessions: set<Uuid>, ordered: seq<Table>)
    requires store.Keys == schema.Keys && Distinct(ordered) && Elems(ordered) == schema.Keys
    requires DepsFirst(FkGraph(schema, schema.Keys), ordered)
    ensures ChildrenGoFirst(schema, store, selected, sessions, ordered)
  {
    hide Doomed;
    forall i, j | 0 <= i < j < |ordered|
      ensures !NeedsFirst(schema, store, selected, sessions, ordered[i], ordered[j])
    {
      forall m | 0 <= m < i ensures ordered[..i][m] != ordered[j] { assert ordered[m] != ordered[j]; }
      assert ordered[j] !in FkGraph(schema, schema.Keys)[ordered[i]];
      assert ordered[j] in Elems(ordered) && ordered[i] != ordered[j];
    }
  }

  lemma AcceptedIff(schema: Schema, store: Store, selected: Selection, sessions: set<Uuid>, ordered: seq<Table>)
    requires WellKeyed(schema, store) && "sessions" in schema
    requires ordered == FullOrder(FkGraph(schema, schema.Keys)) && Distinct(ordered) && Elems(ordered) == schema.Keys
    ensures ordered != []
    ensures NoDangling(schema, store) && KeyedParents(schema) ==>
      (StepsSound(schema, store, selected, sessions, ordered, 0) <==>
       ClosedUnderReferences(schema, store, selected, sessions)
       && ChildrenGoFirst(schema, store, selected, sessions, ordered))
    ensures Acyclic(FkGraph(schema, schema.Keys)) ==> ChildrenGoFirst(schema, store, selected, sessions, ordered)
  {
    hide Doomed, Purged, NoDangling, KeyedParents, ClosedUnderReferences, Acyclic, Order, StepsSound, ChildrenGoFirst;
    assert "sessions" in Elems(ordered);
    if NoDangling(schema, store) && KeyedParents(schema) {
      StepsSoundIff(schema, store, selected, sessions, ordered);
    }
    if Acyclic(FkGraph(schema, schema.Keys)) {
      AcyclicOrder(FkGraph(schema, schema.Keys));
      ParentsFirst(schema, store, selected, sessions, ordered);
    }
  }

  lemma AcyclicOrder(g: Graph)
    requires Acyclic(g) && Closed(g)
    ensures FullOrder(g) == Order(g) && DepsFirst(g, FullOrder(g))
  {
    hide Order, Acyclic;
    OrderComplete(g);
    OrderFacts(g);
    assert g.Keys - Elems(Order(g)) == {};
    assert FullOrder(g) == Order(g);
  }

  // ------------------------------------------------------- saturation is not closure

  const NOTES_SCHEMA: Schema := map[
    "sessions" := TableDef({"id"}, true, {}),
    "notes" := TableDef({"id", "session_id", "parent_id"}, true, {ForeignKey("parent_id", "notes")})]

  const FIRST_NOTE: Row := map["id" := Ref(11), "session_id" := Ref(1), "parent_id" := Null]
  const REPLY_NOTE: Row := map["id" := Ref(12), "session_id" := Ref(2), "parent_id" := Ref(11)]

  const NOTES_STORE: Store := map[
    "sessions" := [map["id" := Ref(1)], map["id" := Ref(2)]],
    "notes" := [FIRST_NOTE, REPLY_NOTE]]

  lemma NotesOfTheSession(selected: Selection)
    requires IsDeletable(NOTES_SCHEMA, NOTES_STORE, {1}, selected)
    ensures "notes" in selected && selected["notes"] == {11}
  {
    NotesAreSeeds();
    hide Saturated, Eligible, PurgeSeeds, Reached;
  }

  lemma NotesAreSeeds()
    ensures "notes" in PurgeSeeds(NOTES_SCHEMA, NOTES_STORE, {1})
    ensures PurgeSeeds(NOTES_SCHEMA, NOTES_STORE, {1})["notes"] == {11}
  {
    var rows := NOTES_STORE["notes"];
    assert FIRST_NOTE in rows;
    assert FIRST_NOTE in Where(rows, "session_id", {1}) && REPLY_NOTE !in Where(rows, "session_id", {1});
    assert IdsOf(Where(rows, "session_id", {1})) == {11};
  }

  /**
   A table that already holds rows of the session is not visited again: the reply of another
   session is never selected, whatever the order of the tables, and its reference would
   dangle.  So the purge of session 1 is rejected.
   */
  lemma SaturationIsNotClosure(selected: Selection)
    requires IsDeletable(NOTES_SCHEMA, NOTES_STORE, {1}, selected)
    ensures !ClosedUnderReferences(NOTES_SCHEMA, NOTES_STORE, selected, {1})
  {
    NotesOfTheSession(selected);
    NotesDoomed(selected);
    NotesAreStored();
    hide *;
    OpenReference(NOTES_SCHEMA, NOTES_STORE, selected, {1}, "notes", REPLY_NOTE, ForeignKey("parent_id", "notes"),
                  FIRST_NOTE);
  }

  lemma NotesAreStored()
    ensures NOTES_STORE.Keys == NOTES_SCHEMA.Keys && "notes" in NOTES_STORE
    ensures FIRST_NOTE in NOTES_STORE["notes"] && REPLY_NOTE in NOTES_STORE["notes"]
    ensures ForeignKey("parent_id", "notes") in NOTES_SCHEMA["notes"].fks
    ensures Has(REPLY_NOTE, "parent_id") && Has(FIRST_NOTE, "id") && At(FIRST_NOTE, "id") == At(REPLY_NOTE, "parent_id")
  {
    var rows := NOTES_STORE["notes"];
    assert rows[0] == FIRST_NOTE && rows[1] == REPLY_NOTE;
  }

  lemma OpenReference(schema: Schema, store: Store, selected: Selection, sessions: set<Uuid>,
                      t: Table, row: Row, fk: ForeignKey, target: Row)
    requires store.Keys == schema.Keys && t in store && row in store[t] && fk in schema[t].fks
    requires fk.parent in store && target in store[fk.parent]
    requires Has(row, fk.column) && Has(target, "id") && At(target, "id") == At(row, fk.column)
    requires Doomed(schema, selected, sessions, fk.parent, target) && !Doomed(schema, selected, sessions, t, row)
    ensures !ClosedUnderReferences(schema, store, selected, sessions)
  {
  }

  lemma NotesDoomed(selected: Selection)
    requires "notes" in selected && selected["notes"] == {11}
    ensures Doomed(NOTES_SCHEMA, selected, {1}, "notes", FIRST_NOTE)
    ensures !Doomed(NOTES_SCHEMA, selected, {1}, "notes", REPLY_NOTE)
  {
    assert !Preserved("notes");
  }
}
