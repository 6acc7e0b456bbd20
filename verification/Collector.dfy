/**
 Collecting what hangs off a set of sessions: `_collect_rows` of
 `scripts/clone_local_project_session.py` and `_collect_deletable_ids` of
 `scripts/run_react_runtime_clone_comparison.py`, which share the saturation loop.
 */
module Collector {
  import opened Names
  import opened Relational

  type Selection = map<Table, set<Uuid>>

  /** The row references, through `fk`, a selected row. */
  predicate RefersVia(row: Row, fk: ForeignKey, selected: Selection) {
    Has(row, fk.column) && fk.parent in selected && At(row, fk.column) in selected[fk.parent]
  }

  predicate Refers(row: Row, fks: set<ForeignKey>, selected: Selection) {
    exists fk :: fk in fks && RefersVia(row, fk, selected)
  }

  /** A table the saturation loop may still add. */
  predicate Candidate(schema: Schema, excluded: set<Table>, selected: Selection, t: Table) {
    t in schema && schema[t].idKey && t !in excluded && t !in selected
  }

  /** Row `u` of `t` is a seed, or references a row linked to the seeds by `k - 1` foreign keys. */
  ghost predicate Linked(schema: Schema, store: Store, seeds: Selection, t: Table, u: Uuid, k: nat)
    decreases k
  {
    if k == 0 then t in seeds && u in seeds[t]
    else t in store && t in schema && exists row: Row, fk ::
      row in store[t] && Has(row, "id") && At(row, "id") == u && fk in schema[t].fks && Has(row, fk.column) &&
      Linked(schema, store, seeds, fk.parent, At(row, fk.column), k - 1)
  }

  ghost predicate Reached(schema: Schema, store: Store, seeds: Selection, t: Table, u: Uuid) {
    exists k: nat :: Linked(schema, store, seeds, t, u, k)
  }

  /** Only reached rows are selected, the seeds as given. */
  ghost predicate Sound(schema: Schema, store: Store, seeds: Selection, selected: Selection) {
    && (forall t :: t in seeds ==> t in selected && selected[t] == seeds[t])
    && (forall t, u :: t in selected && u in selected[t] ==> Reached(schema, store, seeds, t, u))
  }

  /** No table outside the selection has a row that references a selected one. */
  ghost predicate Saturated(schema: Schema, store: Store, excluded: set<Table>, selected: Selection) {
    forall t, row: Row :: Candidate(schema, excluded, selected, t) && t in store && row in store[t] ==>
      !Refers(row, schema[t].fks, selected)
  }

  /** The ids of the rows that reference a selected row. */
  ghost function MatchSet(rows: seq<Row>, fks: set<ForeignKey>, selected: Selection): set<Uuid> {
    set r: Row | r in rows && Has(r, "id") && Refers(r, fks, selected) :: At(r, "id")
  }

  /** `b` has the tables of `a`, as selected there, and maybe more. */
  ghost predicate GrowsTo(a: Selection, b: Selection) {
    forall t :: t in a ==> t in b && b[t] == a[t]
  }

  /** All rows of `t` that referenced a selected row when `t` was added are selected, and only those. */
  ghost predicate AllMatched(schema: Schema, store: Store, seeds: Selection, selected: Selection, t: Table)
    requires t in schema && t in store && t in selected
  {
    exists past: Selection ::
      GrowsTo(seeds, past) && GrowsTo(past, selected) && t !in past
      && selected[t] == MatchSet(store[t], schema[t].fks, past)
  }

  /** A table added to the seeds is an eligible one, with every row that matched, at least one. */
  ghost predicate Eligible(schema: Schema, store: Store, excluded: set<Table>, seeds: Selection, selected: Selection) {
    forall t :: t in selected && t !in seeds ==>
      Candidate(schema, excluded, seeds, t) && selected[t] != {} && t in store && selected[t] <= IdsOf(store[t])
      && AllMatched(schema, store, seeds, selected, t)
  }

  /** Of an added table every row that references a seed is selected. */
  lemma ReferringRowsAreSelected(schema: Schema, store: Store, excluded: set<Table>, seeds: Selection,
                                 selected: Selection, t: Table, row: Row)
    requires Eligible(schema, store, excluded, seeds, selected) && t in selected && t !in seeds
    requires row in store[t] && Has(row, "id") && Refers(row, schema[t].fks, seeds)
    ensures At(row, "id") in selected[t]
  {
    hide MatchSet, Refers, IdsOf;
    var past: Selection :| GrowsTo(seeds, past) && selected[t] == MatchSet(store[t], schema[t].fks, past);
    RefersGrows(row, schema[t].fks, seeds, past);
    ReferringMatches(store[t], schema[t].fks, past, row);
  }

  lemma RefersGrows(row: Row, fks: set<ForeignKey>, a: Selection, b: Selection)
    requires GrowsTo(a, b) && Refers(row, fks, a)
    ensures Refers(row, fks, b)
  {
    var fk :| fk in fks && RefersVia(row, fk, a);
    assert RefersVia(row, fk, b);
  }

  lemma ReferringMatches(rows: seq<Row>, fks: set<ForeignKey>, selected: Selection, row: Row)
    requires row in rows && Has(row, "id") && Refers(row, fks, selected)
    ensures At(row, "id") in MatchSet(rows, fks, selected)
  {
  }

  /** The queries over the foreign keys of one table. */
  method MatchedIds(rows: seq<Row>, fks: set<ForeignKey>, selected: Selection) returns (matched: set<Uuid>)
    ensures matched == MatchSet(rows, fks, selected)
  {
    matched := {};
    var todo := fks;
    while todo != {}
      invariant todo <= fks
      invariant matched == MatchSet(rows, fks - todo, selected)
      decreases todo
    {
      var fk :| fk in todo;
      assert forall r: Row :: Refers(r, fks - (todo - {fk}), selected) <==>
                         Refers(r, fks - todo, selected) || RefersVia(r, fk, selected);
      if fk.parent in selected && selected[fk.parent] != {} {
        matched := matched + set r: Row | r in rows && Has(r, "id") && RefersVia(r, fk, selected) :: At(r, "id");
      }
      todo := todo - {fk};
    }
    assert fks - todo == fks;
  }

  lemma LinkOnce(schema: Schema, store: Store, seeds: Selection, selected: Selection, t: Table, row: Row)
    requires Sound(schema, store, seeds, selected) && t in schema && t in store && row in store[t]
    requires Has(row, "id") && Refers(row, schema[t].fks, selected)
    ensures Reached(schema, store, seeds, t, At(row, "id"))
  {
    var fk :| fk in schema[t].fks && RefersVia(row, fk, selected);
    var p := At(row, fk.column);
    var k: nat :| Linked(schema, store, seeds, fk.parent, p, k);
    assert Linked(schema, store, seeds, t, At(row, "id"), k + 1);
  }

  // ------------------------------------------------------- the selection, as a function

  /** What visiting a table makes of the selection. */
  ghost function Visit(schema: Schema, store: Store, excluded: set<Table>, selected: Selection, t: Table): Selection {
    if Candidate(schema, excluded, selected, t) && t in store && MatchSet(store[t], schema[t].fks, selected) != {}
    then selected[t := MatchSet(store[t], schema[t].fks, selected)]
    else selected
  }

  ghost function VisitAll(schema: Schema, store: Store, excluded: set<Table>, selected: Selection,
                          tables: seq<Table>): Selection {
    if tables == [] then selected
    else
      var before := VisitAll(schema, store, excluded, selected, tables[..|tables| - 1]);
      Visit(schema, store, excluded, before, tables[|tables| - 1])
  }

  lemma {:induction false} VisitsAdd(schema: Schema, store: Store, excluded: set<Table>, selected: Selection,
                                     tables: seq<Table>)
    ensures GrowsTo(selected, VisitAll(schema, store, excluded, selected, tables))
    ensures VisitAll(schema, store, excluded, selected, tables) == selected
         || schema.Keys - VisitAll(schema, store, excluded, selected, tables).Keys < schema.Keys - selected.Keys
  {
    hide MatchSet;
    if tables != [] {
      VisitsAdd(schema, store, excluded, selected, tables[..|tables| - 1]);
      var before, t := VisitAll(schema, store, excluded, selected, tables[..|tables| - 1]), tables[|tables| - 1];
      if Visit(schema, store, excluded, before, t) != before {
        assert t in schema.Keys - before.Keys;
      }
    }
  }

  /** Passes over the tables until one adds nothing. */
  ghost function Saturation(schema: Schema, store: Store, tables: seq<Table>, excluded: set<Table>,
                            selected: Selection): Selection
    decreases schema.Keys - selected.Keys
  {
    VisitsAdd(schema, store, excluded, selected, tables);
    var next := VisitAll(schema, store, excluded, selected, tables);
    if next == selected then selected else Saturation(schema, store, tables, excluded, next)
  }

  /** The `while changed` loop; each changing pass adds a table. */
  method Saturate(schema: Schema, store: Store, tables: seq<Table>, excluded: set<Table>, seeds: Selection)
    returns (selected: Selection)
    requires WellKeyed(schema, store) && Elems(tables) == schema.Keys
    ensures selected == Saturation(schema, store, tables, excluded, seeds)
    ensures Sound(schema, store, seeds, selected) && Eligible(schema, store, excluded, seeds, selected)
    ensures Saturated(schema, store, excluded, selected)
  {
    hide Sound, Eligible, VisitAll, Candidate, MatchSet;
    selected := seeds;
    SeedsAreSound(schema, store, seeds);
    SeedsAreEligible(schema, store, excluded, seeds);
    var changed := true;
    while changed
      invariant Sound(schema, store, seeds, selected) && Eligible(schema, store, excluded, seeds, selected)
      invariant Saturation(schema, store, tables, excluded, selected)
             == Saturation(schema, store, tables, excluded, seeds)
      invariant !changed ==> Saturation(schema, store, tables, excluded, selected) == selected
      invariant !changed ==> Saturated(schema, store, excluded, selected)
      decreases schema.Keys - selected.Keys, changed
    {
      ghost var before := selected;
      selected, changed := Pass(schema, store, tables, excluded, seeds, selected);
    }
  }

  lemma SeedsAreEligible(schema: Schema, store: Store, excluded: set<Table>, seeds: Selection)
    ensures Eligible(schema, store, excluded, seeds, seeds)
  {
  }

  lemma SeedsAreSound(schema: Schema, store: Store, seeds: Selection)
    ensures Sound(schema, store, seeds, seeds)
  {
    forall t, u | t in seeds && u in seeds[t] ensures Reached(schema, store, seeds, t, u) {
      assert Linked(schema, store, seeds, t, u, 0);
    }
  }

  /** One pass over the tables. */
  method Pass(schema: Schema, store: Store, tables: seq<Table>, excluded: set<Table>, ghost seeds: Selection,
              start: Selection)
    returns (selected: Selection, changed: bool)
    requires WellKeyed(schema, store) && Elems(tables) == schema.Keys
    requires Sound(schema, store, seeds, start) && Eligible(schema, store, excluded, seeds, start)
    ensures selected == VisitAll(schema, store, excluded, start, tables)
    ensures Sound(schema, store, seeds, selected) && Eligible(schema, store, excluded, seeds, selected)
    ensures !changed ==> selected == start && Saturated(schema, store, excluded, selected)
    ensures changed ==> schema.Keys - selected.Keys < schema.Keys - start.Keys
  {
    hide Sound, Eligible, Refers, MatchSet;
    selected, changed := start, false;
    for i := 0 to |tables|
      invariant Sound(schema, store, seeds, selected) && Eligible(schema, store, excluded, seeds, selected)
      invariant selected == VisitAll(schema, store, excluded, start, tables[..i])
      invariant !changed ==> selected == start
      invariant !changed ==>
        forall t, row: Row :: t in tables[..i] && Candidate(schema, excluded, selected, t) && row in store[t] ==>
          !Refers(row, schema[t].fks, selected)
      invariant start.Keys <= selected.Keys
      invariant changed ==> exists t :: t in schema && t in selected && t !in start
    {
      var t := tables[i];
      assert t in Elems(tables);
      assert tables[..i + 1][..i] == tables[..i];
      if t !in selected && t !in excluded && schema[t].idKey {
        var matched := MatchedIds(store[t], schema[t].fks, selected);
        if matched != {} {
          Added(schema, store, excluded, seeds, selected, t, matched);
          selected, changed := selected[t := matched], true;
        } else {
          NoMatch(store[t], schema[t].fks, selected);
        }
      }
    }
    assert forall t :: t in schema ==> t in Elems(tables);
    assert tables[..|tables|] == tables;
  }

  lemma Added(schema: Schema, store: Store, excluded: set<Table>, seeds: Selection, selected: Selection, t: Table,
              matched: set<Uuid>)
    requires Sound(schema, store, seeds, selected) && Eligible(schema, store, excluded, seeds, selected)
    requires Candidate(schema, excluded, selected, t) && t in store && matched != {}
    requires matched == MatchSet(store[t], schema[t].fks, selected)
    ensures Sound(schema, store, seeds, selected[t := matched])
    ensures Eligible(schema, store, excluded, seeds, selected[t := matched])
  {
    hide AllMatched;
    forall u | u in matched ensures Reached(schema, store, seeds, t, u) && u in IdsOf(store[t]) {
      var r: Row :| r in store[t] && Has(r, "id") && Refers(r, schema[t].fks, selected) && At(r, "id") == u;
      LinkOnce(schema, store, seeds, selected, t, r);
    }
    forall q | q in selected[t := matched] && q !in seeds && q in store && q in schema
      ensures AllMatched(schema, store, seeds, selected[t := matched], q)
    {
      StillMatched(schema, store, seeds, selected, t, matched, q);
    }
  }

  lemma StillMatched(schema: Schema, store: Store, seeds: Selection, selected: Selection, t: Table,
                     matched: set<Uuid>, q: Table)
    requires GrowsTo(seeds, selected) && t !in selected && q in schema && q in store
    requires if q == t then matched == MatchSet(store[t], schema[t].fks, selected)
             else q in selected && AllMatched(schema, store, seeds, selected, q)
    ensures AllMatched(schema, store, seeds, selected[t := matched], q)
  {
    hide MatchSet;
    if q == t {
      assert GrowsTo(selected, selected[t := matched]);
    } else {
      var past: Selection :| GrowsTo(seeds, past) && GrowsTo(past, selected) && q !in past
                              && selected[q] == MatchSet(store[q], schema[q].fks, past);
      assert GrowsTo(past, selected[t := matched]);
    }
  }

  lemma NoMatch(rows: seq<Row>, fks: set<ForeignKey>, selected: Selection)
    requires Keyed(rows) && MatchSet(rows, fks, selected) == {}
    ensures forall row :: row in rows ==> !Refers(row, fks, selected)
  {
    forall row | row in rows ensures !Refers(row, fks, selected) {
      assert At(row, "id") !in MatchSet(rows, fks, selected);
    }
  }

  // ------------------------------------------------------- the two callers

  /** The rows of the given sessions in the tables that carry `session_id`. */
  ghost function SessionSeeds(schema: Schema, store: Store, excluded: set<Table>, sessions: set<Uuid>): Selection
    requires schema.Keys <= store.Keys
  {
    (map t | t in schema && t !in excluded && t != "sessions" && schema[t].idKey && "session_id" in schema[t].columns
             && IdsOf(Where(store[t], "session_id", sessions)) != {}
       :: IdsOf(Where(store[t], "session_id", sessions)))["sessions" := sessions]
  }

  method CollectSeeds(schema: Schema, store: Store, tables: seq<Table>, excluded: set<Table>, sessions: set<Uuid>)
    returns (seeds: Selection)
    requires WellKeyed(schema, store) && Elems(tables) == schema.Keys
    ensures seeds == SessionSeeds(schema, store, excluded, sessions)
  {
    hide Keyed, Where, IdsOf;
    seeds := map["sessions" := sessions];
    for i := 0 to |tables|
      invariant forall t :: t in seeds <==>
        t == "sessions" || (t in tables[..i] && t in SessionSeeds(schema, store, excluded, sessions))
      invariant forall t :: t in seeds ==> seeds[t] == SessionSeeds(schema, store, excluded, sessions)[t]
    {
      var t := tables[i];
      assert t in Elems(tables);
      assert tables[..i + 1] == tables[..i] + [t];
      if t != "sessions" && t !in excluded && schema[t].idKey && "session_id" in schema[t].columns {
        var ids := IdsOf(Where(store[t], "session_id", sessions));
        if ids != {} {
          seeds := seeds[t := ids];
        }
      }
    }
    assert forall t :: t in schema ==> t in Elems(tables);
  }

  const EXCLUDED_SESSION_TABLES: set<Table> := {"knowledge_documents", "knowledge_sections"}
  const GLOBAL_TABLE_EXCLUSIONS: set<Table> := {"knowledge_documents", "knowledge_sections"}
  const PRESERVE_SESSION_TABLES: set<Table> := {"sessions", "opportunities"}

  ghost function PurgeSeeds(schema: Schema, store: Store, sessions: set<Uuid>): Selection
    requires schema.Keys <= store.Keys
  {
    SessionSeeds(schema, store, PRESERVE_SESSION_TABLES + GLOBAL_TABLE_EXCLUSIONS, sessions)
  }

  /** The selection behind a purge. */
  ghost function DeletableIds(schema: Schema, store: Store, tables: seq<Table>, sessions: set<Uuid>): Selection
    requires schema.Keys <= store.Keys
  {
    Saturation(schema, store, tables, PRESERVE_SESSION_TABLES + GLOBAL_TABLE_EXCLUSIONS,
               PurgeSeeds(schema, store, sessions))
  }

  /** It is reached from the sessions, complete for each table added, and saturated. */
  ghost predicate IsDeletable(schema: Schema, store: Store, sessions: set<Uuid>, selected: Selection)
    requires schema.Keys <= store.Keys
  {
    var excluded, seeds := PRESERVE_SESSION_TABLES + GLOBAL_TABLE_EXCLUSIONS, PurgeSeeds(schema, store, sessions);
    && Sound(schema, store, seeds, selected) && Eligible(schema, store, excluded, seeds, selected)
    && Saturated(schema, store, excluded, selected)
  }

  method CollectDeletableIds(schema: Schema, store: Store, tables: seq<Table>, sessions: set<Uuid>)
    returns (selected: Selection)
    requires WellKeyed(schema, store) && Elems(tables) == schema.Keys
    ensures selected == DeletableIds(schema, store, tables, sessions)
    ensures IsDeletable(schema, store, sessions, selected)
    ensures SelectedByName(schema, store, sessions, (t: Table) => PurgeSkips(t), selected)
  {
    hide Sound, Eligible, Saturated, SelectedByName, SessionSeeds, Saturation;
    var excluded := PRESERVE_SESSION_TABLES + GLOBAL_TABLE_EXCLUSIONS;
    var seeds := CollectSeeds(schema, store, tables, excluded, sessions);
    selected := Saturate(schema, store, tables, excluded, seeds);
    SelectionIsByName(schema, store, sessions, excluded, (t: Table) => PurgeSkips(t), selected);
  }

  type RowsByTable = map<Table, seq<Row>>

  /** The rows carrying the session's id, with or without a primary key `id` of their own. */
  predicate OfSession(schema: Schema, store: Store, source: Uuid, t: Table)
    requires schema.Keys <= store.Keys
  {
    t in schema && t != "sessions" && t !in EXCLUDED_SESSION_TABLES && "session_id" in schema[t].columns
    && Where(store[t], "session_id", {source}) != []
  }

  /** What `_collect_rows` holds of a table: the rows of the session, or else the selected ones. */
  function RowsOf(schema: Schema, store: Store, source: Uuid, selected: Selection, t: Table): seq<Row>
    requires schema.Keys <= store.Keys && t in schema
  {
    if t == "sessions" then Where(store[t], "id", {source})
    else if OfSession(schema, store, source, t) then Where(store[t], "session_id", {source})
    else if t in selected then Where(store[t], "id", selected[t])
    else []
  }

  ghost predicate IsCollection(schema: Schema, store: Store, source: Uuid, selected: Selection, rowsBy: RowsByTable)
    requires schema.Keys <= store.Keys && "sessions" in schema
  {
    && rowsBy.Keys == set t | t in schema && (t == "sessions" || OfSession(schema, store, source, t) || t in selected)
    && forall t :: t in rowsBy && t in schema ==> rowsBy[t] == RowsOf(schema, store, source, selected, t)
  }

  /** The selection behind a collection, over the tables in the order of their names. */
  ghost function SelectedIds(schema: Schema, store: Store, source: Uuid): Selection
    requires schema.Keys <= store.Keys
  {
    Saturation(schema, store, SortSet(schema.Keys), EXCLUDED_SESSION_TABLES,
               SessionSeeds(schema, store, EXCLUDED_SESSION_TABLES, {source}))
  }

  /** It is reached from the session, complete for each table added, and saturated. */
  ghost predicate IsSelection(schema: Schema, store: Store, source: Uuid, selected: Selection)
    requires schema.Keys <= store.Keys
  {
    var seeds := SessionSeeds(schema, store, EXCLUDED_SESSION_TABLES, {source});
    && selected == SelectedIds(schema, store, source)
    && Sound(schema, store, seeds, selected) && Eligible(schema, store, EXCLUDED_SESSION_TABLES, seeds, selected)
    && Saturated(schema, store, EXCLUDED_SESSION_TABLES, selected)
  }

  lemma FoundById(rows: seq<Row>, u: Uuid)
    ensures Where(rows, "id", {u}) == [] <==> !HasId(rows, u)
  {
    var found := Where(rows, "id", {u});
    if found != [] { assert found[0] in found; }
  }

  // ------------------------------------------------------- by name

  /** The clone leaves two tables out, the purge four. */
  ghost predicate CloneSkips(t: Table) {
    t == "knowledge_documents" || t == "knowledge_sections"
  }

  ghost predicate PurgeSkips(t: Table) {
    t == "sessions" || t == "opportunities" || t == "knowledge_documents" || t == "knowledge_sections"
  }

  /** The row carries the id of one of the sessions. */
  ghost predicate CarriesOne(row: Row, sessions: set<Uuid>) {
    exists u :: u in sessions && CellIs(row, "session_id", u)
  }

  /**
   The sessions are selected, in a table with a key `id` all rows that carry one of them, and no row
   of any other such table references a selected one; the tables skipped are left alone.
   */
  ghost predicate SelectedByName(schema: Schema, store: Store, sessions: set<Uuid>, skips: Table -> bool,
                                 selected: Selection) {
    && "sessions" in selected && selected["sessions"] == sessions
    && (forall t :: t in selected && t != "sessions" ==> t in schema && schema[t].idKey && !skips(t))
    && (forall t, row: Row, u ::
          t in schema && t in store && schema[t].idKey && !skips(t) && t != "sessions"
          && "session_id" in schema[t].columns && row in store[t] && CarriesOne(row, sessions) && CellIs(row, "id", u)
          ==> t in selected && u in selected[t])
    && (forall t, row: Row, fk ::
          t in schema && t in store && schema[t].idKey && !skips(t) && t !in selected && row in store[t]
          && fk in schema[t].fks && fk.parent in selected && Has(row, fk.column)
          ==> At(row, fk.column) !in selected[fk.parent])
  }

  lemma SelectionIsByName(schema: Schema, store: Store, sessions: set<Uuid>, excluded: set<Table>, skips: Table -> bool,
                          selected: Selection)
    requires schema.Keys <= store.Keys
    requires Sound(schema, store, SessionSeeds(schema, store, excluded, sessions), selected)
    requires Eligible(schema, store, excluded, SessionSeeds(schema, store, excluded, sessions), selected)
    requires Saturated(schema, store, excluded, selected) && forall t :: t in excluded <==> skips(t)
    ensures SelectedByName(schema, store, sessions, skips, selected)
  {
    hide Reached, AllMatched, Where, IdsOf, CarriesOne;
    var seeds := SessionSeeds(schema, store, excluded, sessions);
    assert "sessions" in seeds && seeds["sessions"] == sessions;
    forall t, row: Row, u |
      t in schema && t in store && schema[t].idKey && !skips(t) && t != "sessions"
      && "session_id" in schema[t].columns && row in store[t] && CarriesOne(row, sessions) && CellIs(row, "id", u)
      ensures t in selected && u in selected[t]
    {
      SeedRow(store[t], sessions, row, u);
      assert t in seeds && u in seeds[t];
    }
    SaturatedByName(schema, store, excluded, skips, selected);
  }

  lemma SaturatedByName(schema: Schema, store: Store, excluded: set<Table>, skips: Table -> bool, selected: Selection)
    requires Saturated(schema, store, excluded, selected) && forall t :: t in excluded <==> skips(t)
    ensures forall t, row: Row, fk ::
      t in schema && t in store && schema[t].idKey && !skips(t) && t !in selected && row in store[t]
      && fk in schema[t].fks && fk.parent in selected && Has(row, fk.column)
      ==> At(row, fk.column) !in selected[fk.parent]
  {
    forall t, row: Row, fk |
      t in schema && t in store && schema[t].idKey && !skips(t) && t !in selected && row in store[t]
      && fk in schema[t].fks && fk.parent in selected && Has(row, fk.column)
      ensures At(row, fk.column) !in selected[fk.parent]
    {
      assert Candidate(schema, excluded, selected, t) && !Refers(row, schema[t].fks, selected);
      assert !RefersVia(row, fk, selected);
    }
  }

  lemma SeedRow(rows: seq<Row>, sessions: set<Uuid>, row: Row, u: Uuid)
    requires row in rows && CarriesOne(row, sessions) && CellIs(row, "id", u)
    ensures u in IdsOf(Where(rows, "session_id", sessions))
  {
    assert row in Where(rows, "session_id", sessions);
  }

  /** The rows of the table carry the session's id, as the script looks for it. */
  ghost predicate CarriesSession(schema: Schema, store: Store, source: Uuid, t: Table) {
    && t in schema && t in store && t != "sessions" && t != "knowledge_documents" && t != "knowledge_sections"
    && "session_id" in schema[t].columns && exists r: Row :: r in store[t] && CellIs(r, "session_id", source)
  }

  predicate CellIs(row: Row, c: Column, u: Uuid) {
    c in row && row[c] == Ref(u)
  }

  /**
   Of `sessions` the one row, of a table whose rows carry the session's id those rows, and of any
   other selected table the rows with a selected id; each as often as it is stored and in that order.
   */
  ghost predicate CollectedByName(schema: Schema, store: Store, source: Uuid, selected: Selection,
                                  rowsBy: RowsByTable) {
    && (forall t :: t in rowsBy <==>
          t in schema && (t == "sessions" || CarriesSession(schema, store, source, t) || t in selected))
    && forall t :: t in rowsBy && t in store ==>
         if t == "sessions" then IsFilter(store[t], rowsBy[t], (r: Row) => CellIs(r, "id", source))
         else if CarriesSession(schema, store, source, t)
         then IsFilter(store[t], rowsBy[t], (r: Row) => CellIs(r, "session_id", source))
         else IsFilter(store[t], rowsBy[t],
                       (r: Row) => t in selected && exists u :: u in selected[t] && CellIs(r, "id", u))
  }

  lemma {:induction false} WhereIsFilter(rows: seq<Row>, column: Column, ids: set<Uuid>, keep: Row -> bool)
    requires forall r: Row :: keep(r) <==> Has(r, column) && At(r, column) in ids
    ensures IsFilter(rows, Where(rows, column, ids), keep)
  {
    if rows == [] {
      NothingFiltered(keep);
    } else {
      WhereIsFilter(rows[..|rows| - 1], column, ids, keep);
      FilterSnoc(rows[..|rows| - 1], Where(rows[..|rows| - 1], column, ids), keep, rows[|rows| - 1]);
      assert rows == rows[..|rows| - 1] + [rows[|rows| - 1]];
    }
  }

  lemma CarriesIff(schema: Schema, store: Store, source: Uuid, t: Table)
    requires schema.Keys <= store.Keys
    ensures CarriesSession(schema, store, source, t) <==> OfSession(schema, store, source, t)
  {
    if t in schema {
      var found := Where(store[t], "session_id", {source});
      if found != [] {
        assert found[0] in found;
        assert CellIs(found[0], "session_id", source);
      }
      if r: Row :| r in store[t] && CellIs(r, "session_id", source) { assert r in found; }
    }
  }

  lemma CollectionIsByName(schema: Schema, store: Store, source: Uuid, selected: Selection, rowsBy: RowsByTable)
    requires schema.Keys <= store.Keys && "sessions" in schema
    requires IsCollection(schema, store, source, selected, rowsBy)
    ensures CollectedByName(schema, store, source, selected, rowsBy)
  {
    hide OfSession, CarriesSession, Where, IsFilter;
    forall t ensures CarriesSession(schema, store, source, t) <==> OfSession(schema, store, source, t) {
      CarriesIff(schema, store, source, t);
    }
    forall t | t in rowsBy && t in store
      ensures if t == "sessions" then IsFilter(store[t], rowsBy[t], (r: Row) => CellIs(r, "id", source))
              else if CarriesSession(schema, store, source, t)
              then IsFilter(store[t], rowsBy[t], (r: Row) => CellIs(r, "session_id", source))
              else IsFilter(store[t], rowsBy[t],
                            (r: Row) => t in selected && exists u :: u in selected[t] && CellIs(r, "id", u))
    {
      if t == "sessions" {
        WhereIsFilter(store[t], "id", {source}, (r: Row) => CellIs(r, "id", source));
      } else if CarriesSession(schema, store, source, t) {
        WhereIsFilter(store[t], "session_id", {source}, (r: Row) => CellIs(r, "session_id", source));
      } else {
        WhereIsFilter(store[t], "id", selected[t],
                      (r: Row) => t in selected && exists u :: u in selected[t] && CellIs(r, "id", u));
      }
    }
  }

  datatype Collection = Gathered(rowsBy: RowsByTable) | NoSuchSession

  method CollectRows(schema: Schema, store: Store, source: Uuid) returns (r: Collection)
    requires WellKeyed(schema, store) && "sessions" in schema && schema["sessions"].idKey
    ensures r.NoSuchSession? <==> !HasId(store["sessions"], source)
    ensures r.Gathered? ==> IsSelection(schema, store, source, SelectedIds(schema, store, source))
    ensures r.Gathered? ==> IsCollection(schema, store, source, SelectedIds(schema, store, source), r.rowsBy)
    ensures r.Gathered? ==> CollectedByName(schema, store, source, SelectedIds(schema, store, source), r.rowsBy)
    ensures r.Gathered? ==>
      SelectedByName(schema, store, {source}, (t: Table) => CloneSkips(t), SelectedIds(schema, store, source))
  {
    hide Sound, Eligible, Saturated, OfSession, Keyed, SessionSeeds, RowsOf, Where, HasId, Saturation, CollectedByName,
         SelectedByName, Elems, Sorted;
    var sessionRows := Where(store["sessions"], "id", {source});
    FoundById(store["sessions"], source);
    if sessionRows == [] {
      return NoSuchSession;
    }
    var tables := SortSet(schema.Keys);
    var seeds := CollectSeeds(schema, store, tables, EXCLUDED_SESSION_TABLES, {source});
    var chosen := Saturate(schema, store, tables, EXCLUDED_SESSION_TABLES, seeds);
    r := Gathered(map t | t in schema && (t == "sessions" || OfSession(schema, store, source, t) || t in chosen)
                     :: RowsOf(schema, store, source, chosen, t));
    CollectionIsByName(schema, store, source, chosen, r.rowsBy);
    SelectionIsByName(schema, store, {source}, EXCLUDED_SESSION_TABLES, (t: Table) => CloneSkips(t), chosen);
  }

  // ------------------------------------------------------- what a collection is

  /** A column `session_id` is a foreign key to the sessions. */
  ghost predicate SessionsAreReferenced(schema: Schema) {
    forall t :: t in schema && "session_id" in schema[t].columns ==>
      ForeignKey("session_id", "sessions") in schema[t].fks
  }

  /** A chain that starts at a row of a session continues from the session itself. */
  lemma {:induction false} ChainsStartAtSessions(schema: Schema, store: Store, excluded: set<Table>,
                                                 sessions: set<Uuid>,
                                                 t: Table, u: Uuid, k: nat)
    requires schema.Keys <= store.Keys && SessionsAreReferenced(schema)
    requires Linked(schema, store, SessionSeeds(schema, store, excluded, sessions), t, u, k)
    ensures Reached(schema, store, map["sessions" := sessions], t, u)
    decreases k
  {
    hide Where, IdsOf;
    var seeds, root := SessionSeeds(schema, store, excluded, sessions), map["sessions" := sessions];
    if k == 0 {
      if t == "sessions" {
        assert Linked(schema, store, root, t, u, 0);
      } else {
        var row := SessionRow(store[t], sessions, u);
        var fk := ForeignKey("session_id", "sessions");
        assert fk in schema[t].fks && Linked(schema, store, root, fk.parent, At(row, fk.column), 0);
        assert Linked(schema, store, root, t, u, 1);
      }
    } else {
      var row: Row, fk :| row in store[t] && Has(row, "id") && At(row, "id") == u && fk in schema[t].fks &&
                          Has(row, fk.column) && Linked(schema, store, seeds, fk.parent, At(row, fk.column), k - 1);
      ChainsStartAtSessions(schema, store, excluded, sessions, fk.parent, At(row, fk.column), k - 1);
      var n: nat :| Linked(schema, store, root, fk.parent, At(row, fk.column), n);
      assert Linked(schema, store, root, t, u, n + 1);
    }
  }

  lemma SessionRow(rows: seq<Row>, sessions: set<Uuid>, u: Uuid) returns (row: Row)
    requires u in IdsOf(Where(rows, "session_id", sessions))
    ensures row in rows && Has(row, "id") && At(row, "id") == u
    ensures Has(row, "session_id") && At(row, "session_id") in sessions
  {
    row :| row in Where(rows, "session_id", sessions) && Has(row, "id") && At(row, "id") == u;
  }

  /** The row references a row chained to one of the sessions. */
  ghost predicate Chained(schema: Schema, store: Store, sessions: set<Uuid>, t: Table, row: Row)
    requires t in schema
  {
    exists fk :: fk in schema[t].fks && Has(row, fk.column)
              && Reached(schema, store, map["sessions" := sessions], fk.parent, At(row, fk.column))
  }

  lemma OfSessionIsChained(schema: Schema, store: Store, sessions: set<Uuid>, t: Table, row: Row)
    requires t in schema && SessionsAreReferenced(schema) && "session_id" in schema[t].columns
    requires Has(row, "session_id") && At(row, "session_id") in sessions
    ensures Chained(schema, store, sessions, t, row)
  {
    var fk := ForeignKey("session_id", "sessions");
    assert Linked(schema, store, map["sessions" := sessions], fk.parent, At(row, fk.column), 0);
  }

  lemma ReachedIsChained(schema: Schema, store: Store, excluded: set<Table>, sessions: set<Uuid>, t: Table, row: Row)
    requires schema.Keys <= store.Keys && t in schema && t != "sessions" && SessionsAreReferenced(schema)
    requires Keyed(store[t]) && row in store[t] && Has(row, "id")
    requires Reached(schema, store, SessionSeeds(schema, store, excluded, sessions), t, At(row, "id"))
    ensures Chained(schema, store, sessions, t, row)
  {
    hide Where, IdsOf, Keyed, SessionSeeds, Linked;
    var k: nat :| Linked(schema, store, SessionSeeds(schema, store, excluded, sessions), t, At(row, "id"), k);
    ChainsStartAtSessions(schema, store, excluded, sessions, t, At(row, "id"), k);
    var n: nat :| Linked(schema, store, map["sessions" := sessions], t, At(row, "id"), n);
    var same, fk := FirstLink(schema, store, map["sessions" := sessions], t, At(row, "id"), n);
    KeyDetermines(store[t], row, same);
    assert Reached(schema, store, map["sessions" := sessions], fk.parent, At(row, fk.column));
  }

  lemma FirstLink(schema: Schema, store: Store, seeds: Selection, t: Table, u: Uuid, k: nat)
    returns (row: Row, fk: ForeignKey)
    requires t in store && t in schema && t !in seeds && Linked(schema, store, seeds, t, u, k)
    ensures k > 0 && row in store[t] && Has(row, "id") && At(row, "id") == u
    ensures fk in schema[t].fks && Has(row, fk.column)
    ensures Linked(schema, store, seeds, fk.parent, At(row, fk.column), k - 1)
  {
    row, fk :| row in store[t] && Has(row, "id") && At(row, "id") == u && fk in schema[t].fks &&
               Has(row, fk.column) && Linked(schema, store, seeds, fk.parent, At(row, fk.column), k - 1);
  }

  /** Every collected row is the session itself or references a row chained to it. */
  lemma CollectedIsChained(schema: Schema, store: Store, source: Uuid, selected: Selection, rowsBy: RowsByTable,
                           t: Table, row: Row)
    requires WellKeyed(schema, store) && "sessions" in schema && SessionsAreReferenced(schema)
    requires IsSelection(schema, store, source, selected) && IsCollection(schema, store, source, selected, rowsBy)
    requires t in rowsBy && row in rowsBy[t]
    ensures row in store[t]
    ensures (t == "sessions" && Has(row, "id") && At(row, "id") == source) || Chained(schema, store, {source}, t, row)
  {
    hide Saturated, Keyed, Chained, Reached;
    if t != "sessions" {
      if OfSession(schema, store, source, t) {
        OfSessionIsChained(schema, store, {source}, t, row);
      } else {
        assert schema[t].idKey by { SelectedIsKeyed(schema, store, source, selected, t); }
        ReachedIsChained(schema, store, EXCLUDED_SESSION_TABLES, {source}, t, row);
      }
    }
  }

  lemma SelectedIsKeyed(schema: Schema, store: Store, source: Uuid, selected: Selection, t: Table)
    requires schema.Keys <= store.Keys && IsSelection(schema, store, source, selected)
    requires t in selected && t != "sessions"
    ensures t in schema && schema[t].idKey
  {
    hide Saturated, Sound, Where, IdsOf;
  }

  /** The collected rows of a table with a key `id` are selected. */
  lemma CollectedIsSelected(schema: Schema, store: Store, source: Uuid, selected: Selection, rowsBy: RowsByTable,
                            p: Table, u: Uuid)
    requires WellKeyed(schema, store) && "sessions" in schema
    requires IsSelection(schema, store, source, selected) && IsCollection(schema, store, source, selected, rowsBy)
    requires p in rowsBy && schema[p].idKey && HasId(rowsBy[p], u)
    ensures p in selected && u in selected[p]
  {
    hide Eligible, Saturated, Keyed, SelectedIds, Reached;
    var seeds := SessionSeeds(schema, store, EXCLUDED_SESSION_TABLES, {source});
    var row: Row :| row in rowsBy[p] && Has(row, "id") && At(row, "id") == u;
    if p != "sessions" && OfSession(schema, store, source, p) {
      assert u in IdsOf(Where(store[p], "session_id", {source}));
      assert p in seeds;
    }
  }

  /** No table left out, unless excluded or without a key `id`, has a row that references a collected one. */
  lemma CollectionIsSaturated(schema: Schema, store: Store, source: Uuid, selected: Selection, rowsBy: RowsByTable,
                              t: Table, row: Row, fk: ForeignKey)
    requires WellKeyed(schema, store) && "sessions" in schema
    requires IsSelection(schema, store, source, selected) && IsCollection(schema, store, source, selected, rowsBy)
    requires t in schema && schema[t].idKey && t !in EXCLUDED_SESSION_TABLES && t !in rowsBy && row in store[t]
    requires fk in schema[t].fks && Has(row, fk.column) && fk.parent in rowsBy && schema[fk.parent].idKey
    ensures !HasId(rowsBy[fk.parent], At(row, fk.column))
  {
    hide Sound, Eligible, Where, IdsOf, Keyed, SessionSeeds, RowsOf;
    assert Candidate(schema, EXCLUDED_SESSION_TABLES, selected, t);
    assert !RefersVia(row, fk, selected);
    if HasId(rowsBy[fk.parent], At(row, fk.column)) {
      CollectedIsSelected(schema, store, source, selected, rowsBy, fk.parent, At(row, fk.column));
    }
  }
}
