/**
 The tables of the platform reference each other in a circle: a user has a default workspace and a
 workspace the user who made it.  Then no table comes before its children, and the deletes follow
 the names of the tables.
 */
module PurgeCycle {
  import opened Names
  import opened Kahn
  import opened Relational
  import opened Collector
  import opened TableOrder
  import opened Purge

  function Keyed1(column: Column, parent: Table): TableDef {
    TableDef({"id", column}, true, {ForeignKey(column, parent)})
  }

  function Schema5(users: Table, workspaces: Table, sessions: Table, runs: Table, artifacts: Table): Schema {
    map[users := Keyed1("default_workspace_id", workspaces), workspaces := Keyed1("created_by_user_id", users),
        sessions := Keyed1("workspace_id", workspaces), runs := Keyed1("session_id", sessions),
        artifacts := Keyed1("skill_run_id", runs)]
  }

  function OneRow(id: Uuid, column: Column): Row {
    map["id" := Ref(id), column := Null]
  }

  const RUN: Row := map["id" := Ref(4), "session_id" := Ref(3)]
  const ARTIFACT: Row := map["id" := Ref(5), "skill_run_id" := Ref(4)]

  function Store5(users: Table, workspaces: Table, sessions: Table, runs: Table, artifacts: Table): Store {
    map[users := [OneRow(1, "default_workspace_id")], workspaces := [OneRow(2, "created_by_user_id")],
        sessions := [OneRow(3, "workspace_id")], runs := [RUN], artifacts := [ARTIFACT]]
  }

  const CYCLIC_SCHEMA: Schema := Schema5("users", "workspaces", "sessions", "skill_runs", "skill_run_artifacts")
  const CYCLIC_STORE: Store := Store5("users", "workspaces", "sessions", "skill_runs", "skill_run_artifacts")

  predicate Different(u: Table, w: Table, s: Table, r: Table, a: Table) {
    u != w && u != s && u != r && u != a && w != s && w != r && w != a && s != r && s != a && r != a
  }

  lemma TableNames()
    ensures Different("users", "workspaces", "sessions", "skill_runs", "skill_run_artifacts")
    ensures !Preserved("users") && !Preserved("workspaces") && !Preserved("skill_runs")
    ensures !Preserved("skill_run_artifacts")
  {
    assert |"users"| == 5 && |"workspaces"| == 10 && |"sessions"| == 8 && |"skill_runs"| == 10;
    assert |"skill_run_artifacts"| == 19 && "workspaces"[0] == 'w' && "skill_runs"[0] == 's';
    assert |"opportunities"| == 13 && |"knowledge_documents"| == 19 && |"knowledge_sections"| == 18;
    assert "knowledge_documents"[0] == 'k' && "skill_run_artifacts"[0] == 's';
  }

  lemma Entries(u: Table, w: Table, s: Table, r: Table, a: Table)
    requires Different(u, w, s, r, a)
    ensures var schema, store := Schema5(u, w, s, r, a), Store5(u, w, s, r, a);
            && schema.Keys == store.Keys == {u, w, s, r, a}
            && schema[u] == Keyed1("default_workspace_id", w) && schema[w] == Keyed1("created_by_user_id", u)
            && schema[s] == Keyed1("workspace_id", w) && schema[r] == Keyed1("session_id", s)
            && schema[a] == Keyed1("skill_run_id", r)
            && store[u] == [OneRow(1, "default_workspace_id")] && store[w] == [OneRow(2, "created_by_user_id")]
            && store[s] == [OneRow(3, "workspace_id")] && store[r] == [RUN] && store[a] == [ARTIFACT]
  {
  }

  lemma ColumnNames()
    ensures "id" !in {"default_workspace_id", "created_by_user_id", "workspace_id", "session_id", "skill_run_id"}
    ensures "session_id" !in {"default_workspace_id", "created_by_user_id", "workspace_id", "skill_run_id"}
  {
    assert |"id"| == 2 && |"default_workspace_id"| == 20 && |"created_by_user_id"| == 18 && |"workspace_id"| == 12;
    assert |"session_id"| == 10 && |"skill_run_id"| == 12;
  }

  // ------------------------------------------------------- the order of the tables

  /** When every table references another, none is emitted. */
  lemma NothingIsOrdered(g: Graph)
    requires Closed(g) && forall n :: n in g ==> g[n] != {}
    ensures FullOrder(g) == SortSet(g.Keys)
  {
    OrderFacts(g);
    hide Order;
    assert Order(g)[..0] == [];
    assert g.Keys - Elems(Order(g)) == g.Keys;
  }

  lemma {:induction false} LessBehind(p: string, a: string, b: string)
    requires Less(a, b)
    ensures Less(p + a, p + b)
  {
    if p != [] {
      LessBehind(p[1..], a, b);
      assert (p + a)[1..] == p[1..] + a && (p + b)[1..] == p[1..] + b;
    } else {
      assert p + a == a && p + b == b;
    }
  }

  lemma RunsAreLast()
    ensures Less("skill_run_artifacts", "skill_runs")
  {
    assert Less("_artifacts", "s");
    LessBehind("skill_run", "_artifacts", "s");
    assert "skill_run" + "_artifacts" == "skill_run_artifacts" && "skill_run" + "s" == "skill_runs";
  }

  lemma InOrder(s: seq<string>, a: string, b: string) returns (i: nat, j: nat)
    requires Sorted(s) && a in s && b in s && Less(a, b)
    ensures i < j < |s| && s[i] == a && s[j] == b
  {
    i :| 0 <= i < |s| && s[i] == a;
    j :| 0 <= j < |s| && s[j] == b;
    Trichotomy(a, b);
  }

  lemma HasParent(schema: Schema, t: Table, column: Column, p: Table)
    requires t in schema && schema[t].fks == {ForeignKey(column, p)} && p != t && p in schema
    ensures FkGraph(schema, schema.Keys)[t] != {}
  {
    assert p in FkGraph(schema, schema.Keys)[t];
  }

  lemma EveryTableHasAParent(u: Table, w: Table, s: Table, r: Table, a: Table)
    requires Different(u, w, s, r, a)
    ensures var schema := Schema5(u, w, s, r, a);
            forall t :: t in schema ==> FkGraph(schema, schema.Keys)[t] != {}
  {
    var schema := Schema5(u, w, s, r, a);
    Entries(u, w, s, r, a);
    hide FkGraph, Schema5;
    HasParent(schema, u, "default_workspace_id", w);
    HasParent(schema, w, "created_by_user_id", u);
    HasParent(schema, s, "workspace_id", w);
    HasParent(schema, r, "session_id", s);
    HasParent(schema, a, "skill_run_id", r);
  }

  // ------------------------------------------------------- the selection

  predicate Purgeable(u: Table, w: Table, r: Table, a: Table) {
    Different(u, w, "sessions", r, a) && !Preserved(u) && !Preserved(w) && !Preserved(r) && !Preserved(a)
  }

  /** Rows without `session_id` are no seeds. */
  lemma NoSeed(schema: Schema, store: Store, sessions: set<Uuid>, t: Table)
    requires schema.Keys <= store.Keys && t in schema && t != "sessions" && "session_id" !in schema[t].columns
    ensures t !in PurgeSeeds(schema, store, sessions)
  {
    hide Where, IdsOf;
  }

  lemma RunIsSeed(schema: Schema, store: Store, r: Table)
    requires schema.Keys <= store.Keys && r in schema && r != "sessions" && !Preserved(r)
    requires schema[r] == Keyed1("session_id", "sessions") && store[r] == [RUN]
    ensures r in PurgeSeeds(schema, store, {3}) && PurgeSeeds(schema, store, {3})[r] == {4}
  {
    RunFound();
    hide Where, IdsOf;
  }

  lemma RunFound()
    ensures IdsOf(Where([RUN], "session_id", {3})) == {4}
  {
    ColumnNames();
    assert RUN in [RUN];
  }

  /** A table none of whose rows references anything is not selected. */
  lemma StaysOut(schema: Schema, store: Store, excluded: set<Table>, seeds: Selection, selected: Selection, t: Table)
    requires Eligible(schema, store, excluded, seeds, selected) && t !in seeds && t in schema && t in store
    requires forall past :: MatchSet(store[t], schema[t].fks, past) == {}
    ensures t !in selected
  {
    hide MatchSet, IdsOf;
  }

  /** A table with a row that references a selected one is selected. */
  lemma ComesIn(schema: Schema, store: Store, excluded: set<Table>, seeds: Selection, selected: Selection, t: Table,
                row: Row, fk: ForeignKey)
    requires Eligible(schema, store, excluded, seeds, selected) && Saturated(schema, store, excluded, selected)
    requires t in schema && schema[t].idKey && t !in excluded && t !in seeds && t in store && store[t] == [row]
    requires fk in schema[t].fks && RefersVia(row, fk, selected) && Has(row, "id")
    ensures t in selected && selected[t] == {At(row, "id")}
  {
    hide AllMatched;
    assert row in store[t] && Refers(row, schema[t].fks, selected);
    assert IdsOf(store[t]) == {At(row, "id")};
  }

  /** The run is selected by its session and the artifact by its run; users and workspaces are not. */
  lemma RunAndArtifact(u: Table, w: Table, r: Table, a: Table, selected: Selection)
    requires Purgeable(u, w, r, a)
    requires IsDeletable(Schema5(u, w, "sessions", r, a), Store5(u, w, "sessions", r, a), {3}, selected)
    ensures r in selected && selected[r] == {4} && a in selected && selected[a] == {5}
    ensures u !in selected && w !in selected
  {
    ColumnNames();
    Entries(u, w, "sessions", r, a);
    var schema, store := Schema5(u, w, "sessions", r, a), Store5(u, w, "sessions", r, a);
    var excluded := PRESERVE_SESSION_TABLES + GLOBAL_TABLE_EXCLUSIONS;
    var seeds := PurgeSeeds(schema, store, {3});
    RowColumns(1, "default_workspace_id");
    RowColumns(2, "created_by_user_id");
    hide PurgeSeeds, Reached, IdsOf, Eligible, Saturated, MatchSet, Schema5, Store5, OneRow;
    RunIsSeed(schema, store, r);
    NoSeed(schema, store, {3}, u);
    NoSeed(schema, store, {3}, w);
    NoSeed(schema, store, {3}, a);
    ComesIn(schema, store, excluded, seeds, selected, a, ARTIFACT, ForeignKey("skill_run_id", r));
    NothingRefers(OneRow(1, "default_workspace_id"), "default_workspace_id", w);
    NothingRefers(OneRow(2, "created_by_user_id"), "created_by_user_id", u);
    StaysOut(schema, store, excluded, seeds, selected, u);
    StaysOut(schema, store, excluded, seeds, selected, w);
  }

  lemma NothingRefers(row: Row, column: Column, parent: Table)
    requires !Has(row, column)
    ensures forall past :: MatchSet([row], {ForeignKey(column, parent)}, past) == {}
  {
  }

  lemma RowsAreKeyed(def: TableDef, row: Row)
    requires Has(row, "id") && row.Keys == def.columns
    ensures Keyed([row]) && HasId([row], At(row, "id")) && forall x :: x in [row] <==> x == row
    ensures forall x :: x in [row] ==> x.Keys == def.columns
  {
    assert row in [row];
  }

  /** Apart from its id a row has at most one reference, the one its table declares. */
  lemma RowColumns(id: Uuid, column: Column)
    requires column != "id"
    ensures forall p :: OneRow(id, column).Keys == Keyed1(column, p).columns
    ensures Has(OneRow(id, column), "id") && At(OneRow(id, column), "id") == id && !Has(OneRow(id, column), column)
    ensures forall p :: RUN.Keys == Keyed1("session_id", p).columns
    ensures forall p :: ARTIFACT.Keys == Keyed1("skill_run_id", p).columns
    ensures Has(RUN, "id") && At(RUN, "id") == 4 && Has(RUN, "session_id") && At(RUN, "session_id") == 3
    ensures Has(ARTIFACT, "id") && At(ARTIFACT, "id") == 5
    ensures Has(ARTIFACT, "skill_run_id") && At(ARTIFACT, "skill_run_id") == 4
  {
    ColumnNames();
  }

  lemma OneMoreTable(schema: Schema, store: Store, t: Table, def: TableDef, row: Row)
    requires WellKeyed(schema, store) && Has(row, "id") && row.Keys == def.columns
    ensures WellKeyed(schema[t := def], store[t := [row]])
  {
    hide Has;
    RowsAreKeyed(def, row);
  }

  lemma StoreIsKeyed(u: Table, w: Table, s: Table, r: Table, a: Table)
    requires Different(u, w, s, r, a)
    ensures WellKeyed(Schema5(u, w, s, r, a), Store5(u, w, s, r, a))
  {
    ColumnNames();
    RowColumns(1, "default_workspace_id");
    RowColumns(2, "created_by_user_id");
    RowColumns(3, "workspace_id");
    hide OneRow, Keyed1, Keyed, Has, HasId, Different;
    var d1, r1 := Keyed1("default_workspace_id", w), OneRow(1, "default_workspace_id");
    var d2, r2 := Keyed1("created_by_user_id", u), OneRow(2, "created_by_user_id");
    var d3, r3 := Keyed1("workspace_id", w), OneRow(3, "workspace_id");
    var d4 := Keyed1("session_id", s);
    assert WellKeyed(map[], map[]);
    hide WellKeyed;
    OneMoreTable(map[], map[], u, d1, r1);
    OneMoreTable(map[u := d1], map[u := [r1]], w, d2, r2);
    OneMoreTable(map[u := d1, w := d2], map[u := [r1], w := [r2]], s, d3, r3);
    OneMoreTable(map[u := d1, w := d2, s := d3], map[u := [r1], w := [r2], s := [r3]], r, d4, RUN);
    OneMoreTable(map[u := d1, w := d2, s := d3, r := d4], map[u := [r1], w := [r2], s := [r3], r := [RUN]], a,
                 Keyed1("skill_run_id", r), ARTIFACT);
  }

  lemma ParentsAreKeyed(u: Table, w: Table, s: Table, r: Table, a: Table)
    requires Different(u, w, s, r, a)
    ensures KeyedParents(Schema5(u, w, s, r, a))
  {
    Entries(u, w, s, r, a);
    hide Schema5, Store5, Different;
  }

  lemma NothingDangles(u: Table, w: Table, s: Table, r: Table, a: Table)
    requires Different(u, w, s, r, a)
    ensures NoDangling(Schema5(u, w, s, r, a), Store5(u, w, s, r, a))
  {
    ColumnNames();
    Entries(u, w, s, r, a);
    RowColumns(1, "default_workspace_id");
    RowColumns(2, "created_by_user_id");
    RowColumns(3, "workspace_id");
    hide Schema5, Store5, OneRow, Keyed;
    var store := Store5(u, w, s, r, a);
    assert OneRow(3, "workspace_id") in store[s] && RUN in store[r];
    assert HasId(store[s], 3) && HasId(store[r], 4);
    hide HasId, Different;
  }

  lemma SelectionIsClosed(u: Table, w: Table, r: Table, a: Table, selected: Selection)
    requires Purgeable(u, w, r, a) && u !in selected && w !in selected
    requires r in selected && selected[r] == {4} && a in selected && selected[a] == {5}
    ensures var schema, store := Schema5(u, w, "sessions", r, a), Store5(u, w, "sessions", r, a);
            && ClosedUnderReferences(schema, store, selected, {3})
            && NeedsFirst(schema, store, selected, {3}, a, r)
  {
    ColumnNames();
    Entries(u, w, "sessions", r, a);
    hide Schema5, Store5;
    var schema, store := Schema5(u, w, "sessions", r, a), Store5(u, w, "sessions", r, a);
    assert Doomed(schema, selected, {3}, a, ARTIFACT) && Doomed(schema, selected, {3}, r, RUN);
    assert ARTIFACT in store[a] && RUN in store[r] && ForeignKey("skill_run_id", r) in schema[a].fks;
    assert Preserved("sessions");
  }

  /** The artifacts come before the runs in the order of the tables. */
  lemma CircleOrder(u: Table, w: Table, s: Table, r: Table, a: Table) returns (i: nat, j: nat)
    requires Different(u, w, s, r, a) && Less(a, r)
    ensures var schema := Schema5(u, w, s, r, a);
            var ordered := FullOrder(FkGraph(schema, schema.Keys));
            i < j < |ordered| && ordered[i] == a && ordered[j] == r
  {
    Entries(u, w, s, r, a);
    EveryTableHasAParent(u, w, s, r, a);
    var schema := Schema5(u, w, s, r, a);
    var g := FkGraph(schema, schema.Keys);
    assert Closed(g);
    hide Schema5, Store5, FkGraph, FullOrder;
    NothingIsOrdered(g);
    i, j := InOrder(FullOrder(g), a, r);
  }

  /** A doomed row that waits for a later table makes the purge fail. */
  lemma OutOfOrder(schema: Schema, store: Store, selected: Selection, sessions: set<Uuid>, i: nat, j: nat)
    requires WellKeyed(schema, store) && NoDangling(schema, store) && KeyedParents(schema)
    requires var ordered := FullOrder(FkGraph(schema, schema.Keys));
             && i < j < |ordered| && NeedsFirst(schema, store, selected, sessions, ordered[i], ordered[j])
    ensures var ordered := FullOrder(FkGraph(schema, schema.Keys));
            && !ChildrenGoFirst(schema, store, selected, sessions, ordered)
            && !StepsSound(schema, store, selected, sessions, ordered, 0)
  {
    var g := FkGraph(schema, schema.Keys);
    assert g.Keys == schema.Keys;
    hide NeedsFirst, FullOrder, FkGraph, StepsSound, NoDangling, KeyedParents, ClosedUnderReferences;
    FullOrderFacts(g);
    StepsSoundIff(schema, store, selected, sessions, FullOrder(g));
  }

  lemma CircleRejects(u: Table, w: Table, r: Table, a: Table, selected: Selection)
    requires Purgeable(u, w, r, a) && Less(a, r)
    requires IsDeletable(Schema5(u, w, "sessions", r, a), Store5(u, w, "sessions", r, a), {3}, selected)
    ensures var schema, store := Schema5(u, w, "sessions", r, a), Store5(u, w, "sessions", r, a);
            var ordered := FullOrder(FkGraph(schema, schema.Keys));
            && WellKeyed(schema, store) && NoDangling(schema, store) && KeyedParents(schema)
            && ClosedUnderReferences(schema, store, selected, {3})
            && !ChildrenGoFirst(schema, store, selected, {3}, ordered)
            && !StepsSound(schema, store, selected, {3}, ordered, 0)
  {
    StoreIsKeyed(u, w, "sessions", r, a);
    ParentsAreKeyed(u, w, "sessions", r, a);
    NothingDangles(u, w, "sessions", r, a);
    RunAndArtifact(u, w, r, a, selected);
    SelectionIsClosed(u, w, r, a, selected);
    hide *;
    var i, j := CircleOrder(u, w, "sessions", r, a);
    OutOfOrder(Schema5(u, w, "sessions", r, a), Store5(u, w, "sessions", r, a), selected, {3}, i, j);
  }

  /**
   The purge of session 3 takes its run and the artifact of that run, and nothing else references
   either.  Yet the run would go first, and the purge is rejected.
   */
  lemma ClosedButRejected(selected: Selection)
    requires IsDeletable(CYCLIC_SCHEMA, CYCLIC_STORE, {3}, selected)
    ensures WellKeyed(CYCLIC_SCHEMA, CYCLIC_STORE) && NoDangling(CYCLIC_SCHEMA, CYCLIC_STORE)
    ensures KeyedParents(CYCLIC_SCHEMA) && ClosedUnderReferences(CYCLIC_SCHEMA, CYCLIC_STORE, selected, {3})
    ensures var ordered := FullOrder(FkGraph(CYCLIC_SCHEMA, CYCLIC_SCHEMA.Keys));
            && !ChildrenGoFirst(CYCLIC_SCHEMA, CYCLIC_STORE, selected, {3}, ordered)
            && !StepsSound(CYCLIC_SCHEMA, CYCLIC_STORE, selected, {3}, ordered, 0)
  {
    TableNames();
    RunsAreLast();
    hide Schema5, Store5;
    CircleRejects("users", "workspaces", "skill_runs", "skill_run_artifacts", selected);
  }
}
