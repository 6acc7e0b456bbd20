/** The two-phase merge of `scripts/import_session_snapshot.py`, and the id maps of both import scripts. */
module SessionImport {
  import opened Names
  import opened Relational
  import opened NaturalKeys
  import opened SnapshotRewrite

  type Database = map<Table, ById>
  type Dataset = map<Table, seq<Row>>

  const TABLE_IMPORT_ORDER: seq<Table> := [
    "users", "workspaces", "workspace_memberships", "sessions", "workspace_runtime_settings",
    "workspace_provider_secrets", "runtime_settings_audit", "execution_logs", "artifact_records",
    "journey_stage_artifacts", "stage_operations", "subagent_runs", "skill_runs", "skill_run_artifacts",
    "diagram_generation_jobs_v3", "diagram_versions_v3", "llm_usage_ledger"]

  const DEFERRED_SELF_REFERENCE_FIELDS: map<Table, set<Column>> :=
    map["journey_stage_artifacts" := {"based_on_artifact_id", "superseded_by_artifact_id"}]

  function DeferredFields(t: Table): set<Column> {
    if t in DEFERRED_SELF_REFERENCE_FIELDS then DEFERRED_SELF_REFERENCE_FIELDS[t] else {}
  }

  // ------------------------------------------------------- the two phases

  /** `_without_fields` */
  function Without(row: Row, fields: set<Column>): Row {
    map c | c in row :: if c in fields then Null else row[c]
  }

  function AllWithout(rows: seq<Row>, fields: set<Column>): seq<Row> {
    seq(|rows|, i requires 0 <= i < |rows| => Without(rows[i], fields))
  }

  lemma WithoutKeepsIds(rows: seq<Row>, fields: set<Column>)
    requires AllHaveIds(rows) && "id" !in fields
    ensures AllHaveIds(AllWithout(rows, fields)) && IdsOf(AllWithout(rows, fields)) == IdsOf(rows)
    ensures forall r, f :: r in AllWithout(rows, fields) && f in fields ==> !Has(r, f)
  {
    var stripped := AllWithout(rows, fields);
    forall k | 0 <= k < |rows| ensures Has(stripped[k], "id") && At(stripped[k], "id") == At(rows[k], "id") {
      assert rows[k] in rows;
    }
    forall u ensures u in IdsOf(stripped) <==> u in IdsOf(rows) {
      if u in IdsOf(rows) {
        var r: Row :| r in rows && Has(r, "id") && At(r, "id") == u;
        var k :| 0 <= k < |rows| && rows[k] == r;
        assert stripped[k] in stripped;
      }
      if u in IdsOf(stripped) {
        var r: Row :| r in stripped && Has(r, "id") && At(r, "id") == u;
        var k :| 0 <= k < |rows| && stripped[k] == r;
        assert rows[k] in rows;
      }
    }
  }

  /** Merging the stripped rows first makes no difference to the final state, in any row order. */
  lemma TwoPhasesAreOneMerge(m: ById, rows: seq<Row>, fields: set<Column>)
    requires AllHaveIds(rows) && "id" !in fields
    ensures AllHaveIds(AllWithout(rows, fields))
    ensures MergeAll(MergeAll(m, AllWithout(rows, fields)), rows) == MergeAll(m, rows)
  {
    WithoutKeepsIds(rows, fields);
    MergeAllIs(m, AllWithout(rows, fields));
    MergeAllIs(MergeAll(m, AllWithout(rows, fields)), rows);
    MergeAllIs(m, rows);
  }

  /** The order of the rows does not matter when their ids are distinct. */
  lemma AnyRowOrder(m: ById, a: seq<Row>, b: seq<Row>)
    requires AllHaveIds(a) && multiset(a) == multiset(b)
    requires forall i, j :: 0 <= i < j < |a| ==> At(a[i], "id") != At(a[j], "id")
    ensures AllHaveIds(b) && MergeAll(m, a) == MergeAll(m, b)
  {
    hide LastWith, MergeAll;
    SameMembers(a, b);
    forall u | u in IdsOf(a) ensures LastWith(a, u) == LastWith(b, u) {
      SameLast(a, LastWith(a, u), LastWith(b, u));
    }
    SameMerge(m, a, b);
  }

  lemma SameMembers(a: seq<Row>, b: seq<Row>)
    requires multiset(a) == multiset(b)
    ensures forall r :: r in a <==> r in b
    ensures IdsOf(a) == IdsOf(b)
  {
    forall r ensures r in a <==> r in b {
      assert r in a <==> r in multiset(a);
      assert r in b <==> r in multiset(b);
    }
  }

  lemma SameMerge(m: ById, a: seq<Row>, b: seq<Row>)
    requires AllHaveIds(a) && AllHaveIds(b) && IdsOf(a) == IdsOf(b)
    requires forall u :: u in IdsOf(a) ==> LastWith(a, u) == LastWith(b, u)
    ensures MergeAll(m, a) == MergeAll(m, b)
  {
    hide LastWith, MergeAll, IdsOf;
    MergeAllIs(m, a);
    MergeAllIs(m, b);
  }

  lemma SameLast(rows: seq<Row>, r: Row, s: Row)
    requires AllHaveIds(rows) && forall i, j :: 0 <= i < j < |rows| ==> At(rows[i], "id") != At(rows[j], "id")
    requires r in rows && s in rows && At(r, "id") == At(s, "id")
    ensures r == s
  {
    var i :| 0 <= i < |rows| && rows[i] == r;
    var j :| 0 <= j < |rows| && rows[j] == s;
    assert i == j;
  }

  /** No imported row has a self-reference that resolves to no row of the table. */
  ghost predicate NoSelfDangling(m: ById, rows: seq<Row>, fields: set<Column>) {
    forall u, f :: u in IdsOf(rows) && u in m && f in fields && Has(m[u], f) ==> At(m[u], f) in m
  }

  /** At the first commit nothing dangles; at the second, exactly when every target is in the table or the snapshot. */
  lemma CommitsAreSound(m: ById, rows: seq<Row>, fields: set<Column>)
    requires AllHaveIds(rows) && "id" !in fields
    requires forall i, j :: 0 <= i < j < |rows| ==> At(rows[i], "id") != At(rows[j], "id")
    ensures AllHaveIds(AllWithout(rows, fields))
    ensures NoSelfDangling(MergeAll(m, AllWithout(rows, fields)), rows, fields)
    ensures NoSelfDangling(MergeAll(MergeAll(m, AllWithout(rows, fields)), rows), rows, fields) <==>
            forall r, f :: r in rows && f in fields && Has(r, f) ==> At(r, f) in m.Keys + IdsOf(rows)
  {
    WithoutKeepsIds(rows, fields);
    TwoPhasesAreOneMerge(m, rows, fields);
    MergeAllIs(m, AllWithout(rows, fields));
    MergeAllIs(m, rows);
    var after := MergeAll(m, rows);
    forall r | r in rows ensures At(r, "id") in IdsOf(rows) && after[At(r, "id")] == r {
      var i :| 0 <= i < |rows| && rows[i] == r;
      LastOfDistinct(rows, i);
    }
    if NoSelfDangling(after, rows, fields) {
      forall r, f | r in rows && f in fields && Has(r, f) ensures At(r, f) in m.Keys + IdsOf(rows) {
        assert Has(after[At(r, "id")], f);
      }
    }
  }

  /** The table when the rows of its file have been merged under their new ids. */
  ghost function FileMerged(script: Script, t: Table, m: ById, rows: seq<Row>, maps: IdMaps): ById
    requires AllHaveIds(rows)
  {
    RewrittenHaveIds(script, t, rows, maps);
    MergeAll(m, AllRewritten(script, t, rows, maps))
  }

  lemma RewrittenHaveIds(script: Script, t: Table, rows: seq<Row>, maps: IdMaps)
    requires AllHaveIds(rows)
    ensures AllHaveIds(AllRewritten(script, t, rows, maps))
  {
    hide NewReference;
    forall i | 0 <= i < |rows| ensures Has(AllRewritten(script, t, rows, maps)[i], "id") {
      assert rows[i] in rows;
    }
  }

  // ------------------------------------------------------- the id maps of a run

  function KeyedTables(script: Script): seq<Table> {
    match script
    case Materialized => ["users", "workspaces", "workspace_memberships", "workspace_runtime_settings",
                          "runtime_feature_flags", "governance_policies", "workflow_templates"]
    case SessionSnapshot => ["users", "workspaces", "workspace_memberships", "workspace_runtime_settings",
                             "workspace_provider_secrets"]
  }

  function TableIn(db: Database, t: Table): ById {
    if t in db then db[t] else map[]
  }

  function RowsIn(data: Dataset, t: Table): seq<Row> {
    if t in data then data[t] else []
  }

  /** Every map finds the rows of its table, looked up under the user and workspace maps of the run. */
  ghost predicate MapsFor(script: Script, db: Database, data: Dataset, norm: Norm, maps: IdMaps) {
    && maps.Keys == Elems(KeyedTables(script))
    && forall t :: t in maps ==>
         IsIdMap(TableIn(db, t), KeyColumns(script, t), RowsIn(data, t), KeyOf(script, t, norm, maps), maps[t])
  }

  lemma SameKeys(m: ById, columns: seq<Column>, rows: seq<Row>, key: Row -> seq<Value>, other: Row -> seq<Value>,
                 mapping: IdMap)
    requires IsIdMap(m, columns, rows, key, mapping) && forall row :: row in rows ==> key(row) == other(row)
    ensures IsIdMap(m, columns, rows, other, mapping)
  {
    hide KeyAt, Complete;
    forall s | s in mapping ensures exists row: Row :: Finds(m, columns, rows, other, s, mapping[s], row) {
      var row: Row :| Finds(m, columns, rows, key, s, mapping[s], row);
      assert Finds(m, columns, rows, other, s, mapping[s], row);
    }
  }

  /** Rewriting depends on the user and workspace maps only through what they send each id to. */
  ghost predicate SameEffect(a: IdMaps, b: IdMaps, t: Table) {
    forall u :: Apply(MapFor(a, t), u) == Apply(MapFor(b, t), u)
  }

  lemma SameReference(script: Script, c: Column, v: Value, a: IdMaps, b: IdMaps)
    requires SameEffect(a, b, "users") && SameEffect(a, b, "workspaces")
    ensures NewReference(script, c, v, a) == NewReference(script, c, v, b)
  {
    hide IsUserField, IsWorkspaceField, MapFor;
    NotBoth(script, c);
    if v.Ref? {
      assert Apply(MapFor(a, "users"), v.id) == Apply(MapFor(b, "users"), v.id);
      assert Apply(MapFor(a, "workspaces"), v.id) == Apply(MapFor(b, "workspaces"), v.id);
    }
  }

  lemma SameLookup(script: Script, t: Table, norm: Norm, a: IdMaps, b: IdMaps)
    requires ByName(t) || (SameEffect(a, b, "users") && SameEffect(a, b, "workspaces"))
    ensures forall row :: KeyOf(script, t, norm, a)(row) == KeyOf(script, t, norm, b)(row)
  {
    hide NewReference, KeyColumns;
    forall row ensures KeyOf(script, t, norm, a)(row) == KeyOf(script, t, norm, b)(row) {
      var x, y := LookupKey(script, t, norm, a, row), LookupKey(script, t, norm, b, row);
      forall i | 0 <= i < |KeyColumns(script, t)| ensures x[i] == y[i] {
        if !ByName(t) { SameReference(script, KeyColumns(script, t)[i], Cell(row, KeyColumns(script, t)[i]), a, b); }
      }
      assert x == y;
    }
  }

  /** Users and workspaces first, the tables that reference them after. */
  method BuildMaps(script: Script, db: Database, data: Dataset, norm: Norm) returns (maps: IdMaps)
    ensures MapsFor(script, db, data, norm, maps)
  {
    hide KeyColumns, IsIdMap, LookupKey;
    var tables := KeyedTables(script);
    maps := map[];
    for i := 0 to |tables|
      invariant maps.Keys == Elems(tables[..i])
      invariant forall t :: t in maps ==>
        IsIdMap(TableIn(db, t), KeyColumns(script, t), RowsIn(data, t), KeyOf(script, t, norm, maps), maps[t])
    {
      var t := tables[i];
      ghost var before := maps;
      var mapping := BuildIdMap(TableIn(db, t), KeyColumns(script, t), RowsIn(data, t), KeyOf(script, t, norm, maps));
      maps := maps[t := mapping];
      assert tables[..i + 1] == tables[..i] + [t];
      TablesApart(script, i);
      forall q | q in maps
        ensures IsIdMap(TableIn(db, q), KeyColumns(script, q), RowsIn(data, q), KeyOf(script, q, norm, maps), maps[q])
      {
        SameLookup(script, q, norm, before, maps);
        SameKeys(TableIn(db, q), KeyColumns(script, q), RowsIn(data, q), KeyOf(script, q, norm, before),
                 KeyOf(script, q, norm, maps), maps[q]);
      }
    }
    assert tables[..|tables|] == tables;
  }

  /** The tables come once each, and the first two are the ones the others are looked up under. */
  lemma TablesApart(script: Script, i: nat)
    requires i < |KeyedTables(script)|
    ensures KeyedTables(script)[i] !in KeyedTables(script)[..i]
    ensures i < 2 <==> ByName(KeyedTables(script)[i])
    ensures i < 2 ==> forall q :: q in KeyedTables(script)[..i] ==> ByName(q)
  {
    var s := KeyedTables(script);
    assert |"users"| == 5 && |"workspaces"| == 10 && |"workspace_memberships"| == 21;
    assert |"workspace_runtime_settings"| == 26;
    assert s[0] == "users" && s[1] == "workspaces" && |s[2]| == 21 && |s[3]| == 26;
    match script
    case Materialized =>
      assert s[4][0] == 'r' && s[5][0] == 'g' && s[6][0] == 'w' && |s[6]| == 18;
    case SessionSnapshot =>
      assert s[4][10] == 'p' && s[3][10] == 'r' && |s[4]| == 26;
  }

  /** The tables with a natural key repeat none, and their emails and slugs are normalised. */
  ghost predicate CleanSnapshot(script: Script, data: Dataset, norm: Norm) {
    forall t :: t in KeyedTables(script) ==>
      StoredUnique(script, t, RowsIn(data, t)) && Normalised(script, t, norm, RowsIn(data, t))
  }

  /** The users and workspaces are matched one to one. */
  lemma NamesAreOneToOne(script: Script, db: Database, data: Dataset, norm: Norm, maps: IdMaps, t: Table)
    requires MapsFor(script, db, data, norm, maps) && CleanSnapshot(script, data, norm) && ByName(t)
    ensures OneToOne(MapFor(maps, t))
  {
    hide IsIdMap, StoredUnique, Normalised, KeyColumns;
    assert KeyedTables(script)[0] == "users" && KeyedTables(script)[1] == "workspaces";
    LookupKeysDistinct(script, t, norm, maps, RowsIn(data, t));
    MatchesAreOneToOne(TableIn(db, t), KeyColumns(script, t), RowsIn(data, t), KeyOf(script, t, norm, maps), maps[t]);
  }

  /** The keys of a clean snapshot are distinct as this run looks them up. */
  lemma LookedUpUnique(script: Script, db: Database, data: Dataset, norm: Norm, maps: IdMaps, t: Table)
    requires MapsFor(script, db, data, norm, maps) && CleanSnapshot(script, data, norm) && t in maps
    requires ByName(t) || KeysApart(script, t, RowsIn(data, t), maps)
    ensures SnapshotUnique(RowsIn(data, t), KeyOf(script, t, norm, maps))
  {
    hide IsIdMap, StoredUnique, Normalised, KeyColumns, KeysApart, SnapshotUnique;
    NamesAreOneToOne(script, db, data, norm, maps, "users");
    NamesAreOneToOne(script, db, data, norm, maps, "workspaces");
    LookupKeysDistinct(script, t, norm, maps, RowsIn(data, t));
  }

  /** The natural keys of the rows refer to users and workspaces of the snapshot only. */
  ghost predicate KeysStayInside(script: Script, data: Dataset, t: Table) {
    forall k, i :: 0 <= k < |RowsIn(data, t)| && 0 <= i < |KeyColumns(script, t)| ==>
      KeyStaysInside(script, data, RowsIn(data, t)[k], KeyColumns(script, t)[i])
  }

  ghost predicate KeyStaysInside(script: Script, data: Dataset, row: Row, c: Column) {
    Has(row, c) ==>
      && (IsUserField(script, c) ==> At(row, c) in IdsOf(RowsIn(data, "users")))
      && (IsWorkspaceField(script, c) ==> At(row, c) in IdsOf(RowsIn(data, "workspaces")))
  }

  lemma MemberIsApart(rows: seq<Row>, mapping: IdMap, u: Uuid)
    requires NoCollision(rows, mapping) && u in IdsOf(rows)
    ensures Apart(mapping, u)
  {
    var r: Row :| r in rows && Has(r, "id") && At(r, "id") == u;
    var i :| 0 <= i < |rows| && rows[i] == r;
  }

  /** Then they keep apart when neither users nor workspaces collide. */
  lemma InsideIsApart(script: Script, data: Dataset, maps: IdMaps, t: Table)
    requires KeysStayInside(script, data, t)
    requires NoCollision(RowsIn(data, "users"), MapFor(maps, "users"))
    requires NoCollision(RowsIn(data, "workspaces"), MapFor(maps, "workspaces"))
    ensures KeysApart(script, t, RowsIn(data, t), maps)
  {
    hide KeyColumns, IsUserField, IsWorkspaceField, NoCollision, Apart, MapFor, RowsIn, IdsOf;
    forall k, i | 0 <= k < |RowsIn(data, t)| && 0 <= i < |KeyColumns(script, t)|
      ensures ReferenceApart(script, KeyColumns(script, t)[i], Cell(RowsIn(data, t)[k], KeyColumns(script, t)[i]), maps)
    {
      var row, c := RowsIn(data, t)[k], KeyColumns(script, t)[i];
      assert KeyStaysInside(script, data, row, c);
      if Has(row, c) && IsUserField(script, c) {
        MemberIsApart(RowsIn(data, "users"), MapFor(maps, "users"), At(row, c));
      }
      if Has(row, c) && IsWorkspaceField(script, c) {
        MemberIsApart(RowsIn(data, "workspaces"), MapFor(maps, "workspaces"), At(row, c));
      }
    }
  }

  /** A clean snapshot whose references in keys keep apart has no two rows that are looked up under one key. */
  lemma ApartIsMatched(script: Script, db: Database, data: Dataset, norm: Norm, maps: IdMaps, t: Table)
    requires MapsFor(script, db, data, norm, maps) && CleanSnapshot(script, data, norm) && t in maps
    requires ByName(t) || KeysApart(script, t, RowsIn(data, t), maps)
    ensures DistinctIds(RowsIn(data, t)) && Normalised(script, t, norm, RowsIn(data, t))
    ensures RepeatsAreMatched(RowsIn(data, t), KeyOf(script, t, norm, maps), maps[t])
  {
    LookedUpUnique(script, db, data, norm, maps, t);
    hide IsIdMap, StoredUnique, Normalised, KeyColumns, KeysApart, LookupKey, Complete;
  }

  /**
   In either script: whatever rows of the snapshot have been taken so far, in whatever order, a
   table holds no natural key twice, exactly when all rows that share one are matched to a row of
   the target.  When no id collides, the same decides about the table in the end.
   */
  lemma ImportKeepsKeysUnique(script: Script, db: Database, data: Dataset, norm: Norm, maps: IdMaps, t: Table)
    requires MapsFor(script, db, data, norm, maps) && t in maps && t in db
    requires KeysUnique(db[t], KeyColumns(script, t))
    requires DistinctIds(RowsIn(data, t)) && Normalised(script, t, norm, RowsIn(data, t))
    ensures AllHaveIds(AllRewritten(script, t, RowsIn(data, t), maps))
    ensures StaysUnique(db[t], KeyColumns(script, t), AllRewritten(script, t, RowsIn(data, t), maps)) <==>
            RepeatsAreMatched(RowsIn(data, t), KeyOf(script, t, norm, maps), maps[t])
    ensures NoCollision(RowsIn(data, t), maps[t]) ==>
      (KeysUnique(MergeAll(db[t], AllRewritten(script, t, RowsIn(data, t), maps)), KeyColumns(script, t)) <==>
       RepeatsAreMatched(RowsIn(data, t), KeyOf(script, t, norm, maps), maps[t]))
  {
    hide Rewritten, KeyColumns, LookupKey, IsIdMap, Rewrites, KeysUnique, Normalised, StaysUnique, RepeatsAreMatched,
         NoCollision, MergeAll, AllRewritten;
    var rows, columns, key := RowsIn(data, t), KeyColumns(script, t), KeyOf(script, t, norm, maps);
    RewritesTable(script, t, norm, maps, rows);
    RewrittenHaveIds(script, t, rows, maps);
    var rewritten := AllRewritten(script, t, rows, maps);
    StaysUniqueIff(db[t], columns, rows, key, maps[t], rewritten);
    if NoCollision(rows, maps[t]) {
      WholeIsUniqueIff(db[t], columns, rows, key, maps[t], rewritten, rewritten);
    }
  }

  // ------------------------------------------------------- the script

  ghost predicate Loadable(db: Database, data: Dataset, order: seq<Table>) {
    && (forall t :: t in order ==> t in db)
    && (forall t :: t in data ==> AllHaveIds(data[t]))
  }

  /** The database when the files of the tables of `done` have been merged. */
  ghost function Merged(db: Database, data: Dataset, maps: IdMaps, done: seq<Table>): Database
    requires forall t :: t in data ==> AllHaveIds(data[t])
  {
    map t | t in db ::
      if t in done && t in data then FileMerged(SessionSnapshot, t, db[t], data[t], maps) else db[t]
  }

  lemma MergedStep(db: Database, data: Dataset, maps: IdMaps, done: seq<Table>, t: Table)
    requires (forall q :: q in data ==> AllHaveIds(data[q])) && t in db && t !in done
    ensures t in Merged(db, data, maps, done) && Merged(db, data, maps, done)[t] == db[t]
    ensures Merged(db, data, maps, done)[t := FileMerged(SessionSnapshot, t, db[t], RowsIn(data, t), maps)]
            == Merged(db, data, maps, done + [t])
  {
    NoFile(SessionSnapshot, t, db[t], maps);
    hide FileMerged;
  }

  lemma NothingMerged(db: Database, data: Dataset, maps: IdMaps)
    requires forall t :: t in data ==> AllHaveIds(data[t])
    ensures Merged(db, data, maps, []) == db
  {
    hide FileMerged;
  }

  lemma NoFile(script: Script, t: Table, m: ById, maps: IdMaps)
    ensures FileMerged(script, t, m, [], maps) == m
  {
    assert AllRewritten(script, t, [], maps) == [];
  }
}
