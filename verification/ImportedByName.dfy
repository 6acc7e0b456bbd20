/** What `scripts/import_session_snapshot.py` leaves in the database, in words of tables, columns and rows. */
module ImportedByName {
  import opened Names
  import opened Relational
  import opened NaturalKeys
  import opened SnapshotRewrite
  import opened SessionImport

  /** The tables that have a file. */
  ghost predicate ImportedTable(t: Table) {
    || t == "users" || t == "workspaces" || t == "workspace_memberships" || t == "sessions"
    || t == "workspace_runtime_settings" || t == "workspace_provider_secrets" || t == "runtime_settings_audit"
    || t == "execution_logs" || t == "artifact_records" || t == "journey_stage_artifacts" || t == "stage_operations"
    || t == "subagent_runs" || t == "skill_runs" || t == "skill_run_artifacts"
    || t == "diagram_generation_jobs_v3" || t == "diagram_versions_v3" || t == "llm_usage_ledger"
  }

  /** The tables that column `c` of table `t` refers to, as the models declare it. */
  ghost predicate Declares(t: Table, c: Column, parent: Table) {
    if parent == "users" then
      || (t == "workspaces" && c == "created_by_user_id")
      || (t == "sessions" && (c == "user_id" || c == "archived_by_user_id" || c == "deleted_by_user_id"))
      || ((t == "workspace_memberships" || t == "stage_operations" || t == "llm_usage_ledger") && c == "user_id")
      || ((t == "workspace_runtime_settings" || t == "workspace_provider_secrets") && c == "updated_by_user_id")
      || (t == "runtime_settings_audit" && c == "actor_user_id")
      || (t == "journey_stage_artifacts" && c == "approved_by_user_id")
      || (t == "diagram_generation_jobs_v3" && c == "requested_by_user_id")
      || (t == "diagram_versions_v3" && c == "created_by_user_id")
    else if parent == "workspaces" then
      || (t == "users" && c == "default_workspace_id")
      || (c == "workspace_id" && (t == "workspace_memberships" || t == "sessions" || t == "workspace_runtime_settings"
                                  || t == "workspace_provider_secrets" || t == "journey_stage_artifacts"
                                  || t == "stage_operations" || t == "diagram_generation_jobs_v3"
                                  || t == "diagram_versions_v3" || t == "llm_usage_ledger"))
    else if parent == "sessions" then
      c == "session_id" && (t == "execution_logs" || t == "artifact_records" || t == "journey_stage_artifacts"
                            || t == "stage_operations" || t == "subagent_runs" || t == "skill_runs"
                            || t == "diagram_generation_jobs_v3" || t == "diagram_versions_v3"
                            || t == "llm_usage_ledger")
    else if parent == "journey_stage_artifacts" then
      || (t == "stage_operations" && c == "result_artifact_id")
      || (t == "journey_stage_artifacts" && (c == "based_on_artifact_id" || c == "superseded_by_artifact_id"))
    else if parent == "skill_runs" then t == "skill_run_artifacts" && c == "skill_run_id"
    else parent == "diagram_generation_jobs_v3" && t == "diagram_versions_v3" && c == "job_id"
  }

  ghost predicate Before(p: Table, t: Table) {
    exists i, j :: 0 <= i < j < |TABLE_IMPORT_ORDER| && TABLE_IMPORT_ORDER[i] == p && TABLE_IMPORT_ORDER[j] == t
  }

  lemma ImportOrderIsDistinct()
    ensures Distinct(TABLE_IMPORT_ORDER)
  {
    var s := TABLE_IMPORT_ORDER;
    assert |s[0]| == 5 && |s[1]| == 10 && |s[2]| == 21 && |s[3]| == 8 && |s[4]| == 26 && |s[5]| == 26 && |s[6]| == 22
        && |s[7]| == 14 && |s[8]| == 16 && |s[9]| == 23 && |s[10]| == 16 && |s[11]| == 13 && |s[12]| == 10
        && |s[13]| == 19 && |s[14]| == 26 && |s[15]| == 19 && |s[16]| == 16;
    assert s[1][0] == 'w' && s[12][0] == 's' && s[13][0] == 's' && s[15][0] == 'd';
    assert s[4][10] == 'r' && s[5][10] == 'p' && s[4][0] == 'w' && s[5][0] == 'w' && s[14][0] == 'd';
    assert s[8][0] == 'a' && s[10][0] == 's' && s[16][0] == 'l';
  }

  lemma ImportedTablesAre(t: Table)
    ensures t in TABLE_IMPORT_ORDER <==> ImportedTable(t)
  {
  }

  lemma EarlierIsBefore(i: nat, j: nat)
    requires i < j < |TABLE_IMPORT_ORDER|
    ensures Before(TABLE_IMPORT_ORDER[i], TABLE_IMPORT_ORDER[j])
  {
  }

  lemma BeforeIsEarlier(i: nat, j: nat)
    requires i < |TABLE_IMPORT_ORDER| && j < |TABLE_IMPORT_ORDER|
    requires Before(TABLE_IMPORT_ORDER[i], TABLE_IMPORT_ORDER[j])
    ensures i < j
  {
    ImportOrderIsDistinct();
    hide TABLE_IMPORT_ORDER;
  }

  /** Where the tables that others refer to stand, and which come after them. */
  lemma Places(t: Table) returns (i: nat)
    requires ImportedTable(t)
    ensures i < |TABLE_IMPORT_ORDER| && TABLE_IMPORT_ORDER[i] == t
    ensures (t == "users" <==> i == 0) && (t == "workspaces" <==> i == 1) && (t == "sessions" <==> i == 3)
    ensures (t == "journey_stage_artifacts" <==> i == 9) && (t == "stage_operations" <==> i == 10)
    ensures (t == "skill_runs" <==> i == 12) && (t == "skill_run_artifacts" <==> i == 13)
    ensures (t == "diagram_generation_jobs_v3" <==> i == 14) && (t == "diagram_versions_v3" <==> i == 15)
    ensures (t == "workspace_memberships" || t == "workspace_runtime_settings" || t == "workspace_provider_secrets") ==>
            i in {2, 4, 5}
    ensures i in {2, 4, 5, 6} ==> t != "execution_logs" && t != "artifact_records" && t != "subagent_runs"
                                  && t != "llm_usage_ledger"
  {
    ImportedTablesAre(t);
    i :| 0 <= i < |TABLE_IMPORT_ORDER| && TABLE_IMPORT_ORDER[i] == t;
    ImportOrderIsDistinct();
  }

  /** A column is declared by a table that has a file, and so has the table it refers to. */
  lemma DeclaredAreImported(t: Table, c: Column, parent: Table)
    requires Declares(t, c, parent)
    ensures ImportedTable(t) && ImportedTable(parent)
  {
  }

  /** The references within a table are the deferred ones. */
  lemma DeferredIs(t: Table, c: Column, parent: Table)
    requires Declares(t, c, parent)
    ensures t == parent <==> c in DeferredFields(t)
  {
  }

  /**
   The files come in an order that puts every row's parents first, but for the default workspace
   of a user and the references within a table, which are the deferred ones.
   */
  lemma ParentsComeFirst(t: Table, c: Column, parent: Table)
    requires Declares(t, c, parent)
    ensures Before(parent, t) <==> t != parent && t != "users"
    ensures t == parent <==> c in DeferredFields(t)
  {
    DeclaredAreImported(t, c, parent);
    DeferredIs(t, c, parent);
    var i := Places(parent);
    var j := Places(t);
    assert i < j <==> t != parent && t != "users";
    hide TABLE_IMPORT_ORDER;
    if i < j { EarlierIsBefore(i, j); }
    if Before(parent, t) { BeforeIsEarlier(i, j); }
  }

  // ------------------------------------------------------- what the files leave

  /** The file of a table. */
  ghost function FileOf(data: Dataset, t: Table): seq<Row> {
    if t in data && ImportedTable(t) then data[t] else []
  }

  /** The row is imported under the id `u`. */
  ghost predicate BecomesRow(t: Table, row: Row, maps: IdMaps, u: Uuid) {
    "id" in row && row["id"].Ref? && Sent(maps, t, row["id"].id, Ref(u))
  }

  /** Row `i` is the last of its file to be imported under the id `u`. */
  ghost predicate LastFor(t: Table, rows: seq<Row>, maps: IdMaps, u: Uuid, i: int) {
    && 0 <= i < |rows| && BecomesRow(t, rows[i], maps, u)
    && forall j :: i < j < |rows| ==> !BecomesRow(t, rows[j], maps, u)
  }

  /**
   Under the id of an imported row stands the last row imported under it, with its references
   following the maps and all else as in the file; any other row is the one the table had.
   */
  ghost predicate TableImported(t: Table, before: ById, rows: seq<Row>, maps: IdMaps, after: ById) {
    && (forall u :: u in after <==> u in before || exists i :: LastFor(t, rows, maps, u, i))
    && (forall u, i :: u in after && LastFor(t, rows, maps, u, i) ==>
          NewRowIs(SessionSnapshot, t, rows[i], after[u], maps))
    && (forall u :: u in after && (forall i :: !LastFor(t, rows, maps, u, i)) ==>
          u in before && after[u] == before[u])
  }

  ghost predicate Imported(db: Database, data: Dataset, maps: IdMaps, after: Database) {
    after.Keys == db.Keys && forall t :: t in db ==> TableImported(t, db[t], FileOf(data, t), maps, after[t])
  }

  lemma {:induction false} LastForExists(t: Table, rows: seq<Row>, maps: IdMaps, u: Uuid, k: nat) returns (i: nat)
    requires k < |rows| && BecomesRow(t, rows[k], maps, u)
    ensures LastFor(t, rows, maps, u, i)
    decreases |rows| - k
  {
    if j :| k < j < |rows| && BecomesRow(t, rows[j], maps, u) {
      i := LastForExists(t, rows, maps, u, j);
    } else {
      i := k;
    }
  }

  lemma NewIdIs(t: Table, row: Row, maps: IdMaps, u: Uuid)
    requires Has(row, "id")
    ensures Has(Rewritten(SessionSnapshot, t, row, maps), "id")
    ensures At(Rewritten(SessionSnapshot, t, row, maps), "id") == u <==> BecomesRow(t, row, maps, u)
  {
    RewrittenIs(SessionSnapshot, t, row, maps);
    hide Rewritten, UserColumn, WorkspaceColumn;
  }

  /** The rows of `full` carry the ids under which those of the file are imported. */
  ghost predicate UnderNewIds(t: Table, rows: seq<Row>, maps: IdMaps, full: seq<Row>) {
    && |full| == |rows| && AllHaveIds(full)
    && forall k, u :: 0 <= k < |rows| && full[k] in full ==>
         (At(full[k], "id") == u <==> BecomesRow(t, rows[k], maps, u))
  }

  lemma RewrittenUnderNewIds(t: Table, rows: seq<Row>, maps: IdMaps)
    requires AllHaveIds(rows)
    ensures UnderNewIds(t, rows, maps, AllRewritten(SessionSnapshot, t, rows, maps))
  {
    RewrittenHaveIds(SessionSnapshot, t, rows, maps);
    hide Rewritten, BecomesRow;
    var full := AllRewritten(SessionSnapshot, t, rows, maps);
    forall k, u | 0 <= k < |rows| && full[k] in full
      ensures At(full[k], "id") == u <==> BecomesRow(t, rows[k], maps, u)
    {
      assert rows[k] in rows;
      NewIdIs(t, rows[k], maps, u);
    }
  }

  lemma LastIsLast(t: Table, rows: seq<Row>, maps: IdMaps, full: seq<Row>, u: Uuid, i: nat)
    requires UnderNewIds(t, rows, maps, full) && LastFor(t, rows, maps, u, i)
    ensures u in IdsOf(full) && LastWith(full, u) == full[i]
  {
    hide BecomesRow, LastWith;
    assert full[i] in full;
    var x := LastIndex(full, u);
    assert full[x] in full && BecomesRow(t, rows[x], maps, u);
    assert x <= i;
  }

  lemma SomeIsLast(t: Table, rows: seq<Row>, maps: IdMaps, full: seq<Row>, u: Uuid)
    requires UnderNewIds(t, rows, maps, full) && u in IdsOf(full)
    ensures exists i :: LastFor(t, rows, maps, u, i)
  {
    hide BecomesRow, LastWith;
    var x := LastIndex(full, u);
    assert full[x] in full;
    var i := LastForExists(t, rows, maps, u, x);
  }

  lemma RowLands(t: Table, before: ById, rows: seq<Row>, maps: IdMaps, u: Uuid, i: nat)
    requires AllHaveIds(rows) && LastFor(t, rows, maps, u, i)
    ensures u in FileMerged(SessionSnapshot, t, before, rows, maps)
    ensures NewRowIs(SessionSnapshot, t, rows[i], FileMerged(SessionSnapshot, t, before, rows, maps)[u], maps)
  {
    RewrittenUnderNewIds(t, rows, maps);
    RewrittenHaveIds(SessionSnapshot, t, rows, maps);
    var full := AllRewritten(SessionSnapshot, t, rows, maps);
    MergeAllIs(before, full);
    assert full[i] == Rewritten(SessionSnapshot, t, rows[i], maps);
    hide Rewritten, AllRewritten, BecomesRow, NewRowIs, MergeAll, LastWith, UnderNewIds, IdsOf;
    LastIsLast(t, rows, maps, full, u, i);
    RewrittenIs(SessionSnapshot, t, rows[i], maps);
  }

  lemma RowStays(t: Table, before: ById, rows: seq<Row>, maps: IdMaps, u: Uuid)
    requires AllHaveIds(rows) && forall i :: !LastFor(t, rows, maps, u, i)
    ensures var after := FileMerged(SessionSnapshot, t, before, rows, maps);
            (u in after <==> u in before) && (u in before ==> after[u] == before[u])
  {
    RewrittenUnderNewIds(t, rows, maps);
    RewrittenHaveIds(SessionSnapshot, t, rows, maps);
    var full := AllRewritten(SessionSnapshot, t, rows, maps);
    MergeAllIs(before, full);
    hide Rewritten, AllRewritten, LastFor, MergeAll, LastWith, UnderNewIds, IdsOf;
    if u in IdsOf(full) { SomeIsLast(t, rows, maps, full, u); }
  }

  /** The merge of a file, row by row. */
  lemma FileIsImported(t: Table, before: ById, rows: seq<Row>, maps: IdMaps)
    requires AllHaveIds(rows)
    ensures TableImported(t, before, rows, maps, FileMerged(SessionSnapshot, t, before, rows, maps))
  {
    hide LastFor, FileMerged, NewRowIs;
    var after := FileMerged(SessionSnapshot, t, before, rows, maps);
    forall u, i | LastFor(t, rows, maps, u, i)
      ensures 0 <= i < |rows| && u in after && NewRowIs(SessionSnapshot, t, rows[i], after[u], maps)
    {
      InRange(t, rows, maps, u, i);
      RowLands(t, before, rows, maps, u, i);
    }
    forall u | forall i :: !LastFor(t, rows, maps, u, i)
      ensures (u in after <==> u in before) && (u in before ==> after[u] == before[u])
    {
      RowStays(t, before, rows, maps, u);
    }
  }

  lemma InRange(t: Table, rows: seq<Row>, maps: IdMaps, u: Uuid, i: int)
    requires LastFor(t, rows, maps, u, i)
    ensures 0 <= i < |rows|
  {
  }

  /** The database after the whole import. */
  lemma MergedIsImported(db: Database, data: Dataset, maps: IdMaps)
    requires forall t :: t in data ==> AllHaveIds(data[t])
    ensures Imported(db, data, maps, Merged(db, data, maps, TABLE_IMPORT_ORDER))
  {
    hide TABLE_IMPORT_ORDER, ImportedTable, FileMerged, TableImported;
    forall t | t in db
      ensures TableImported(t, db[t], FileOf(data, t), maps, Merged(db, data, maps, TABLE_IMPORT_ORDER)[t])
    {
      ImportedTablesAre(t);
      if t in data && ImportedTable(t) {
        FileIsImported(t, db[t], data[t], maps);
      } else {
        NothingImported(t, db[t], maps);
      }
    }
  }

  lemma NothingImported(t: Table, m: ById, maps: IdMaps)
    ensures TableImported(t, m, [], maps, m)
  {
  }

  // ------------------------------------------------------- the first commit

  /** The two self-references of a stage artifact are null, and nothing else changes. */
  ghost predicate HeldBack(t: Table, row: Row, stripped: Row) {
    && stripped.Keys == row.Keys
    && forall c :: c in row ==>
         stripped[c] == if t == "journey_stage_artifacts"
                           && (c == "based_on_artifact_id" || c == "superseded_by_artifact_id")
                        then Null else row[c]
  }

  lemma StrippedIs(t: Table, row: Row)
    ensures HeldBack(t, row, Without(row, DeferredFields(t)))
  {
  }
}
