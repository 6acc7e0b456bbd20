/** Which rows of the target a snapshot row is matched to, in words of tables and columns. */
module KeysByName {
  import opened Names
  import opened Relational
  import opened NaturalKeys
  import opened SnapshotRewrite
  import opened SessionImport

  /** The natural key of a table. */
  ghost predicate NaturalKeyIs(script: Script, t: Table, columns: seq<Column>) {
    if t == "users" then columns == ["email"]
    else if t == "workspaces" then columns == ["slug"]
    else if t == "workspace_memberships" then columns == ["workspace_id", "user_id"]
    else if t == "workspace_runtime_settings" then columns == ["workspace_id", "version"]
    else if t == "runtime_feature_flags" then script.Materialized? && columns == ["workspace_id", "flag_key"]
    else if t == "governance_policies" then script.Materialized? && columns == ["workspace_id", "policy_key"]
    else if t == "workflow_templates" then script.Materialized? && columns == ["workspace_id", "template_key"]
    else && t == "workspace_provider_secrets" && script.SessionSnapshot?
         && columns == ["workspace_id", "provider_key", "secret_kind"]
  }

  /** The tables whose rows are matched. */
  ghost predicate MatchedTable(script: Script, t: Table) {
    || t == "users" || t == "workspaces" || t == "workspace_memberships" || t == "workspace_runtime_settings"
    || match script
       case Materialized =>
         t == "runtime_feature_flags" || t == "governance_policies" || t == "workflow_templates"
       case SessionSnapshot => t == "workspace_provider_secrets"
  }

  /** What column `c` is compared with: emails and slugs normalised, references under the new ids. */
  ghost predicate ComparedWith(script: Script, t: Table, c: Column, cell: Value, v: Value, norm: Norm, maps: IdMaps) {
    if t == "users" || t == "workspaces" then v == norm(cell) else NewCellIs(script, t, c, cell, v, maps)
  }

  /** In each column of the key the target row holds what the snapshot row is compared with, and that is not empty. */
  ghost predicate SameNaturalKey(script: Script, t: Table, columns: seq<Column>, row: Row, target: Row, norm: Norm,
                                 maps: IdMaps) {
    columns != [] && forall i :: 0 <= i < |columns| ==>
      && Cell(target, columns[i]) != Null && Cell(target, columns[i]) != Text([])
      && ComparedWith(script, t, columns[i], Cell(row, columns[i]), Cell(target, columns[i]), norm, maps)
  }

  /** The map of a table: to a target row with the same natural key, and whenever there is one. */
  ghost predicate MapIs(script: Script, t: Table, columns: seq<Column>, m: ById, rows: seq<Row>, mapping: IdMap,
                        norm: Norm, maps: IdMaps) {
    && (forall s :: s in mapping ==> mapping[s] in m && exists row: Row ::
          row in rows && Has(row, "id") && At(row, "id") == s
          && SameNaturalKey(script, t, columns, row, m[mapping[s]], norm, maps))
    && (forall row: Row, u :: row in rows && Has(row, "id") && u in m ==>
          (SameNaturalKey(script, t, columns, row, m[u], norm, maps) ==> At(row, "id") in mapping))
  }

  ghost predicate MapsByName(script: Script, db: Database, data: Dataset, norm: Norm, maps: IdMaps) {
    && (forall t :: t in maps <==> MatchedTable(script, t))
    && forall t, columns :: t in maps && NaturalKeyIs(script, t, columns) ==>
         MapIs(script, t, columns, TableIn(db, t), RowsIn(data, t), maps[t], norm, maps)
  }

  lemma TableNames()
    ensures |"users"| == 5 && |"workspaces"| == 10 && |"workspace_memberships"| == 21
    ensures |"workspace_runtime_settings"| == 26 && |"runtime_feature_flags"| == 21 && |"governance_policies"| == 19
    ensures |"workflow_templates"| == 18 && |"workspace_provider_secrets"| == 26
    ensures "workspace_memberships"[0] != "runtime_feature_flags"[0]
    ensures "workspace_runtime_settings"[10] != "workspace_provider_secrets"[10]
  {
  }

  lemma KeyColumnsAre(script: Script, t: Table)
    requires MatchedTable(script, t)
    ensures forall columns :: NaturalKeyIs(script, t, columns) <==> columns == KeyColumns(script, t)
  {
    TableNames();
  }

  lemma KeyedTablesAre(script: Script, t: Table)
    ensures t in KeyedTables(script) <==> MatchedTable(script, t)
  {
  }

  /** The key looked up is what the columns are compared with. */
  lemma LookedUpIs(script: Script, t: Table, norm: Norm, maps: IdMaps, row: Row, i: nat, v: Value)
    requires i < |KeyColumns(script, t)|
    ensures ComparedWith(script, t, KeyColumns(script, t)[i], Cell(row, KeyColumns(script, t)[i]), v, norm, maps) <==>
            v == LookupKey(script, t, norm, maps, row)[i]
  {
    KeyColumnsAreOther(script, t, i);
    var c := KeyColumns(script, t)[i];
    hide KeyColumns, IsUserField, IsWorkspaceField, UserColumn, WorkspaceColumn;
    ColumnsAre(script, c);
    NotBoth(script, c);
    var cell := Cell(row, c);
    assert LookupKey(script, t, norm, maps, row)[i]
        == if ByName(t) then norm(cell) else NewReference(script, c, cell, maps);
    assert !ByName(t) ==> (NewCellIs(script, t, c, cell, v, maps) <==> v == NewReference(script, c, cell, maps));
  }

  lemma SameKeyIff(script: Script, t: Table, norm: Norm, maps: IdMaps, row: Row, target: Row)
    ensures SameNaturalKey(script, t, KeyColumns(script, t), row, target, norm, maps) <==>
            Complete(LookupKey(script, t, norm, maps, row))
            && KeyAt(KeyColumns(script, t), target) == LookupKey(script, t, norm, maps, row)
  {
    hide KeyColumns, ComparedWith;
    var columns, key := KeyColumns(script, t), LookupKey(script, t, norm, maps, row);
    assert |columns| == |key| by { KeyLength(script, t, norm, maps, row); }
    hide LookupKey;
    forall i | 0 <= i < |columns|
      ensures ComparedWith(script, t, columns[i], Cell(row, columns[i]), Cell(target, columns[i]), norm, maps) <==>
              KeyAt(columns, target)[i] == key[i]
    {
      LookedUpIs(script, t, norm, maps, row, i, Cell(target, columns[i]));
    }
    assert KeyAt(columns, target) == key <==> forall i :: 0 <= i < |columns| ==> KeyAt(columns, target)[i] == key[i];
  }

  lemma KeyLength(script: Script, t: Table, norm: Norm, maps: IdMaps, row: Row)
    ensures |KeyColumns(script, t)| == |LookupKey(script, t, norm, maps, row)|
  {
  }

  lemma MapIsByName(script: Script, t: Table, m: ById, rows: seq<Row>, mapping: IdMap, norm: Norm, maps: IdMaps)
    requires IsIdMap(m, KeyColumns(script, t), rows, KeyOf(script, t, norm, maps), mapping)
    ensures MapIs(script, t, KeyColumns(script, t), m, rows, mapping, norm, maps)
  {
    hide KeyColumns, LookupKey, Complete, KeyAt, SameNaturalKey;
    var columns := KeyColumns(script, t);
    forall row: Row, u | u in m
      ensures SameNaturalKey(script, t, columns, row, m[u], norm, maps) <==>
              Complete(LookupKey(script, t, norm, maps, row))
              && KeyAt(columns, m[u]) == LookupKey(script, t, norm, maps, row)
    {
      SameKeyIff(script, t, norm, maps, row, m[u]);
    }
    forall s | s in mapping
      ensures mapping[s] in m && exists row: Row ::
                row in rows && Has(row, "id") && At(row, "id") == s
                && SameNaturalKey(script, t, columns, row, m[mapping[s]], norm, maps)
    {
      var row: Row :| Finds(m, columns, rows, KeyOf(script, t, norm, maps), s, mapping[s], row);
      assert SameNaturalKey(script, t, columns, row, m[mapping[s]], norm, maps);
    }
  }

  /** The maps of a run match the rows that have, by table and column, the same natural key. */
  lemma MapsAreByName(script: Script, db: Database, data: Dataset, norm: Norm, maps: IdMaps)
    requires MapsFor(script, db, data, norm, maps)
    ensures MapsByName(script, db, data, norm, maps)
  {
    hide IsIdMap, KeyColumns, LookupKey, MapIs, NaturalKeyIs, MatchedTable, KeyedTables;
    forall t ensures t in maps <==> MatchedTable(script, t) {
      KeyedTablesAre(script, t);
      assert t in maps <==> t in Elems(KeyedTables(script));
    }
    forall t, columns | t in maps && NaturalKeyIs(script, t, columns)
      ensures MapIs(script, t, columns, TableIn(db, t), RowsIn(data, t), maps[t], norm, maps)
    {
      KeyColumnsAre(script, t);
      MapIsByName(script, t, TableIn(db, t), RowsIn(data, t), maps[t], norm, maps);
    }
  }
}
