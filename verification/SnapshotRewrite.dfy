/** `_rewrite_row` and `_remap_row_ids`: a snapshot row under the ids of the target. */
module SnapshotRewrite {
  import opened Relational
  import opened Strings
  import opened NaturalKeys

  type Norm = Value -> Value

  const USER_ID_FIELDS: set<Column> := {
    "user_id", "created_by_user_id", "updated_by_user_id", "approved_by_user_id", "archived_by_user_id",
    "deleted_by_user_id", "requested_by_user_id", "actor_user_id", "buyer_user_id"}

  const WORKSPACE_ID_FIELDS: set<Column> := {"workspace_id", "default_workspace_id"}

  predicate IsUserField(script: Script, c: Column) {
    match script
    case Materialized => c == "user_id" || EndsWith(c, "_user_id")
    case SessionSnapshot => c in USER_ID_FIELDS
  }

  predicate IsWorkspaceField(script: Script, c: Column) {
    match script
    case Materialized => c == "workspace_id" || EndsWith(c, "_workspace_id")
    case SessionSnapshot => c in WORKSPACE_ID_FIELDS
  }

  /** The id maps, one for each table with a natural key. */
  type IdMaps = map<Table, IdMap>

  function MapFor(maps: IdMaps, t: Table): IdMap {
    if t in maps then maps[t] else map[]
  }

  /** A user or workspace reference under its new id. */
  function NewReference(script: Script, c: Column, v: Value, maps: IdMaps): Value {
    if v.Ref? && IsUserField(script, c) && v.id in MapFor(maps, "users") then Ref(MapFor(maps, "users")[v.id])
    else if v.Ref? && IsWorkspaceField(script, c) && v.id in MapFor(maps, "workspaces")
    then Ref(MapFor(maps, "workspaces")[v.id])
    else v
  }

  function NewCell(script: Script, t: Table, c: Column, v: Value, maps: IdMaps): Value {
    if c == "id" then (if v.Ref? && v.id in MapFor(maps, t) then Ref(MapFor(maps, t)[v.id]) else v)
    else if t == "runtime_settings_audit" && c == "scope_id" then
      (if v.Ref? && v.id in MapFor(maps, "workspaces") then Ref(MapFor(maps, "workspaces")[v.id]) else v)
    else NewReference(script, c, v, maps)
  }

  function Rewritten(script: Script, t: Table, row: Row, maps: IdMaps): Row {
    map c | c in row :: NewCell(script, t, c, row[c], maps)
  }

  function AllRewritten(script: Script, t: Table, rows: seq<Row>, maps: IdMaps): seq<Row> {
    seq(|rows|, i requires 0 <= i < |rows| => Rewritten(script, t, rows[i], maps))
  }

  lemma ShortIsNoReference(script: Script, c: Column)
    requires |c| < 7
    ensures !IsUserField(script, c) && !IsWorkspaceField(script, c)
  {
  }

  lemma ScopeIsNoReference(script: Script)
    ensures !IsUserField(script, "scope_id") && !IsWorkspaceField(script, "scope_id")
  {
    assert "scope_id"[0] != "_user_id"[0];
    LongSuffix("scope_id", "_user_id");
  }

  lemma NotReferenceFields(script: Script)
    ensures !IsUserField(script, "id") && !IsWorkspaceField(script, "id")
    ensures !IsUserField(script, "scope_id") && !IsWorkspaceField(script, "scope_id")
  {
    hide IsUserField, IsWorkspaceField;
    ShortIsNoReference(script, "id");
    ScopeIsNoReference(script);
  }

  lemma NamesAreNoReferences(script: Script)
    ensures !IsUserField(script, "email") && !IsWorkspaceField(script, "email")
    ensures !IsUserField(script, "slug") && !IsWorkspaceField(script, "slug")
  {
    hide IsUserField, IsWorkspaceField;
    ShortIsNoReference(script, "email");
    ShortIsNoReference(script, "slug");
  }

  // ------------------------------------------------------- the columns by name

  /** A column that refers to a user: by its ending in the one script, from a list in the other. */
  ghost predicate UserColumn(script: Script, c: Column) {
    match script
    case Materialized => c == "user_id" || exists p: string :: c == p + "_user_id"
    case SessionSnapshot =>
      || c == "user_id" || c == "created_by_user_id" || c == "updated_by_user_id" || c == "approved_by_user_id"
      || c == "archived_by_user_id" || c == "deleted_by_user_id" || c == "requested_by_user_id"
      || c == "actor_user_id" || c == "buyer_user_id"
  }

  /** A column that refers to a workspace. */
  ghost predicate WorkspaceColumn(script: Script, c: Column) {
    match script
    case Materialized => c == "workspace_id" || exists p: string :: c == p + "_workspace_id"
    case SessionSnapshot => c == "workspace_id" || c == "default_workspace_id"
  }

  lemma ColumnsAre(script: Script, c: Column)
    ensures IsUserField(script, c) <==> UserColumn(script, c)
    ensures IsWorkspaceField(script, c) <==> WorkspaceColumn(script, c)
  {
    match script
    case Materialized =>
      EndsWithIs(c, "_user_id");
      EndsWithIs(c, "_workspace_id");
    case SessionSnapshot =>
  }

  /** The id `u` is sent to what the map of the table says, or stays. */
  ghost predicate Sent(maps: IdMaps, t: Table, u: Uuid, v: Value) {
    v == Ref(if t in maps && u in maps[t] then maps[t][u] else u)
  }

  /** What stands in column `c` of the rewritten row. */
  ghost predicate NewCellIs(script: Script, t: Table, c: Column, before: Value, v: Value, maps: IdMaps) {
    if !before.Ref? then v == before
    else if c == "id" then Sent(maps, t, before.id, v)
    else if UserColumn(script, c) then Sent(maps, "users", before.id, v)
    else if WorkspaceColumn(script, c) || (t == "runtime_settings_audit" && c == "scope_id")
    then Sent(maps, "workspaces", before.id, v)
    else v == before
  }

  ghost predicate NewRowIs(script: Script, t: Table, row: Row, rewritten: Row, maps: IdMaps) {
    rewritten.Keys == row.Keys && forall c :: c in row ==> NewCellIs(script, t, c, row[c], rewritten[c], maps)
  }

  /** Every user and workspace reference, by the name of its column, follows the maps, and nothing else changes. */
  lemma RewrittenIs(script: Script, t: Table, row: Row, maps: IdMaps)
    ensures NewRowIs(script, t, row, Rewritten(script, t, row, maps), maps)
  {
    hide IsUserField, IsWorkspaceField, UserColumn, WorkspaceColumn;
    NotReferenceFields(script);
    forall c | c in row ensures NewCellIs(script, t, c, row[c], Rewritten(script, t, row, maps)[c], maps) {
      ColumnsAre(script, c);
      NotBoth(script, c);
    }
  }

  method RewriteRow(script: Script, t: Table, row: Row, maps: IdMaps) returns (rewritten: Row)
    ensures rewritten == Rewritten(script, t, row, maps)
    ensures NewRowIs(script, t, row, rewritten, maps)
  {
    hide IsUserField, IsWorkspaceField, NewRowIs;
    NotReferenceFields(script);
    RewrittenIs(script, t, row, maps);
    rewritten := row;
    if Has(row, "id") && At(row, "id") in MapFor(maps, t) {
      rewritten := rewritten["id" := Ref(MapFor(maps, t)[At(row, "id")])];
    }
    ghost var withId := rewritten;
    var keys := rewritten.Keys;
    while keys != {}
      invariant keys <= row.Keys == rewritten.Keys
      invariant forall c :: c in row ==>
        rewritten[c] == if c in keys then withId[c] else NewReference(script, c, withId[c], maps)
      decreases keys
    {
      hide NewReference;
      var key :| key in keys;
      rewritten := rewritten[key := NewReference(script, key, rewritten[key], maps)];
      keys := keys - {key};
    }
    if t == "runtime_settings_audit" && Has(rewritten, "scope_id")
       && At(rewritten, "scope_id") in MapFor(maps, "workspaces") {
      rewritten := rewritten["scope_id" := Ref(MapFor(maps, "workspaces")[At(rewritten, "scope_id")])];
    }
  }

  lemma NotBoth(script: Script, c: Column)
    ensures !(IsUserField(script, c) && IsWorkspaceField(script, c))
  {
    match script
    case Materialized =>
      assert "_user_id"[4] == 'r' && "user_id"[3] == 'r' && "_workspace_id"[9] == 'e' && "workspace_id"[8] == 'e';
      assert IsUserField(script, c) ==> c[|c| - 4] == 'r' by {
        if EndsWith(c, "_user_id") { assert c[|c| - 8..][4] == c[|c| - 4]; }
      }
      assert IsWorkspaceField(script, c) ==> c[|c| - 4] == 'e' by {
        if EndsWith(c, "_workspace_id") { assert c[|c| - 13..][9] == c[|c| - 4]; }
      }
    case SessionSnapshot =>
      assert c == "workspace_id" ==> c[0] == 'w' && |c| == 12;
      assert c == "default_workspace_id" ==> c[1] == 'e' && c[2] == 'f';
  }

  // ------------------------------------------------------- the keys looked up

  predicate ByName(t: Table) {
    t == "users" || t == "workspaces"
  }

  /** The natural key a row is looked up under: normalised for users and workspaces, rewritten for the rest. */
  function LookupKey(script: Script, t: Table, norm: Norm, maps: IdMaps, row: Row): seq<Value> {
    var columns := KeyColumns(script, t);
    seq(|columns|, i requires 0 <= i < |columns| =>
      if ByName(t) then norm(Cell(row, columns[i])) else NewReference(script, columns[i], Cell(row, columns[i]), maps))
  }

  function KeyOf(script: Script, t: Table, norm: Norm, maps: IdMaps): Row -> seq<Value> {
    row => LookupKey(script, t, norm, maps, row)
  }

  /** Emails and slugs are stored as they are looked up. */
  ghost predicate Normalised(script: Script, t: Table, norm: Norm, rows: seq<Row>) {
    ByName(t) ==> forall row, i :: row in rows && 0 <= i < |KeyColumns(script, t)| ==>
      norm(Cell(row, KeyColumns(script, t)[i])) == Cell(row, KeyColumns(script, t)[i])
  }

  lemma KeyColumnsAreOther(script: Script, t: Table, i: nat)
    requires i < |KeyColumns(script, t)|
    ensures KeyColumns(script, t)[i] != "id" && KeyColumns(script, t)[i] != "scope_id"
    ensures ByName(t) ==> !IsUserField(script, KeyColumns(script, t)[i])
    ensures ByName(t) ==> !IsWorkspaceField(script, KeyColumns(script, t)[i])
  {
    hide IsUserField, IsWorkspaceField;
    NamesAreNoReferences(script);
    var c := KeyColumns(script, t)[i];
    assert |"id"| == 2 && |"scope_id"| == 8 && "scope_id"[0] == 's';
    assert |c| != 2 && (|c| == 8 ==> c[0] == 'f');
  }

  /**
   A row carries, once rewritten, the very key it was looked up under: the lookup already
   happens under the new workspace and user ids.
   */
  lemma RewrittenKeyIsLookupKey(script: Script, t: Table, norm: Norm, maps: IdMaps, rows: seq<Row>, row: Row)
    requires Normalised(script, t, norm, rows) && row in rows
    ensures KeyAt(KeyColumns(script, t), Rewritten(script, t, row, maps)) == LookupKey(script, t, norm, maps, row)
  {
    hide KeyColumns, IsUserField, IsWorkspaceField;
    var columns := KeyColumns(script, t);
    forall i | 0 <= i < |columns|
      ensures Cell(Rewritten(script, t, row, maps), columns[i]) == LookupKey(script, t, norm, maps, row)[i]
    {
      KeyColumnsAreOther(script, t, i);
      var c := columns[i];
      assert Cell(Rewritten(script, t, row, maps), c) == NewReference(script, c, Cell(row, c), maps);
      if ByName(t) { assert norm(Cell(row, KeyColumns(script, t)[i])) == Cell(row, c); }
    }
  }

  lemma RewritesTable(script: Script, t: Table, norm: Norm, maps: IdMaps, rows: seq<Row>)
    requires Normalised(script, t, norm, rows) && AllHaveIds(rows)
    ensures Rewrites(KeyColumns(script, t), rows, KeyOf(script, t, norm, maps), MapFor(maps, t),
                     AllRewritten(script, t, rows, maps))
  {
    hide KeyColumns, KeyAt, NewReference;
    forall i | 0 <= i < |rows|
      ensures Has(AllRewritten(script, t, rows, maps)[i], "id")
      ensures At(AllRewritten(script, t, rows, maps)[i], "id") == Apply(MapFor(maps, t), At(rows[i], "id"))
      ensures KeyAt(KeyColumns(script, t), AllRewritten(script, t, rows, maps)[i])
           == LookupKey(script, t, norm, maps, rows[i])
    {
      assert rows[i] in rows;
      RewrittenKeyIsLookupKey(script, t, norm, maps, rows, rows[i]);
    }
  }

  // ------------------------------------------------------- keys distinct as stored, and as looked up

  /** The snapshot, as it is stored, repeats neither an id nor a complete natural key. */
  ghost predicate StoredUnique(script: Script, t: Table, rows: seq<Row>) {
    var columns := KeyColumns(script, t);
    && AllHaveIds(rows)
    && (forall i, j :: 0 <= i < j < |rows| ==> At(rows[i], "id") != At(rows[j], "id"))
    && (forall i, j :: 0 <= i < j < |rows| && Complete(KeyAt(columns, rows[i])) ==>
          KeyAt(columns, rows[i]) != KeyAt(columns, rows[j]))
  }

  /** The id is matched, or no other one is matched to it. */
  ghost predicate Apart(mapping: IdMap, u: Uuid) {
    u in mapping || forall s :: s in mapping ==> mapping[s] != u
  }

  /** The users and workspaces that a value may refer to keep apart from those the maps lead to. */
  ghost predicate ReferenceApart(script: Script, c: Column, v: Value, maps: IdMaps) {
    v.Ref? ==>
      && (IsUserField(script, c) ==> Apart(MapFor(maps, "users"), v.id))
      && (IsWorkspaceField(script, c) ==> Apart(MapFor(maps, "workspaces"), v.id))
  }

  /** So do those that the natural keys of the rows refer to. */
  ghost predicate KeysApart(script: Script, t: Table, rows: seq<Row>, maps: IdMaps) {
    forall k, i :: 0 <= k < |rows| && 0 <= i < |KeyColumns(script, t)| ==>
      ReferenceApart(script, KeyColumns(script, t)[i], Cell(rows[k], KeyColumns(script, t)[i]), maps)
  }

  lemma ApartStaysApart(mapping: IdMap, u: Uuid, v: Uuid)
    requires OneToOne(mapping) && Apart(mapping, u) && Apart(mapping, v) && Apply(mapping, u) == Apply(mapping, v)
    ensures u == v
  {
  }

  lemma NewReferencesDiffer(script: Script, c: Column, v: Value, w: Value, maps: IdMaps)
    requires OneToOne(MapFor(maps, "users")) && OneToOne(MapFor(maps, "workspaces"))
    requires ReferenceApart(script, c, v, maps) && ReferenceApart(script, c, w, maps)
    requires NewReference(script, c, v, maps) == NewReference(script, c, w, maps)
    ensures v == w
  {
    hide IsUserField, IsWorkspaceField, MapFor, OneToOne, Apart;
    NotBoth(script, c);
    if v.Ref? && w.Ref? {
      if IsUserField(script, c) {
        ApartStaysApart(MapFor(maps, "users"), v.id, w.id);
      } else if IsWorkspaceField(script, c) {
        ApartStaysApart(MapFor(maps, "workspaces"), v.id, w.id);
      }
    }
  }

  /** A key is complete as looked up exactly when it is as stored. */
  lemma CompleteAsStored(script: Script, t: Table, norm: Norm, maps: IdMaps, row: Row)
    requires !ByName(t)
    ensures Complete(LookupKey(script, t, norm, maps, row)) <==> Complete(KeyAt(KeyColumns(script, t), row))
  {
    hide KeyColumns, IsUserField, IsWorkspaceField, MapFor;
    var columns := KeyColumns(script, t);
    forall i | 0 <= i < |columns|
      ensures LookupKey(script, t, norm, maps, row)[i] == Null <==> KeyAt(columns, row)[i] == Null
      ensures LookupKey(script, t, norm, maps, row)[i] == Text([]) <==> KeyAt(columns, row)[i] == Text([])
    {
    }
  }

  /** Keys that differ as stored differ as looked up. */
  lemma LookupKeysDiffer(script: Script, t: Table, norm: Norm, maps: IdMaps, rows: seq<Row>, a: int, b: int)
    requires !ByName(t) && 0 <= a < |rows| && 0 <= b < |rows| && KeysApart(script, t, rows, maps)
    requires OneToOne(MapFor(maps, "users")) && OneToOne(MapFor(maps, "workspaces"))
    requires KeyAt(KeyColumns(script, t), rows[a]) != KeyAt(KeyColumns(script, t), rows[b])
    ensures LookupKey(script, t, norm, maps, rows[a]) != LookupKey(script, t, norm, maps, rows[b])
  {
    hide KeyColumns, NewReference, ReferenceApart, MapFor, OneToOne;
    var columns := KeyColumns(script, t);
    var i :| 0 <= i < |columns| && Cell(rows[a], columns[i]) != Cell(rows[b], columns[i]);
    if LookupKey(script, t, norm, maps, rows[a])[i] == LookupKey(script, t, norm, maps, rows[b])[i] {
      NewReferencesDiffer(script, columns[i], Cell(rows[a], columns[i]), Cell(rows[b], columns[i]), maps);
    }
  }

  /** By name, a normalised key is looked up as it is stored. */
  lemma LookedUpAsStored(script: Script, t: Table, norm: Norm, maps: IdMaps, rows: seq<Row>, row: Row)
    requires ByName(t) && Normalised(script, t, norm, rows) && row in rows
    ensures LookupKey(script, t, norm, maps, row) == KeyAt(KeyColumns(script, t), row)
  {
    hide KeyColumns;
  }

  /** A snapshot without repeated keys has none as looked up either, when the keys' references keep apart. */
  lemma LookupKeysDistinct(script: Script, t: Table, norm: Norm, maps: IdMaps, rows: seq<Row>)
    requires StoredUnique(script, t, rows) && Normalised(script, t, norm, rows)
    requires !ByName(t) ==> KeysApart(script, t, rows, maps) && OneToOne(MapFor(maps, "users"))
                            && OneToOne(MapFor(maps, "workspaces"))
    ensures SnapshotUnique(rows, KeyOf(script, t, norm, maps))
  {
    hide KeyColumns, KeyAt, Complete, LookupKey, KeysApart, OneToOne, Normalised;
    forall i, j | 0 <= i < j < |rows| && Complete(LookupKey(script, t, norm, maps, rows[i]))
      ensures LookupKey(script, t, norm, maps, rows[i]) != LookupKey(script, t, norm, maps, rows[j])
    {
      if ByName(t) {
        LookedUpAsStored(script, t, norm, maps, rows, rows[i]);
        LookedUpAsStored(script, t, norm, maps, rows, rows[j]);
      } else {
        CompleteAsStored(script, t, norm, maps, rows[i]);
        LookupKeysDiffer(script, t, norm, maps, rows, i, j);
      }
    }
  }
}
