/**
 Identity by natural key: the id maps and the row rewriting of
 `scripts/import_materialized_project_snapshot.py` and `scripts/import_session_snapshot.py`.
 */
module NaturalKeys {
  import opened Relational

  /** A table by primary key. */
  type ById = map<Uuid, Row>

  type IdMap = map<Uuid, Uuid>

  datatype Script = Materialized | SessionSnapshot

  // ------------------------------------------------------- merging rows by id

  ghost predicate AllHaveIds(rows: seq<Row>) {
    forall r :: r in rows ==> Has(r, "id")
  }

  function MergeAll(m: ById, rows: seq<Row>): ById
    requires AllHaveIds(rows)
  {
    if rows == [] then m else
      var last := rows[|rows| - 1];
      MergeAll(m, rows[..|rows| - 1])[At(last, "id") := last]
  }

  /** The last row with id `u`. */
  ghost function LastWith(rows: seq<Row>, u: Uuid): (r: Row)
    requires AllHaveIds(rows) && u in IdsOf(rows)
    ensures r in rows && At(r, "id") == u
  {
    var last := rows[|rows| - 1];
    if At(last, "id") == u then last
    else
      assert u in IdsOf(rows[..|rows| - 1]) by {
        var r: Row :| r in rows && Has(r, "id") && At(r, "id") == u;
        assert rows == rows[..|rows| - 1] + [last];
      }
      LastWith(rows[..|rows| - 1], u)
  }

  lemma {:induction false} MergeAllIs(m: ById, rows: seq<Row>)
    requires AllHaveIds(rows)
    ensures MergeAll(m, rows).Keys == m.Keys + IdsOf(rows)
    ensures forall u :: u in MergeAll(m, rows) ==>
      MergeAll(m, rows)[u] == if u in IdsOf(rows) then LastWith(rows, u) else m[u]
  {
    if rows != [] {
      var init, last := rows[..|rows| - 1], rows[|rows| - 1];
      assert rows == init + [last];
      MergeAllIs(m, init);
      assert IdsOf(rows) == IdsOf(init) + {At(last, "id")};
    }
  }

  // ------------------------------------------------------- natural keys

  /** The columns of the natural key of a table, the referencing ones first. */
  function KeyColumns(script: Script, t: Table): seq<Column> {
    if t == "users" then ["email"]
    else if t == "workspaces" then ["slug"]
    else if t == "workspace_memberships" then ["workspace_id", "user_id"]
    else if t == "workspace_runtime_settings" then ["workspace_id", "version"]
    else if script == Materialized && t == "runtime_feature_flags" then ["workspace_id", "flag_key"]
    else if script == Materialized && t == "governance_policies" then ["workspace_id", "policy_key"]
    else if script == Materialized && t == "workflow_templates" then ["workspace_id", "template_key"]
    else if script == SessionSnapshot && t == "workspace_provider_secrets"
    then ["workspace_id", "provider_key", "secret_kind"]
    else []
  }

  function Cell(row: Row, c: Column): Value {
    if c in row then row[c] else Null
  }

  function KeyAt(columns: seq<Column>, row: Row): seq<Value> {
    seq(|columns|, i requires 0 <= i < |columns| => Cell(row, columns[i]))
  }

  /** No part of the key is missing or empty. */
  predicate Complete(key: seq<Value>) {
    key != [] && forall i :: 0 <= i < |key| ==> key[i] != Null && key[i] != Text([])
  }

  /** No two rows share a complete natural key. */
  ghost predicate KeysUnique(m: ById, columns: seq<Column>) {
    forall u, v ::
      u in m && v in m && Complete(KeyAt(columns, m[u])) && KeyAt(columns, m[u]) == KeyAt(columns, m[v]) ==> u == v
  }

  /** Looking `row`, with snapshot id `s`, up by its natural key finds the existing row `u`. */
  ghost predicate Finds(m: ById, columns: seq<Column>, rows: seq<Row>, key: Row -> seq<Value>, s: Uuid, u: Uuid,
                        row: Row) {
    && row in rows && Has(row, "id") && At(row, "id") == s
    && Complete(key(row)) && u in m && KeyAt(columns, m[u]) == key(row)
  }

  /** `mapping` sends a snapshot id to an existing row with the same natural key, whenever there is one. */
  ghost predicate IsIdMap(m: ById, columns: seq<Column>, rows: seq<Row>, key: Row -> seq<Value>, mapping: IdMap) {
    && (forall s :: s in mapping ==>
          mapping[s] in m && exists row: Row :: Finds(m, columns, rows, key, s, mapping[s], row))
    && (forall row: Row, u ::
          row in rows && Has(row, "id") && Complete(key(row)) && u in m && KeyAt(columns, m[u]) == key(row) ==>
          At(row, "id") in mapping)
  }

  /** `select ... where key columns == key`, the first hit if any. */
  method FindByKey(m: ById, columns: seq<Column>, key: seq<Value>) returns (found: bool, u: Uuid)
    ensures found ==> u in m && KeyAt(columns, m[u]) == key
    ensures !found ==> forall v :: v in m ==> KeyAt(columns, m[v]) != key
  {
    var todo := m.Keys;
    while todo != {}
      invariant todo <= m.Keys && forall v :: v in m && v !in todo ==> KeyAt(columns, m[v]) != key
      decreases todo
    {
      var v :| v in todo;
      if KeyAt(columns, m[v]) == key {
        return true, v;
      }
      todo := todo - {v};
    }
    found, u := false, 0;
  }

  /** The shared body of the `_build_*_id_map` functions. */
  method BuildIdMap(m: ById, columns: seq<Column>, rows: seq<Row>, key: Row -> seq<Value>) returns (mapping: IdMap)
    ensures IsIdMap(m, columns, rows, key, mapping)
  {
    hide KeyAt, Complete;
    mapping := map[];
    for i := 0 to |rows|
      invariant IsIdMap(m, columns, rows[..i], key, mapping)
    {
      var row := rows[i];
      assert rows[..i + 1] == rows[..i] + [row];
      KeepsFinding(m, columns, rows[..i], key, mapping, rows[..i + 1]);
      if Has(row, "id") && Complete(key(row)) {
        var found, u := FindByKey(m, columns, key(row));
        if found {
          assert Finds(m, columns, rows[..i + 1], key, At(row, "id"), u, row);
          mapping := mapping[At(row, "id") := u];
        }
      }
    }
    assert rows[..|rows|] == rows;
  }

  lemma KeepsFinding(m: ById, columns: seq<Column>, rows: seq<Row>, key: Row -> seq<Value>, mapping: IdMap,
                     more: seq<Row>)
    requires IsIdMap(m, columns, rows, key, mapping) && forall row :: row in rows ==> row in more
    ensures forall s :: s in mapping ==>
      mapping[s] in m && exists row: Row :: Finds(m, columns, more, key, s, mapping[s], row)
  {
    hide KeyAt, Complete;
    forall s | s in mapping
      ensures mapping[s] in m && exists row: Row :: Finds(m, columns, more, key, s, mapping[s], row)
    {
      var row: Row :| Finds(m, columns, rows, key, s, mapping[s], row);
      assert Finds(m, columns, more, key, s, mapping[s], row);
    }
  }

  function Apply(mapping: IdMap, u: Uuid): Uuid {
    if u in mapping then mapping[u] else u
  }

  // ------------------------------------------------------- uniqueness survives

  /** `rewritten` is the snapshot under the new ids, its natural keys as they were looked up. */
  ghost predicate Rewrites(columns: seq<Column>, rows: seq<Row>, key: Row -> seq<Value>, mapping: IdMap,
                           rewritten: seq<Row>) {
    && |rewritten| == |rows| && AllHaveIds(rows) && AllHaveIds(rewritten)
    && forall i :: 0 <= i < |rows| ==>
         At(rewritten[i], "id") == Apply(mapping, At(rows[i], "id")) && KeyAt(columns, rewritten[i]) == key(rows[i])
  }

  /** The snapshot does not repeat an id. */
  ghost predicate DistinctIds(rows: seq<Row>) {
    && AllHaveIds(rows)
    && (forall i, j :: 0 <= i < j < |rows| ==> At(rows[i], "id") != At(rows[j], "id"))
  }

  /** The snapshot does not repeat an id or a complete key. */
  ghost predicate SnapshotUnique(rows: seq<Row>, key: Row -> seq<Value>) {
    && DistinctIds(rows)
    && (forall i, j :: 0 <= i < j < |rows| && Complete(key(rows[i])) ==> key(rows[i]) != key(rows[j]))
  }

  /** Rows that are looked up under one complete key are all matched. */
  ghost predicate RepeatsAreMatched(rows: seq<Row>, key: Row -> seq<Value>, mapping: IdMap)
    requires AllHaveIds(rows)
  {
    forall i, j :: 0 <= i < j < |rows| && Complete(key(rows[i])) && key(rows[i]) == key(rows[j]) ==>
      assert rows[i] in rows; At(rows[i], "id") in mapping
  }

  ghost predicate PartOf(imported: seq<Row>, rewritten: seq<Row>) {
    forall r :: r in imported ==> r in rewritten
  }

  /** Whatever part of the rows has been merged into the table, in whatever order, no key is held twice. */
  ghost predicate StaysUnique(m: ById, columns: seq<Column>, rewritten: seq<Row>) {
    forall imported :: PartOf(imported, rewritten) ==>
      AllHaveIds(imported) && KeysUnique(MergeAll(m, imported), columns)
  }

  /** A row whose key exists in the target becomes an update of that very row, so the key is not held twice. */
  lemma MergedKeysUnique(m: ById, columns: seq<Column>, rows: seq<Row>, key: Row -> seq<Value>, mapping: IdMap,
                         rewritten: seq<Row>, imported: seq<Row>)
    requires KeysUnique(m, columns) && IsIdMap(m, columns, rows, key, mapping)
    requires Rewrites(columns, rows, key, mapping, rewritten) && DistinctIds(rows)
    requires RepeatsAreMatched(rows, key, mapping) && PartOf(imported, rewritten)
    ensures AllHaveIds(imported) && KeysUnique(MergeAll(m, imported), columns)
  {
    hide KeyAt, Complete;
    assert AllHaveIds(imported);
    var after := MergeAll(m, imported);
    MergeAllIs(m, imported);
    forall u, v | u in after && v in after && Complete(KeyAt(columns, after[u]))
                  && KeyAt(columns, after[u]) == KeyAt(columns, after[v])
      ensures u == v
    {
      if u in IdsOf(imported) {
        var i := SourceOf(columns, rows, key, mapping, rewritten, imported, u);
        if v in IdsOf(imported) {
          var j := SourceOf(columns, rows, key, mapping, rewritten, imported, v);
          RepeatsMeet(m, columns, rows, key, mapping, i, j);
        } else {
          ExistingIsOverwritten(m, columns, rows, key, mapping, rewritten, i, v);
        }
      } else if v in IdsOf(imported) {
        var j := SourceOf(columns, rows, key, mapping, rewritten, imported, v);
        ExistingIsOverwritten(m, columns, rows, key, mapping, rewritten, j, u);
      }
    }
  }

  /** Rows looked up under one key are rewritten to one id. */
  lemma RepeatsMeet(m: ById, columns: seq<Column>, rows: seq<Row>, key: Row -> seq<Value>, mapping: IdMap,
                    i: nat, j: nat)
    requires KeysUnique(m, columns) && IsIdMap(m, columns, rows, key, mapping)
    requires DistinctIds(rows) && RepeatsAreMatched(rows, key, mapping)
    requires i < |rows| && j < |rows| && Complete(key(rows[i])) && key(rows[i]) == key(rows[j])
    ensures rows[i] in rows && rows[j] in rows
    ensures Apply(mapping, At(rows[i], "id")) == Apply(mapping, At(rows[j], "id"))
  {
    hide KeyAt, Complete;
    assert rows[i] in rows && rows[j] in rows;
    if i != j {
      var a, b := if i < j then i else j, if i < j then j else i;
      SameKeyFound(m, columns, rows, key, mapping, a);
      SameKeyMatched(m, columns, rows, key, mapping, a, b);
      SameKeyFound(m, columns, rows, key, mapping, b);
    }
  }

  /** Of two rows looked up under one key, either both are matched or neither is. */
  lemma SameKeyMatched(m: ById, columns: seq<Column>, rows: seq<Row>, key: Row -> seq<Value>, mapping: IdMap,
                       i: nat, j: nat)
    requires IsIdMap(m, columns, rows, key, mapping) && DistinctIds(rows)
    requires i < |rows| && j < |rows| && Complete(key(rows[i])) && key(rows[i]) == key(rows[j])
    ensures rows[i] in rows && rows[j] in rows
    ensures At(rows[i], "id") in mapping ==> At(rows[j], "id") in mapping
  {
    hide KeyAt, Complete;
    assert rows[i] in rows && rows[j] in rows;
    if At(rows[i], "id") in mapping { SameKeyFound(m, columns, rows, key, mapping, i); }
  }

  /** Two unmatched rows under one key stay two rows. */
  lemma RepeatIsHeldTwice(m: ById, columns: seq<Column>, rows: seq<Row>, key: Row -> seq<Value>, mapping: IdMap,
                          rewritten: seq<Row>, i: nat, j: nat)
    requires IsIdMap(m, columns, rows, key, mapping)
    requires Rewrites(columns, rows, key, mapping, rewritten) && DistinctIds(rows) && i < j < |rows|
    requires Complete(key(rows[i])) && key(rows[i]) == key(rows[j]) && At(rows[i], "id") !in mapping
    ensures PartOf([rewritten[i], rewritten[j]], rewritten) && AllHaveIds([rewritten[i], rewritten[j]])
    ensures !KeysUnique(MergeAll(m, [rewritten[i], rewritten[j]]), columns)
  {
    hide KeyAt, Complete;
    SameKeyMatched(m, columns, rows, key, mapping, j, i);
    var pair := [rewritten[i], rewritten[j]];
    assert At(rewritten[i], "id") != At(rewritten[j], "id");
    assert pair[..1] == [rewritten[i]] && pair[..1][..0] == [];
    var after := MergeAll(m, pair);
    assert MergeAll(m, pair[..1]) == m[At(rewritten[i], "id") := rewritten[i]];
    assert after == m[At(rewritten[i], "id") := rewritten[i]][At(rewritten[j], "id") := rewritten[j]];
    assert KeyAt(columns, after[At(rewritten[i], "id")]) == KeyAt(columns, after[At(rewritten[j], "id")]);
  }

  /**
   No part of the snapshot, merged in any order, makes the table hold a key twice exactly when all
   rows that share one are matched.
   */
  lemma StaysUniqueIff(m: ById, columns: seq<Column>, rows: seq<Row>, key: Row -> seq<Value>, mapping: IdMap,
                       rewritten: seq<Row>)
    requires KeysUnique(m, columns) && IsIdMap(m, columns, rows, key, mapping)
    requires Rewrites(columns, rows, key, mapping, rewritten) && DistinctIds(rows)
    ensures StaysUnique(m, columns, rewritten) <==> RepeatsAreMatched(rows, key, mapping)
  {
    hide KeyAt, Complete, KeysUnique, MergeAll;
    if RepeatsAreMatched(rows, key, mapping) {
      forall imported | PartOf(imported, rewritten)
        ensures AllHaveIds(imported) && KeysUnique(MergeAll(m, imported), columns)
      {
        MergedKeysUnique(m, columns, rows, key, mapping, rewritten, imported);
      }
    } else {
      var i, j :| 0 <= i < j < |rows| && Complete(key(rows[i])) && key(rows[i]) == key(rows[j])
                  && At(rows[i], "id") !in mapping;
      RepeatIsHeldTwice(m, columns, rows, key, mapping, rewritten, i, j);
    }
  }

  /** When no id collides, every new row stands in the table after the whole snapshot has been merged. */
  lemma NewRowStands(rows: seq<Row>, columns: seq<Column>, key: Row -> seq<Value>, mapping: IdMap,
                     rewritten: seq<Row>, imported: seq<Row>, i: nat)
    requires Rewrites(columns, rows, key, mapping, rewritten) && DistinctIds(rows) && NoCollision(rows, mapping)
    requires (forall r :: r in imported <==> r in rewritten) && i < |rows| && At(rows[i], "id") !in mapping
    ensures AllHaveIds(imported) && At(rows[i], "id") in IdsOf(imported)
    ensures LastWith(imported, At(rows[i], "id")) == rewritten[i]
  {
    hide KeyAt;
    assert rewritten[i] in imported && At(rewritten[i], "id") == At(rows[i], "id");
    var k := SourceOf(columns, rows, key, mapping, rewritten, imported, At(rows[i], "id"));
    assert k == i;
  }

  /** Then the table the whole snapshot leaves holds no key twice exactly when all rows that share one are matched. */
  lemma WholeIsUniqueIff(m: ById, columns: seq<Column>, rows: seq<Row>, key: Row -> seq<Value>, mapping: IdMap,
                         rewritten: seq<Row>, imported: seq<Row>)
    requires KeysUnique(m, columns) && IsIdMap(m, columns, rows, key, mapping)
    requires Rewrites(columns, rows, key, mapping, rewritten) && DistinctIds(rows) && NoCollision(rows, mapping)
    requires forall r :: r in imported <==> r in rewritten
    ensures AllHaveIds(imported)
    ensures KeysUnique(MergeAll(m, imported), columns) <==> RepeatsAreMatched(rows, key, mapping)
  {
    hide KeyAt, Complete, MergeAll;
    assert AllHaveIds(imported);
    if RepeatsAreMatched(rows, key, mapping) {
      MergedKeysUnique(m, columns, rows, key, mapping, rewritten, imported);
    } else {
      var i, j :| 0 <= i < j < |rows| && Complete(key(rows[i])) && key(rows[i]) == key(rows[j])
                  && At(rows[i], "id") !in mapping;
      SameKeyMatched(m, columns, rows, key, mapping, j, i);
      MergeAllIs(m, imported);
      NewRowStands(rows, columns, key, mapping, rewritten, imported, i);
      NewRowStands(rows, columns, key, mapping, rewritten, imported, j);
      var after := MergeAll(m, imported);
      assert KeyAt(columns, after[At(rows[i], "id")]) == KeyAt(columns, after[At(rows[j], "id")]);
    }
  }

  lemma SourceOf(columns: seq<Column>, rows: seq<Row>, key: Row -> seq<Value>, mapping: IdMap,
                 rewritten: seq<Row>, imported: seq<Row>, u: Uuid) returns (i: nat)
    requires Rewrites(columns, rows, key, mapping, rewritten) && AllHaveIds(imported)
    requires (forall r :: r in imported ==> r in rewritten) && u in IdsOf(imported)
    ensures i < |rows| && rewritten[i] == LastWith(imported, u)
    ensures KeyAt(columns, LastWith(imported, u)) == key(rows[i]) && Apply(mapping, At(rows[i], "id")) == u
  {
    i :| 0 <= i < |rewritten| && rewritten[i] == LastWith(imported, u);
  }

  /** A target row with the key of a snapshot row is the row that one is rewritten to. */
  lemma ExistingIsOverwritten(m: ById, columns: seq<Column>, rows: seq<Row>, key: Row -> seq<Value>, mapping: IdMap,
                              rewritten: seq<Row>, i: nat, v: Uuid)
    requires KeysUnique(m, columns) && IsIdMap(m, columns, rows, key, mapping)
    requires Rewrites(columns, rows, key, mapping, rewritten) && DistinctIds(rows)
    requires i < |rows| && v in m && Complete(key(rows[i])) && KeyAt(columns, m[v]) == key(rows[i])
    ensures At(rewritten[i], "id") == v
  {
    hide KeyAt, Complete;
    var s := At(rows[i], "id");
    assert rows[i] in rows && s in mapping;
    var row: Row :| Finds(m, columns, rows, key, s, mapping[s], row);
    var k :| 0 <= k < |rows| && rows[k] == row;
    assert k == i;
  }

  // ------------------------------------------------------- references

  /** The row a snapshot id stands for after the import is its own rewritten row. */
  ghost predicate StandsForItself(m: ById, rows: seq<Row>, rewritten: seq<Row>)
    requires |rows| == |rewritten| && AllHaveIds(rewritten)
  {
    var after := MergeAll(m, rewritten);
    forall i :: 0 <= i < |rows| ==> At(rewritten[i], "id") in after && after[At(rewritten[i], "id")] == rewritten[i]
  }

  /** No snapshot row that is new to the target carries the id of a row another one is matched to. */
  ghost predicate NoCollision(rows: seq<Row>, mapping: IdMap) {
    forall i, s :: 0 <= i < |rows| && Has(rows[i], "id") && At(rows[i], "id") !in mapping && s in mapping ==>
      mapping[s] != At(rows[i], "id")
  }

  /** Distinct snapshot rows get distinct ids exactly when no new id collides with a matched one. */
  lemma RewrittenIdsDistinct(m: ById, columns: seq<Column>, rows: seq<Row>, key: Row -> seq<Value>, mapping: IdMap,
                             rewritten: seq<Row>)
    requires IsIdMap(m, columns, rows, key, mapping)
    requires Rewrites(columns, rows, key, mapping, rewritten) && SnapshotUnique(rows, key)
    ensures (forall i, j :: 0 <= i < j < |rows| ==> At(rewritten[i], "id") != At(rewritten[j], "id"))
            <==> NoCollision(rows, mapping)
  {
    hide KeyAt, Complete;
    if NoCollision(rows, mapping) {
      forall i, j | 0 <= i < j < |rows| ensures At(rewritten[i], "id") != At(rewritten[j], "id") {
        var a, b := At(rows[i], "id"), At(rows[j], "id");
        if a in mapping && b in mapping && mapping[a] == mapping[b] {
          SameKeyFound(m, columns, rows, key, mapping, i);
          SameKeyFound(m, columns, rows, key, mapping, j);
        }
      }
    } else {
      var i, s :| 0 <= i < |rows| && Has(rows[i], "id") && At(rows[i], "id") !in mapping && s in mapping &&
                  mapping[s] == At(rows[i], "id");
      var row: Row :| Finds(m, columns, rows, key, s, mapping[s], row);
      var j :| 0 <= j < |rows| && rows[j] == row;
      assert At(rewritten[i], "id") == At(rewritten[j], "id") && i != j;
      if j < i { assert At(rewritten[j], "id") == At(rewritten[i], "id"); }
    }
  }

  lemma SameKeyFound(m: ById, columns: seq<Column>, rows: seq<Row>, key: Row -> seq<Value>, mapping: IdMap, i: nat)
    requires IsIdMap(m, columns, rows, key, mapping) && DistinctIds(rows)
    requires i < |rows| && At(rows[i], "id") in mapping
    ensures mapping[At(rows[i], "id")] in m && Complete(key(rows[i]))
    ensures KeyAt(columns, m[mapping[At(rows[i], "id")]]) == key(rows[i])
  {
    hide KeyAt, Complete;
    var s := At(rows[i], "id");
    var row: Row :| Finds(m, columns, rows, key, s, mapping[s], row);
    var k :| 0 <= k < |rows| && rows[k] == row;
    assert k == i;
  }

  ghost predicate OneToOne(mapping: IdMap) {
    forall a, b :: a in mapping && b in mapping && mapping[a] == mapping[b] ==> a == b
  }

  /** Two snapshot rows are matched to two target rows. */
  lemma MatchesAreOneToOne(m: ById, columns: seq<Column>, rows: seq<Row>, key: Row -> seq<Value>, mapping: IdMap)
    requires IsIdMap(m, columns, rows, key, mapping) && SnapshotUnique(rows, key)
    ensures OneToOne(mapping)
  {
    hide KeyAt, Complete;
    forall a, b | a in mapping && b in mapping && mapping[a] == mapping[b] ensures a == b {
      var x: Row :| Finds(m, columns, rows, key, a, mapping[a], x);
      var y: Row :| Finds(m, columns, rows, key, b, mapping[b], y);
      var i :| 0 <= i < |rows| && rows[i] == x;
      var j :| 0 <= j < |rows| && rows[j] == y;
    }
  }

  lemma {:induction false} LastOfDistinct(rows: seq<Row>, i: nat)
    requires AllHaveIds(rows) && i < |rows|
    requires forall j, k :: 0 <= j < k < |rows| ==> At(rows[j], "id") != At(rows[k], "id")
    ensures At(rows[i], "id") in IdsOf(rows) && LastWith(rows, At(rows[i], "id")) == rows[i]
  {
    var r := LastWith(rows, At(rows[i], "id"));
    var k :| 0 <= k < |rows| && rows[k] == r;
    assert k == i;
  }

  /** Every snapshot row is in the table under its new id exactly when ids do not collide. */
  lemma EntitiesStand(m: ById, columns: seq<Column>, rows: seq<Row>, key: Row -> seq<Value>, mapping: IdMap,
                      rewritten: seq<Row>)
    requires IsIdMap(m, columns, rows, key, mapping)
    requires Rewrites(columns, rows, key, mapping, rewritten) && SnapshotUnique(rows, key)
    ensures StandsForItself(m, rows, rewritten) <==> NoCollision(rows, mapping)
  {
    hide KeyAt, Complete;
    RewrittenIdsDistinct(m, columns, rows, key, mapping, rewritten);
    MergeAllIs(m, rewritten);
    if NoCollision(rows, mapping) {
      forall i | 0 <= i < |rows|
        ensures At(rewritten[i], "id") in MergeAll(m, rewritten)
        ensures MergeAll(m, rewritten)[At(rewritten[i], "id")] == rewritten[i]
      {
        LastOfDistinct(rewritten, i);
      }
    }
    if StandsForItself(m, rows, rewritten) {
      forall i, j | 0 <= i < j < |rows| ensures At(rewritten[i], "id") != At(rewritten[j], "id") {
        assert At(rewritten[i], "id") == At(rewritten[j], "id") ==> rewritten[i] == rewritten[j];
        if At(rows[i], "id") in mapping { SameKeyFound(m, columns, rows, key, mapping, i); }
        if At(rows[j], "id") in mapping { SameKeyFound(m, columns, rows, key, mapping, j); }
      }
    }
  }

  // ------------------------------------------------------- the last row under an id

  lemma {:induction false} LastIndex(rows: seq<Row>, u: Uuid) returns (x: nat)
    requires AllHaveIds(rows) && u in IdsOf(rows)
    ensures x < |rows| && rows[x] == LastWith(rows, u) && At(rows[x], "id") == u
    ensures forall y :: x < y < |rows| ==> At(rows[y], "id") != u
  {
    var last := rows[|rows| - 1];
    if At(last, "id") == u {
      x := |rows| - 1;
    } else {
      var r: Row :| r in rows && Has(r, "id") && At(r, "id") == u;
      assert rows == rows[..|rows| - 1] + [last];
      x := LastIndex(rows[..|rows| - 1], u);
    }
  }
}
