/** References to users and workspaces after an import. */
module References {
  import opened Relational
  import opened NaturalKeys
  import opened SnapshotRewrite
  import opened SessionImport
  import opened MaterializedImport

  /** The column refers to users, or to workspaces. */
  ghost predicate ReferenceField(script: Script, t: Table, c: Column, kind: Table) {
    if kind == "users" then UserColumn(script, c)
    else kind == "workspaces" && (WorkspaceColumn(script, c) || (t == "runtime_settings_audit" && c == "scope_id"))
  }

  /** The cell names the entity in the table. */
  ghost predicate Denotes(m: ById, row: Row, c: Column, entity: Row) {
    Has(row, c) && At(row, c) in m && m[At(row, c)] == entity
  }

  /** A reference is rewritten to where the map of its kind sends it. */
  lemma ReferenceIsMapped(script: Script, t: Table, row: Row, maps: IdMaps, c: Column, kind: Table)
    requires ReferenceField(script, t, c, kind) && Has(row, c)
    ensures Has(Rewritten(script, t, row, maps), c)
    ensures At(Rewritten(script, t, row, maps), c) == Apply(MapFor(maps, kind), At(row, c))
  {
    hide IsUserField, IsWorkspaceField, UserColumn, WorkspaceColumn, MapFor;
    NotReferenceFields(script);
    ColumnsAre(script, c);
    NotBoth(script, c);
    assert |"users"| != |"workspaces"| && |"id"| != |"scope_id"|;
  }

  /** Whatever row refers to a snapshot entity of the kind names, once rewritten, that entity's rewritten row. */
  ghost predicate AllFollow(script: Script, maps: IdMaps, kind: Table, rows: seq<Row>, after: ById)
    requires AllHaveIds(rows)
  {
    forall t, row, c, i ::
      ReferenceField(script, t, c, kind) && Has(row, c) && 0 <= i < |rows| && Refers(row, c, rows[i]) ==>
        Denotes(after, Rewritten(script, t, row, maps), c, Rewritten(script, kind, rows[i], maps))
  }

  predicate Refers(row: Row, c: Column, entity: Row) {
    Has(row, c) && Has(entity, "id") && At(row, c) == At(entity, "id")
  }

  lemma NewId(script: Script, t: Table, row: Row, maps: IdMaps)
    requires Has(row, "id")
    ensures Has(Rewritten(script, t, row, maps), "id")
    ensures At(Rewritten(script, t, row, maps), "id") == Apply(MapFor(maps, t), At(row, "id"))
  {
  }

  lemma NamedByRow(script: Script, maps: IdMaps, kind: Table, entity: Row, after: ById, t: Table, row: Row, c: Column)
    requires ReferenceField(script, t, c, kind) && Refers(row, c, entity)
    ensures var r := Rewritten(script, kind, entity, maps);
            Has(r, "id") && (Denotes(after, Rewritten(script, t, row, maps), c, r) <==> Denotes(after, r, "id", r))
  {
    hide Rewritten, MapFor;
    ReferenceIsMapped(script, t, row, maps, c, kind);
    NewId(script, kind, entity, maps);
  }

  /**
   References to users and workspaces mean, after the whole import, the rewritten row of the
   same entity exactly when ids do not collide.
   */
  lemma ReferencesFollow(script: Script, db: Database, data: Dataset, norm: Norm, maps: IdMaps, kind: Table)
    requires MapsFor(script, db, data, norm, maps) && CleanSnapshot(script, data, norm) && ByName(kind)
    ensures AllHaveIds(RowsIn(data, kind)) && AllHaveIds(AllRewritten(script, kind, RowsIn(data, kind), maps))
    ensures AllFollow(script, maps, kind, RowsIn(data, kind),
                      MergeAll(TableIn(db, kind), AllRewritten(script, kind, RowsIn(data, kind), maps)))
            <==> NoCollision(RowsIn(data, kind), MapFor(maps, kind))
  {
    var rows := RowsIn(data, kind);
    assert KeyedTables(script)[0] == "users" && KeyedTables(script)[1] == "workspaces" && kind in maps;
    LookedUpUnique(script, db, data, norm, maps, kind);
    assert StoredUnique(script, kind, rows);
    hide *;
    RewrittenHaveIds(script, kind, rows, maps);
    StandsIff(script, db, data, norm, maps, kind);
    FollowIffStands(script, maps, kind, TableIn(db, kind), rows);
  }

  lemma StandsIff(script: Script, db: Database, data: Dataset, norm: Norm, maps: IdMaps, kind: Table)
    requires MapsFor(script, db, data, norm, maps) && CleanSnapshot(script, data, norm) && ByName(kind) && kind in maps
    requires AllHaveIds(AllRewritten(script, kind, RowsIn(data, kind), maps))
    ensures StandsForItself(TableIn(db, kind), RowsIn(data, kind), AllRewritten(script, kind, RowsIn(data, kind), maps))
            <==> NoCollision(RowsIn(data, kind), MapFor(maps, kind))
  {
    LookedUpUnique(script, db, data, norm, maps, kind);
    assert StoredUnique(script, kind, RowsIn(data, kind));
    hide KeyColumns, LookupKey, IsIdMap, Rewrites, SnapshotUnique, Normalised, NoCollision, Rewritten, MergeAll,
         StandsForItself, KeyAt, Complete;
    RewritesTable(script, kind, norm, maps, RowsIn(data, kind));
    EntitiesStand(TableIn(db, kind), KeyColumns(script, kind), RowsIn(data, kind), KeyOf(script, kind, norm, maps),
                  maps[kind], AllRewritten(script, kind, RowsIn(data, kind), maps));
  }

  lemma FollowIffStands(script: Script, maps: IdMaps, kind: Table, m: ById, rows: seq<Row>)
    requires AllHaveIds(rows) && AllHaveIds(AllRewritten(script, kind, rows, maps)) && ByName(kind)
    ensures AllFollow(script, maps, kind, rows, MergeAll(m, AllRewritten(script, kind, rows, maps)))
            <==> StandsForItself(m, rows, AllRewritten(script, kind, rows, maps))
  {
    hide Rewritten, MergeAll, ReferenceField;
    var rewritten := AllRewritten(script, kind, rows, maps);
    var after := MergeAll(m, rewritten);
    if StandsForItself(m, rows, rewritten) {
      forall t, row, c, i | ReferenceField(script, t, c, kind) && Has(row, c) && 0 <= i < |rows|
                            && Refers(row, c, rows[i])
        ensures Denotes(after, Rewritten(script, t, row, maps), c, Rewritten(script, kind, rows[i], maps))
      {
        assert Denotes(after, rewritten[i], "id", rewritten[i]);
        NamedByRow(script, maps, kind, rows[i], after, t, row, c);
      }
    }
    if AllFollow(script, maps, kind, rows, after) {
      forall i | 0 <= i < |rows| ensures Denotes(after, rewritten[i], "id", rewritten[i]) {
        var c := SomeField(script, kind);
        assert rows[i] in rows;
        var row: Row := map[c := Ref(At(rows[i], "id"))];
        assert Refers(row, c, rows[i]);
        NamedByRow(script, maps, kind, rows[i], after, kind, row, c);
      }
    }
  }

  lemma SomeField(script: Script, kind: Table) returns (c: Column)
    requires ByName(kind)
    ensures ReferenceField(script, kind, c, kind)
  {
    c := if kind == "users" then "user_id" else "workspace_id";
  }

  // ------------------------------------------------------- while rows are pending

  /** After any number of passes: the row under an entity's new id. */
  lemma EntityAfterPasses(x: PassImport.Input, db: Store, pending: PassImport.Rows, imported: map<Table, nat>,
                          done: PassImport.Rows, depth: nat, data: Dataset, norm: Norm, maps: IdMaps,
                          kind: Table, i: nat)
    requires x.Valid() && PassImport.Invariant(x, db, pending, imported, done, depth)
    requires FromSnapshot(x, data, norm, maps) && CleanSnapshot(Materialized, data, norm) && ByName(kind)
    requires kind in x.start && kind in data && i < |data[kind]| && NoCollision(data[kind], MapFor(maps, kind))
    ensures kind in db && AllHaveIds(db[kind]) && kind in done && Has(data[kind][i], "id")
    ensures var entity := Rewritten(Materialized, kind, data[kind][i], maps);
            && Has(entity, "id")
            && (entity in done[kind] ==> Denotes(Indexed(db[kind]), entity, "id", entity))
            && (entity !in done[kind] && At(entity, "id") in Indexed(db[kind]) ==>
                  At(entity, "id") in Indexed(x.start[kind]) &&
                  Indexed(db[kind])[At(entity, "id")] == Indexed(x.start[kind])[At(entity, "id")])
  {
    KindIsKeyed(x, data, norm, maps, kind);
    hide *;
    LeftByPasses(x, db, pending, imported, done, depth, data, norm, maps, kind);
    NewIdsDistinct(x, data, norm, maps, kind);
    RewrittenAt(kind, data[kind], maps, i);
    MergedEntity(Indexed(x.start[kind]), AllRewritten(Materialized, kind, data[kind], maps), done[kind], i);
  }

  /** Some of the rows with distinct ids merged into a table: what is there under the id of one of them. */
  lemma MergedEntity(m: ById, rows: seq<Row>, some: seq<Row>, i: nat)
    requires AllHaveIds(rows) && AllHaveIds(some) && (forall r :: r in some ==> r in rows) && i < |rows|
    requires forall a, b :: 0 <= a < |rows| && 0 <= b < |rows| && a != b ==> At(rows[a], "id") != At(rows[b], "id")
    ensures Has(rows[i], "id")
    ensures rows[i] in some ==> Denotes(MergeAll(m, some), rows[i], "id", rows[i])
    ensures rows[i] !in some && At(rows[i], "id") in MergeAll(m, some) ==>
      At(rows[i], "id") in m && MergeAll(m, some)[At(rows[i], "id")] == m[At(rows[i], "id")]
  {
    hide MergeAll;
    MergeAllIs(m, some);
    assert rows[i] in rows;
    var v := At(rows[i], "id");
    if v in IdsOf(some) {
      var r := LastWith(some, v);
      var k :| 0 <= k < |rows| && rows[k] == r;
      assert k == i;
    } else {
      assert rows[i] !in some;
    }
  }

  lemma KindIsKeyed(x: PassImport.Input, data: Dataset, norm: Norm, maps: IdMaps, kind: Table)
    requires FromSnapshot(x, data, norm, maps) && CleanSnapshot(Materialized, data, norm) && ByName(kind)
    requires kind in x.start && kind in data
    ensures kind in maps && AllHaveIds(data[kind]) && AllHaveIds(x.start[kind])
    ensures forall i :: 0 <= i < |data[kind]| ==> Has(data[kind][i], "id")
  {
    hide IsIdMap, KeyColumns, LookupKey, Keyed, CleanSnapshot, Indexed, AllRewritten;
    assert KeyedTables(Materialized)[0] == "users" && KeyedTables(Materialized)[1] == "workspaces";
    CleanHasIds(data, norm, maps, kind);
    assert forall i :: 0 <= i < |data[kind]| ==> data[kind][i] in data[kind];
  }

  lemma RewrittenAt(kind: Table, rows: seq<Row>, maps: IdMaps, i: nat)
    requires i < |rows|
    ensures |AllRewritten(Materialized, kind, rows, maps)| == |rows|
    ensures AllRewritten(Materialized, kind, rows, maps)[i] == Rewritten(Materialized, kind, rows[i], maps)
  {
  }

  lemma NewIdsDistinct(x: PassImport.Input, data: Dataset, norm: Norm, maps: IdMaps, kind: Table)
    requires FromSnapshot(x, data, norm, maps) && CleanSnapshot(Materialized, data, norm) && ByName(kind)
    requires kind in x.start && kind in data && kind in maps && NoCollision(data[kind], MapFor(maps, kind))
    ensures AllHaveIds(data[kind]) && AllHaveIds(AllRewritten(Materialized, kind, data[kind], maps))
    ensures forall i, j :: 0 <= i < |data[kind]| && 0 <= j < |data[kind]| && i != j ==>
              At(AllRewritten(Materialized, kind, data[kind], maps)[i], "id")
              != At(AllRewritten(Materialized, kind, data[kind], maps)[j], "id")
  {
    var rows, db := data[kind], IndexedStore(x.start);
    LookedUpUnique(Materialized, db, data, norm, maps, kind);
    CleanHasIds(data, norm, maps, kind);
    hide KeyColumns, LookupKey, IsIdMap, SnapshotUnique, NoCollision, Rewritten, KeyAt, Complete, StoredUnique;
    RewrittenHaveIds(Materialized, kind, rows, maps);
    assert Normalised(Materialized, kind, norm, RowsIn(data, kind));
    RewritesTable(Materialized, kind, norm, maps, rows);
    RewrittenIdsDistinct(TableIn(db, kind), KeyColumns(Materialized, kind), rows, KeyOf(Materialized, kind, norm, maps),
                         maps[kind], AllRewritten(Materialized, kind, rows, maps));
  }

  /**
   After any number of passes, an imported row's foreign key to users or workspaces names the
   rewritten row of the same entity if that has been imported, and until then the row that the
   database held under the entity's new id before: if the entity is matched, the row with its
   natural key.
   */
  lemma ReferencesAfterPasses(x: PassImport.Input, db: Store, pending: PassImport.Rows, imported: map<Table, nat>,
                              done: PassImport.Rows, depth: nat, data: Dataset, norm: Norm, maps: IdMaps, kind: Table,
                              i: nat, t: Table, row: Row, c: Column)
    requires x.Valid() && PassImport.Invariant(x, db, pending, imported, done, depth)
    requires FromSnapshot(x, data, norm, maps) && CleanSnapshot(Materialized, data, norm) && ByName(kind)
    requires kind in x.start && kind in data && i < |data[kind]| && NoCollision(data[kind], MapFor(maps, kind))
    requires t in done && t in x.present && Rewritten(Materialized, t, row, maps) in done[t]
    requires ForeignKey(c, kind) in x.schema[t].fks && ReferenceField(Materialized, t, c, kind)
    requires Refers(row, c, data[kind][i])
    ensures kind in db && AllHaveIds(db[kind]) && kind in done && AllHaveIds(x.start[kind])
    ensures var r, entity := Rewritten(Materialized, t, row, maps), Rewritten(Materialized, kind, data[kind][i], maps);
            && Has(r, c) && Has(entity, "id") && At(r, c) == At(entity, "id")
            && if entity in done[kind] then Denotes(Indexed(db[kind]), r, c, entity)
               else At(r, c) in Indexed(x.start[kind])
                    && Denotes(Indexed(db[kind]), r, c, Indexed(x.start[kind])[At(r, c)])
  {
    EntityAfterPasses(x, db, pending, imported, done, depth, data, norm, maps, kind, i);
    ReferenceIsMapped(Materialized, t, row, maps, c, kind);
    NewId(Materialized, kind, data[kind][i], maps);
    ReferenceIsPresent(x, db, pending, imported, done, depth, t, Rewritten(Materialized, t, row, maps),
                       ForeignKey(c, kind));
    assert AllHaveIds(x.start[kind]);
    hide MapsFor, CleanSnapshot, Rewritten, Indexed, NoCollision, PassImport.Invariant, FromSnapshot, ReferenceField;
    IndexedKeys(db[kind]);
  }

  lemma IndexedKeys(rows: seq<Row>)
    requires AllHaveIds(rows)
    ensures Indexed(rows).Keys == IdsOf(rows)
  {
    MergeAllIs(map[], rows);
  }

  lemma ReferenceIsPresent(x: PassImport.Input, db: Store, pending: PassImport.Rows, imported: map<Table, nat>,
                           done: PassImport.Rows, depth: nat, t: Table, r: Row, fk: ForeignKey)
    requires x.Valid() && PassImport.Invariant(x, db, pending, imported, done, depth)
    requires t in done && t in x.present && r in done[t] && fk in x.schema[t].fks && Has(r, fk.column)
    requires fk.parent in db
    ensures At(r, fk.column) in IdsOf(db[fk.parent])
  {
    hide PassImport.Level, PassImport.Holds, PassImport.Balanced, IdsOf;
    assert PassImport.ParentsIn(x.schema, PassImport.Keys(db), t, r);
    assert (t, At(r, "id")) in PassImport.DoneKeys(done);
    assert (fk.parent, At(r, fk.column)) in PassImport.Keys(db);
  }

  /** A matched entity is matched to a row with its natural key. */
  lemma MatchedByKey(x: PassImport.Input, data: Dataset, norm: Norm, maps: IdMaps,
                          kind: Table, i: nat)
    requires FromSnapshot(x, data, norm, maps) && CleanSnapshot(Materialized, data, norm) && ByName(kind)
    requires kind in x.start && kind in data && i < |data[kind]| && Has(data[kind][i], "id")
    requires At(data[kind][i], "id") in MapFor(maps, kind)
    ensures var v := MapFor(maps, kind)[At(data[kind][i], "id")];
            AllHaveIds(x.start[kind]) && v in Indexed(x.start[kind]) &&
            KeyAt(KeyColumns(Materialized, kind), Indexed(x.start[kind])[v])
            == KeyAt(KeyColumns(Materialized, kind), data[kind][i])
  {
    var db := IndexedStore(x.start);
    LookedUpUnique(Materialized, db, data, norm, maps, kind);
    assert Normalised(Materialized, kind, norm, RowsIn(data, kind)) && data[kind][i] in RowsIn(data, kind);
    LookedUpAsStored(Materialized, kind, norm, maps, data[kind], data[kind][i]);
    hide KeyColumns, KeyAt, LookupKey, Indexed, SnapshotUnique, Normalised, StoredUnique, Complete;
    SameKeyFound(TableIn(db, kind), KeyColumns(Materialized, kind), data[kind], KeyOf(Materialized, kind, norm, maps),
                 maps[kind], i);
  }
}
