/** `import_snapshot` of `scripts/import_materialized_project_snapshot.py`: id maps, rewriting, passes. */
module MaterializedImport {
  import opened Names
  import opened Relational
  import opened NaturalKeys
  import opened SnapshotRewrite
  import opened SessionImport
  import opened KeysByName
  import PassImport

  /** The rows of a table by their primary key. */
  function Indexed(rows: seq<Row>): ById
    requires AllHaveIds(rows)
  {
    MergeAll(map[], rows)
  }

  lemma IndexedIs(rows: seq<Row>)
    requires Keyed(rows)
    ensures AllHaveIds(rows) && Indexed(rows).Keys == IdsOf(rows)
    ensures forall r :: r in rows ==> Indexed(rows)[At(r, "id")] == r
  {
    MergeAllIs(map[], rows);
    forall r | r in rows ensures Indexed(rows)[At(r, "id")] == r {
      var i :| 0 <= i < |rows| && rows[i] == r;
      LastOfDistinct(rows, i);
    }
  }

  /** An upsert is a map update. */
  lemma UpsertIsUpdate(rows: seq<Row>, row: Row)
    requires Keyed(rows) && Has(row, "id")
    ensures Keyed(PassImport.Upsert(rows, row)) && AllHaveIds(rows) && AllHaveIds(PassImport.Upsert(rows, row))
    ensures Indexed(PassImport.Upsert(rows, row)) == Indexed(rows)[At(row, "id") := row]
  {
    hide Keyed, PassImport.Upsert, Indexed;
    var after := PassImport.Upsert(rows, row);
    PassImport.UpsertIs(rows, row);
    PassImport.UpsertIds(rows, row);
    IndexedIs(rows);
    IndexedIs(after);
    forall u | u in IdsOf(after) ensures Indexed(after)[u] == Indexed(rows)[At(row, "id") := row][u] {
      var r: Row :| r in after && Has(r, "id") && At(r, "id") == u;
    }
  }

  /** Upserting row by row merges the rows into the table. */
  lemma {:induction false} UpsertsAreMerges(rows: seq<Row>, more: seq<Row>)
    requires Keyed(rows) && AllHaveIds(more)
    ensures Keyed(PassImport.UpsertAll(rows, more))
    ensures AllHaveIds(rows) && AllHaveIds(PassImport.UpsertAll(rows, more))
    ensures Indexed(PassImport.UpsertAll(rows, more)) == MergeAll(Indexed(rows), more)
  {
    hide Keyed, PassImport.Upsert, Indexed;
    IndexedIs(rows);
    if more != [] {
      var init, last := more[..|more| - 1], more[|more| - 1];
      UpsertsAreMerges(rows, init);
      UpsertIsUpdate(PassImport.UpsertAll(rows, init), last);
    }
  }

  /** The database before the import, by primary key. */
  ghost function IndexedStore(store: Store): Database
    requires forall t :: t in store ==> AllHaveIds(store[t])
  {
    map t | t in store :: Indexed(store[t])
  }

  /** The rows that go through the passes are the snapshot's, rewritten under the id maps. */
  ghost predicate FromSnapshot(x: PassImport.Input, data: Dataset, norm: Norm, maps: IdMaps) {
    && (forall t :: t in x.start ==> Keyed(x.start[t]) && AllHaveIds(x.start[t]))
    && MapsFor(Materialized, IndexedStore(x.start), data, norm, maps)
    && x.dataset == map t | t in data :: AllRewritten(Materialized, t, data[t], maps)
  }

  /** What the passes leave of a table is its rows with the imported ones merged into them. */
  lemma LeftByPasses(x: PassImport.Input, db: Store, pending: PassImport.Rows, imported: map<Table, nat>,
                     done: PassImport.Rows, depth: nat, data: Dataset, norm: Norm, maps: IdMaps, t: Table)
    requires x.Valid() && PassImport.Invariant(x, db, pending, imported, done, depth)
    requires FromSnapshot(x, data, norm, maps) && t in x.start && t in data && AllHaveIds(data[t])
    ensures t in db && t in done && Keyed(db[t]) && AllHaveIds(db[t]) && AllHaveIds(done[t])
    ensures Indexed(db[t]) == MergeAll(Indexed(x.start[t]), done[t])
    ensures forall r :: r in done[t] ==> r in AllRewritten(Materialized, t, data[t], maps)
  {
    hide Keyed, MapsFor, AllRewritten, Indexed;
    hide PassImport.Level, PassImport.Keys, PassImport.ParentsAreIn, PassImport.DoneKeys;
    forall r | r in done[t] ensures r in x.dataset[t] {
      assert r in multiset(done[t]) + multiset(pending[t]);
    }
    RewrittenHaveIds(Materialized, t, data[t], maps);
    UpsertsAreMerges(x.start[t], done[t]);
  }

  /**
   After any number of passes, over tables and rows in any order, no table holds a natural key
   twice, when all rows that share one are matched; and once the whole table has been imported
   without a collision of ids, exactly then.
   */
  lemma PassesKeepKeysUnique(x: PassImport.Input, db: Store, pending: PassImport.Rows, imported: map<Table, nat>,
                             done: PassImport.Rows, depth: nat, data: Dataset, norm: Norm, maps: IdMaps, t: Table)
    requires x.Valid() && PassImport.Invariant(x, db, pending, imported, done, depth)
    requires FromSnapshot(x, data, norm, maps) && t in maps && t in x.start && t in data
    requires KeysUnique(Indexed(x.start[t]), KeyColumns(Materialized, t))
    requires DistinctIds(data[t]) && Normalised(Materialized, t, norm, data[t])
    ensures t in db && Keyed(db[t]) && AllHaveIds(db[t]) && t in pending
    ensures RepeatsAreMatched(data[t], KeyOf(Materialized, t, norm, maps), maps[t]) ==>
      KeysUnique(Indexed(db[t]), KeyColumns(Materialized, t))
    ensures pending[t] == [] && NoCollision(data[t], maps[t]) ==>
      (KeysUnique(Indexed(db[t]), KeyColumns(Materialized, t)) <==>
       RepeatsAreMatched(data[t], KeyOf(Materialized, t, norm, maps), maps[t]))
  {
    WholeTableIsDone(x, db, pending, imported, done, depth, data, norm, maps, t);
    LeftByPasses(x, db, pending, imported, done, depth, data, norm, maps, t);
    hide Keyed, KeysUnique, KeyColumns, AllRewritten, Indexed, PassImport.Invariant, RepeatsAreMatched, LookupKey,
         IsIdMap, NoCollision, Normalised, Rewrites;
    var rows, columns, key := data[t], KeyColumns(Materialized, t), KeyOf(Materialized, t, norm, maps);
    RewritesTable(Materialized, t, norm, maps, rows);
    var m, rewritten := Indexed(x.start[t]), AllRewritten(Materialized, t, rows, maps);
    if RepeatsAreMatched(rows, key, maps[t]) {
      MergedKeysUnique(m, columns, rows, key, maps[t], rewritten, done[t]);
    }
    if pending[t] == [] && NoCollision(rows, maps[t]) {
      WholeIsUniqueIff(m, columns, rows, key, maps[t], rewritten, done[t]);
    }
  }

  lemma WholeTableIsDone(x: PassImport.Input, db: Store, pending: PassImport.Rows, imported: map<Table, nat>,
                         done: PassImport.Rows, depth: nat, data: Dataset, norm: Norm, maps: IdMaps, t: Table)
    requires x.Valid() && PassImport.Invariant(x, db, pending, imported, done, depth)
    requires FromSnapshot(x, data, norm, maps) && t in data
    ensures t in pending && t in done
    ensures pending[t] == [] ==> forall r :: r in done[t] <==> r in AllRewritten(Materialized, t, data[t], maps)
  {
    hide Keyed, MapsFor, AllRewritten, Indexed;
    hide PassImport.Level, PassImport.Keys, PassImport.ParentsAreIn, PassImport.DoneKeys;
    assert multiset(done[t]) + multiset(pending[t]) == multiset(x.dataset[t]);
    forall r ensures r in x.dataset[t] <==> r in done[t] || r in pending[t] {
      assert r in x.dataset[t] <==> r in multiset(x.dataset[t]);
      assert r in done[t] <==> r in multiset(done[t]);
      assert r in pending[t] <==> r in multiset(pending[t]);
    }
  }

  lemma CleanHasIds(data: Dataset, norm: Norm, maps: IdMaps, t: Table)
    requires CleanSnapshot(Materialized, data, norm) && t in KeyedTables(Materialized) && t in data
    ensures AllHaveIds(data[t])
  {
    assert StoredUnique(Materialized, t, RowsIn(data, t));
  }

  method RewriteTable(t: Table, rows: seq<Row>, maps: IdMaps) returns (rewritten: seq<Row>)
    ensures rewritten == AllRewritten(Materialized, t, rows, maps)
  {
    hide Rewritten;
    rewritten := [];
    for i := 0 to |rows|
      invariant rewritten == AllRewritten(Materialized, t, rows[..i], maps)
    {
      var row := RewriteRow(Materialized, t, rows[i], maps);
      rewritten := rewritten + [row];
    }
    assert rows[..|rows|] == rows;
  }

  /** Row by row, the references follow the maps and all else is as in the file. */
  ghost predicate RowsByName(t: Table, rows: seq<Row>, rewritten: seq<Row>, maps: IdMaps) {
    |rewritten| == |rows| && forall k :: 0 <= k < |rows| ==> NewRowIs(Materialized, t, rows[k], rewritten[k], maps)
  }

  lemma TableByName(t: Table, rows: seq<Row>, maps: IdMaps)
    ensures RowsByName(t, rows, AllRewritten(Materialized, t, rows, maps), maps)
    ensures |AllRewritten(Materialized, t, rows, maps)| == |rows|
  {
    hide Rewritten, NewRowIs;
    forall k | 0 <= k < |rows|
      ensures NewRowIs(Materialized, t, rows[k], AllRewritten(Materialized, t, rows, maps)[k], maps)
    {
      RewrittenIs(Materialized, t, rows[k], maps);
    }
  }

  method RewriteDataset(data: Dataset, maps: IdMaps) returns (rewritten: Dataset)
    ensures rewritten == map t | t in data :: AllRewritten(Materialized, t, data[t], maps)
  {
    hide AllRewritten;
    rewritten := map[];
    var todo := data.Keys;
    while todo != {}
      invariant todo <= data.Keys && rewritten.Keys == data.Keys - todo
      invariant forall t :: t in rewritten ==> rewritten[t] == AllRewritten(Materialized, t, data[t], maps)
      decreases todo
    {
      var t :| t in todo;
      var rows := RewriteTable(t, data[t], maps);
      rewritten, todo := rewritten[t := rows], todo - {t};
    }
  }

  /** The whole import: what goes through the passes is the rewritten snapshot, and the passes do what they promise. */
  method ImportSnapshot(schema: Schema, present: set<Table>, start: Store, data: Dataset, norm: Norm, order: seq<Table>)
    returns (db: Store, imported: map<Table, nat>, unresolved: map<Table, nat>, settled: bool, maps: IdMaps,
             ghost x: PassImport.Input, ghost pending: PassImport.Rows, ghost done: PassImport.Rows, ghost depth: nat)
    requires present <= schema.Keys && present <= start.Keys && Elems(order) == data.Keys
    requires forall t :: t in start ==> Keyed(start[t])
    ensures x.Valid() && x.schema == schema && x.present == present && x.start == start
    ensures FromSnapshot(x, data, norm, maps) && PassImport.Invariant(x, db, pending, imported, done, depth)
    ensures MapsByName(Materialized, IndexedStore(start), data, norm, maps)
    ensures x.dataset.Keys == data.Keys && forall t :: t in data ==> RowsByName(t, data[t], x.dataset[t], maps)
    ensures settled ==> pending.Keys == x.dataset.Keys && PassImport.Settled(x, PassImport.Keys(db), pending)
    ensures PassImport.Level(x, 8) <= PassImport.Keys(db)
    // What is not imported is reported, and nothing else.
    ensures imported.Keys == data.Keys
    ensures forall t :: t in data ==> |data[t]| == imported[t] + if t in unresolved then unresolved[t] else 0
    ensures unresolved.Keys <= data.Keys && forall t :: t in unresolved ==> unresolved[t] > 0
  {
    hide MapsFor, MapsByName, Indexed, AllRewritten, RowsByName, PassImport.Invariant, PassImport.Settled,
         PassImport.Level, PassImport.Keys;
    forall t | t in start ensures AllHaveIds(start[t]) { IndexedIs(start[t]); }
    var stored := map t | t in start :: Indexed(start[t]);
    maps := BuildMaps(Materialized, stored, data, norm);
    MapsAreByName(Materialized, stored, data, norm, maps);
    var rewritten := RewriteDataset(data, maps);
    var input := PassImport.Input(schema, present, rewritten, start);
    x := input;
    forall t | t in data ensures RowsByName(t, data[t], rewritten[t], maps) && |rewritten[t]| == |data[t]| {
      TableByName(t, data[t], maps);
    }
    assert FromSnapshot(x, data, norm, maps) by { assert IndexedStore(start) == stored; }
    var left, totals;
    db, left, imported, totals, settled, done, depth := PassImport.ImportSnapshot(input, order);
    pending := left;
    PassImport.Conserved(x, db, pending, imported, done, depth);
    unresolved := map t | t in left && left[t] != [] :: |left[t]|;
  }
}
