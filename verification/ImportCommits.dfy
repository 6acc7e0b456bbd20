/** The commits of `scripts/import_session_snapshot.py`: when the database takes them all. */
module ImportCommits {
  import opened Names
  import opened Relational
  import opened NaturalKeys
  import opened SnapshotRewrite
  import opened SessionImport
  import opened ImportedByName
  import opened KeysByName

  /** Every reference is null or names a row of the parent table. */
  predicate Committable(schema: Schema, db: Database) {
    forall t, u, fk :: t in db && t in schema && u in db[t] && fk in schema[t].fks && Has(db[t][u], fk.column) ==>
      fk.parent in db && At(db[t][u], fk.column) in db[fk.parent]
  }

  /** The table with the rows of its file merged, all but the deferred fields. */
  ghost function FirstMerged(t: Table, m: ById, rows: seq<Row>, maps: IdMaps): ById
    requires AllHaveIds(rows)
  {
    StrippedHaveIds(t, rows, maps);
    MergeAll(m, AllWithout(AllRewritten(SessionSnapshot, t, rows, maps), DeferredFields(t)))
  }

  lemma StrippedHaveIds(t: Table, rows: seq<Row>, maps: IdMaps)
    requires AllHaveIds(rows)
    ensures AllHaveIds(AllWithout(AllRewritten(SessionSnapshot, t, rows, maps), DeferredFields(t)))
  {
    hide Rewritten, DeferredFields, AllWithout, AllRewritten;
    IdIsNotDeferred(t);
    RewrittenHaveIds(SessionSnapshot, t, rows, maps);
    WithoutKeepsIds(AllRewritten(SessionSnapshot, t, rows, maps), DeferredFields(t));
  }

  lemma IdIsNotDeferred(t: Table)
    ensures "id" !in DeferredFields(t)
  {
    assert |"id"| == 2 && |"based_on_artifact_id"| == 20 && |"superseded_by_artifact_id"| == 25;
  }

  /** Both commits of a file go through; without deferred fields the two are one. */
  ghost predicate FileCommits(schema: Schema, db: Database, t: Table, rows: seq<Row>, maps: IdMaps)
    requires t in db && AllHaveIds(rows)
  {
    && Committable(schema, db[t := FirstMerged(t, db[t], rows, maps)])
    && Committable(schema, db[t := FileMerged(SessionSnapshot, t, db[t], rows, maps)])
  }

  method MergeRows(m0: ById, rows: seq<Row>) returns (m: ById)
    requires AllHaveIds(rows)
    ensures m == MergeAll(m0, rows)
  {
    m := m0;
    for i := 0 to |rows|
      invariant m == MergeAll(m0, rows[..i])
    {
      assert rows[..i + 1][..i] == rows[..i];
      m := m[At(rows[i], "id") := rows[i]];
    }
    assert rows[..|rows|] == rows;
  }

  /** What a refused commit leaves: the database as it was before the file, or all but its deferred fields as well. */
  ghost predicate LastCommitted(before: Database, t: Table, rows: seq<Row>, maps: IdMaps, db: Database) {
    t in before && AllHaveIds(rows) && (db == before || db == before[t := FirstMerged(t, before[t], rows, maps)])
  }

  /** One file: merge and commit, and for deferred fields merge the full rows and commit again. */
  method ImportFile(schema: Schema, db0: Database, t: Table, rows: seq<Row>, maps: IdMaps)
    returns (ok: bool, db: Database, imported: nat)
    requires t in db0 && AllHaveIds(rows) && Committable(schema, db0)
    ensures ok <==> FileCommits(schema, db0, t, rows, maps)
    ensures ok ==> db == db0[t := FileMerged(SessionSnapshot, t, db0[t], rows, maps)] && imported == |rows|
    ensures !ok ==> LastCommitted(db0, t, rows, maps, db)
    ensures Committable(schema, db)
  {
    hide NewReference, Committable;
    var deferred := DeferredFields(t);
    var full: seq<Row> := [];
    for i := 0 to |rows|
      invariant |full| == i && forall k :: 0 <= k < i ==> full[k] == Rewritten(SessionSnapshot, t, rows[k], maps)
    {
      var row := RewriteRow(SessionSnapshot, t, rows[i], maps);
      full := full + [row];
    }
    assert full == AllRewritten(SessionSnapshot, t, rows, maps);
    RewrittenHaveIds(SessionSnapshot, t, rows, maps);
    IdIsNotDeferred(t);
    WithoutKeepsIds(full, deferred);
    TwoPhasesAreOneMerge(db0[t], full, deferred);
    if deferred == {} { NothingWithout(full); }
    var first := MergeRows(db0[t], if deferred != {} then AllWithout(full, deferred) else full);
    db, imported := db0[t := first], |rows|;
    if !Committable(schema, db) {
      return false, db0, 0;
    }
    if deferred != {} && rows != [] {
      var second := MergeRows(first, full);
      if !Committable(schema, db0[t := second]) {
        return false, db, 0;
      }
      db := db0[t := second];
    } else if rows == [] {
      assert full == [] && AllWithout(full, deferred) == [];
    }
    ok := true;
  }

  lemma NothingWithout(rows: seq<Row>)
    ensures AllWithout(rows, {}) == rows
  {
    forall i | 0 <= i < |rows| ensures Without(rows[i], {}) == rows[i] { }
  }

  // ------------------------------------------------------- file after file

  /** The files up to the `n`-th commit, one after the other. */
  ghost predicate AllCommit(schema: Schema, db: Database, data: Dataset, maps: IdMaps, order: seq<Table>, n: nat)
    requires Loadable(db, data, order) && n <= |order|
  {
    forall k :: 0 <= k < n ==>
      FileCommits(schema, Merged(db, data, maps, order[..k]), order[k], RowsIn(data, order[k]), maps)
  }

  lemma NotYet(s: seq<Table>, i: nat)
    requires Distinct(s) && i < |s|
    ensures s[i] !in s[..i] && s[i] in s && s[..i + 1] == s[..i] + [s[i]]
  {
    forall k | 0 <= k < i ensures s[..i][k] != s[i] { assert s[k] != s[i]; }
  }

  /** The summary: how many rows each file had. */
  function Counts(data: Dataset, done: seq<Table>): map<Table, nat> {
    map t | t in done :: |RowsIn(data, t)|
  }

  lemma NextFile(schema: Schema, db: Database, data: Dataset, maps: IdMaps, order: seq<Table>, n: nat)
    requires Loadable(db, data, order) && Distinct(order) && n < |order|
    ensures AllHaveIds(RowsIn(data, order[n])) && order[n] in Merged(db, data, maps, order[..n])
    ensures AllCommit(schema, db, data, maps, order, n + 1) <==>
            AllCommit(schema, db, data, maps, order, n)
            && FileCommits(schema, Merged(db, data, maps, order[..n]), order[n], RowsIn(data, order[n]), maps)
    ensures var t, before := order[n], Merged(db, data, maps, order[..n]);
            before[t := FileMerged(SessionSnapshot, t, before[t], RowsIn(data, t), maps)]
            == Merged(db, data, maps, order[..n + 1])
    ensures Counts(data, order[..n + 1]) == Counts(data, order[..n])[order[n] := |RowsIn(data, order[n])|]
  {
    hide FileMerged, Merged, FileCommits, RowsIn;
    assert AllHaveIds(RowsIn(data, order[n])) by { IdsInFile(db, data, order, order[n]); }
    NotYet(order, n);
    MergedStep(db, data, maps, order[..n], order[n]);
    MoreCounted(data, order[..n], order[n]);
  }

  lemma IdsInFile(db: Database, data: Dataset, order: seq<Table>, t: Table)
    requires Loadable(db, data, order)
    ensures AllHaveIds(RowsIn(data, t))
  {
  }

  lemma MoreCounted(data: Dataset, done: seq<Table>, t: Table)
    ensures Counts(data, done + [t]) == Counts(data, done)[t := |RowsIn(data, t)|]
  {
  }

  /** The loop over the files, in the order given; it stops at the first commit that is refused. */
  method ImportFiles(schema: Schema, db0: Database, data: Dataset, maps: IdMaps, order: seq<Table>)
    returns (ok: bool, db: Database, summary: map<Table, nat>, ghost files: nat)
    requires Loadable(db0, data, order) && Distinct(order) && Committable(schema, db0)
    ensures files <= |order| && (ok <==> files == |order|)
    ensures AllCommit(schema, db0, data, maps, order, files)
    ensures ok ==> db == Merged(db0, data, maps, order) && summary == Counts(data, order)
    ensures !ok ==> !AllCommit(schema, db0, data, maps, order, files + 1)
    ensures !ok ==>
      LastCommitted(Merged(db0, data, maps, order[..files]), order[files], RowsIn(data, order[files]), maps, db)
    ensures Committable(schema, db)
  {
    assert AllCommit(schema, db0, data, maps, order, 0);
    NothingMerged(db0, data, maps);
    assert order[..0] == [] && Counts(data, []) == map[];
    hide FileMerged, FirstMerged, Merged, Committable, FileCommits, AllCommit, RowsIn, Counts,
         LastCommitted;
    ok, db, summary, files := true, db0, map[], 0;
    for i := 0 to |order|
      invariant ok && files == i && AllCommit(schema, db0, data, maps, order, i)
      invariant db == Merged(db0, data, maps, order[..i]) && Committable(schema, db)
      invariant summary == Counts(data, order[..i])
    {
      var t := order[i];
      NextFile(schema, db0, data, maps, order, i);
      var fits, next, imported := ImportFile(schema, db, t, RowsIn(data, t), maps);
      db := next;
      if !fits {
        ok := false;
        return;
      }
      assert db == Merged(db0, data, maps, order[..i + 1]);
      summary, files := summary[t := imported], i + 1;
    }
    assert order[..|order|] == order;
  }

  lemma RefusedLeaves(db0: Database, data: Dataset, maps: IdMaps, done: seq<Table>, t: Table, db: Database)
    requires forall q :: q in data ==> AllHaveIds(data[q])
    requires LastCommitted(Merged(db0, data, maps, done), t, RowsIn(data, t), maps, db)
    ensures forall q :: q in db0 && q != t ==> q in db && db[q] == Merged(db0, data, maps, done)[q]
  {
    hide FirstMerged;
  }

  /** Every file with its number of rows. */
  ghost predicate Summary(data: Dataset, summary: map<Table, nat>) {
    && (forall t :: t in summary <==> ImportedTable(t))
    && forall t :: t in summary ==> summary[t] == if t in data then |data[t]| else 0
  }

  lemma CountsAreSummary(data: Dataset)
    ensures Summary(data, Counts(data, TABLE_IMPORT_ORDER))
  {
    forall t ensures t in TABLE_IMPORT_ORDER <==> ImportedTable(t) { ImportedTablesAre(t); }
    hide TABLE_IMPORT_ORDER, ImportedTable;
  }

  method ImportSnapshot(schema: Schema, db0: Database, data: Dataset, norm: Norm)
    returns (ok: bool, db: Database, summary: map<Table, nat>, maps: IdMaps, ghost files: nat)
    requires Loadable(db0, data, TABLE_IMPORT_ORDER) && Committable(schema, db0)
    ensures MapsFor(SessionSnapshot, db0, data, norm, maps) && MapsByName(SessionSnapshot, db0, data, norm, maps)
    ensures ok <==> AllCommit(schema, db0, data, maps, TABLE_IMPORT_ORDER, |TABLE_IMPORT_ORDER|)
    ensures ok ==> db == Merged(db0, data, maps, TABLE_IMPORT_ORDER)
    // Row by row: where each row of a file lands, and what stays.
    ensures ok ==> Imported(db0, data, maps, db)
    ensures ok ==> Summary(data, summary)
    // A refused commit leaves the files before it.
    ensures files <= |TABLE_IMPORT_ORDER| && AllCommit(schema, db0, data, maps, TABLE_IMPORT_ORDER, files)
    ensures !ok ==> files < |TABLE_IMPORT_ORDER|
    ensures !ok ==> forall t :: t in db0 && t != TABLE_IMPORT_ORDER[files] ==>
                      t in db && db[t] == Merged(db0, data, maps, TABLE_IMPORT_ORDER[..files])[t]
    ensures Committable(schema, db)
  {
    ImportOrderIsDistinct();
    CountsAreSummary(data);
    hide FileMerged, FirstMerged, Committable, FileCommits, TABLE_IMPORT_ORDER, MapsFor, MapsByName, Imported,
         Merged, Counts, Summary, LastCommitted;
    maps := BuildMaps(SessionSnapshot, db0, data, norm);
    MapsAreByName(SessionSnapshot, db0, data, norm, maps);
    MergedIsImported(db0, data, maps);
    ok, db, summary, files := ImportFiles(schema, db0, data, maps, TABLE_IMPORT_ORDER);
    if !ok { RefusedLeaves(db0, data, maps, TABLE_IMPORT_ORDER[..files], TABLE_IMPORT_ORDER[files], db); }
  }

  // ------------------------------------------------------- when they commit

  /** No later row of the file has the same id. */
  ghost predicate Lasting(rows: seq<Row>, row: Row)
    requires AllHaveIds(rows)
  {
    row in rows && LastWith(rows, At(row, "id")) == row
  }

  /** `u` is the id of a row of `p`, from before or from one of the files of `done`. */
  ghost predicate Known(db: Database, data: Dataset, maps: IdMaps, done: seq<Table>, p: Table, u: Uuid) {
    p in db && (u in db[p] || (p in done && p in data && u in IdsOf(AllRewritten(SessionSnapshot, p, data[p], maps))))
  }

  lemma KnownIsMerged(db: Database, data: Dataset, maps: IdMaps, done: seq<Table>, p: Table, u: Uuid)
    requires forall t :: t in data ==> AllHaveIds(data[t])
    ensures Known(db, data, maps, done, p, u) <==> p in db && u in Merged(db, data, maps, done)[p]
  {
    if p in db && p in done && p in data {
      RewrittenHaveIds(SessionSnapshot, p, data[p], maps);
      MergeAllIs(db[p], AllRewritten(SessionSnapshot, p, data[p], maps));
    }
  }

  /** The row's reference is null or names a row of the database, or one of the rows merged with it. */
  ghost predicate ParentFound(db: Database, t: Table, rows: seq<Row>, row: Row, fk: ForeignKey) {
    Has(row, fk.column) ==>
      fk.parent in db && (At(row, fk.column) in db[fk.parent] || (fk.parent == t && At(row, fk.column) in IdsOf(rows)))
  }

  /** Merging rows into a sound database keeps it sound exactly when the rows that stay find their parents. */
  lemma MergeCommits(schema: Schema, db: Database, t: Table, rows: seq<Row>)
    requires Committable(schema, db) && t in db && AllHaveIds(rows)
    ensures Committable(schema, db[t := MergeAll(db[t], rows)]) <==>
            (t in schema ==> forall row: Row, fk :: Lasting(rows, row) && fk in schema[t].fks ==>
                                                    ParentFound(db, t, rows, row, fk))
  {
    hide LastWith, IdsOf, MergeAll;
    var after := db[t := MergeAll(db[t], rows)];
    MergeAllIs(db[t], rows);
    if Committable(schema, after) && t in schema {
      forall row: Row, fk | Lasting(rows, row) && fk in schema[t].fks ensures ParentFound(db, t, rows, row, fk) {
        IdOfRow(rows, row);
        assert after[t][At(row, "id")] == row;
      }
    }
    if t in schema ==> forall row: Row, fk :: Lasting(rows, row) && fk in schema[t].fks ==>
                                              ParentFound(db, t, rows, row, fk) {
      forall q, u, fk | q in after && q in schema && u in after[q] && fk in schema[q].fks
                        && Has(after[q][u], fk.column)
        ensures fk.parent in after && At(after[q][u], fk.column) in after[fk.parent]
      {
        if q == t && u in IdsOf(rows) {
          assert Lasting(rows, after[t][u]);
        } else {
          assert after[q][u] == db[q][u];
        }
      }
    }
  }

  lemma IdOfRow(rows: seq<Row>, row: Row)
    requires row in rows && Has(row, "id")
    ensures At(row, "id") in IdsOf(rows)
  {
  }

  /** Only deferred fields can make the second commit fail when the first has gone through. */
  lemma SecondImpliesFirst(schema: Schema, db: Database, t: Table, rows: seq<Row>, fields: set<Column>)
    requires Committable(schema, db) && t in db && AllHaveIds(rows) && "id" !in fields
    requires Committable(schema, db[t := MergeAll(db[t], rows)])
    ensures AllHaveIds(AllWithout(rows, fields))
    ensures Committable(schema, db[t := MergeAll(db[t], AllWithout(rows, fields))])
  {
    WithoutKeepsIds(rows, fields);
    MergeCommits(schema, db, t, rows);
    var stripped := AllWithout(rows, fields);
    MergeCommits(schema, db, t, stripped);
    hide Committable, IdsOf, LastWith, MergeAll;
    if t in schema {
      forall row: Row, fk | Lasting(stripped, row) && fk in schema[t].fks
        ensures ParentFound(db, t, stripped, row, fk)
      {
        var full := LastingFull(rows, fields, row);
        assert ParentFound(db, t, rows, full, fk);
      }
    }
  }

  lemma LastingFull(rows: seq<Row>, fields: set<Column>, row: Row) returns (full: Row)
    requires AllHaveIds(rows) && "id" !in fields && AllHaveIds(AllWithout(rows, fields))
    requires Lasting(AllWithout(rows, fields), row)
    ensures Lasting(rows, full) && row == Without(full, fields)
  {
    hide LastWith;
    var stripped := AllWithout(rows, fields);
    IdOfRow(stripped, row);
    var x := LastIndex(stripped, At(row, "id"));
    full := rows[x];
    assert forall k :: 0 <= k < |rows| ==> rows[k] in rows && stripped[k] in stripped;
    IdOfRow(rows, full);
    var y := LastIndex(rows, At(full, "id"));
    assert forall k :: 0 <= k < |rows| ==> At(stripped[k], "id") == At(rows[k], "id");
    assert x == y;
  }

  /** The rows of file `t` that stay have all their references resolved once it is merged. */
  ghost predicate FileResolves(schema: Schema, db: Database, data: Dataset, maps: IdMaps, done: seq<Table>, t: Table)
    requires AllHaveIds(RowsIn(data, t))
  {
    RewrittenHaveIds(SessionSnapshot, t, RowsIn(data, t), maps);
    var rows := AllRewritten(SessionSnapshot, t, RowsIn(data, t), maps);
    t in schema ==> forall row: Row, fk :: Lasting(rows, row) && fk in schema[t].fks ==>
                      (Has(row, fk.column) ==> Known(db, data, maps, done, fk.parent, At(row, fk.column)))
  }

  lemma FileCommitsIff(schema: Schema, db: Database, data: Dataset, maps: IdMaps, done: seq<Table>, t: Table)
    requires (forall q :: q in data ==> AllHaveIds(data[q])) && t in db && t !in done
    requires Committable(schema, Merged(db, data, maps, done))
    ensures t in Merged(db, data, maps, done)
    ensures FileCommits(schema, Merged(db, data, maps, done), t, RowsIn(data, t), maps) <==>
            FileResolves(schema, db, data, maps, done + [t], t)
    ensures FileCommits(schema, Merged(db, data, maps, done), t, RowsIn(data, t), maps) ==>
            Committable(schema, Merged(db, data, maps, done + [t]))
  {
    MergedStep(db, data, maps, done, t);
    var before, rows := Merged(db, data, maps, done), AllRewritten(SessionSnapshot, t, RowsIn(data, t), maps);
    RewrittenHaveIds(SessionSnapshot, t, RowsIn(data, t), maps);
    MergeCommits(schema, before, t, rows);
    IdIsNotDeferred(t);
    forall row: Row, fk
      ensures ParentFound(before, t, rows, row, fk) <==>
              (Has(row, fk.column) ==> Known(db, data, maps, done + [t], fk.parent, At(row, fk.column)))
    {
      if Has(row, fk.column) { KnownHere(db, data, maps, done, t, fk.parent, At(row, fk.column)); }
    }
    hide Merged, Known, Finds, AllRewritten, Lasting, Committable, AllWithout, MergeAll, DeferredFields;
    if Committable(schema, before[t := MergeAll(before[t], rows)]) {
      SecondImpliesFirst(schema, before, t, rows, DeferredFields(t));
    }
  }

  lemma KnownHere(db: Database, data: Dataset, maps: IdMaps, done: seq<Table>, t: Table, p: Table, u: Uuid)
    requires (forall q :: q in data ==> AllHaveIds(data[q])) && t in db
    ensures Known(db, data, maps, done + [t], p, u) <==>
            p in Merged(db, data, maps, done)
            && (u in Merged(db, data, maps, done)[p]
                || (p == t && u in IdsOf(AllRewritten(SessionSnapshot, t, RowsIn(data, t), maps))))
  {
    KnownIsMerged(db, data, maps, done, p, u);
    assert AllRewritten(SessionSnapshot, t, [], maps) == [];
    hide Merged, AllRewritten;
  }

  /**
   Every commit goes through exactly when each row that stays names, through each foreign key, a
   row that the target had or that one of the files so far has brought.
   */
  lemma {:induction false} CommitsIff(schema: Schema, db: Database, data: Dataset, maps: IdMaps, order: seq<Table>,
                                      n: nat)
    requires Loadable(db, data, order) && Distinct(order) && Committable(schema, db) && n <= |order|
    ensures AllCommit(schema, db, data, maps, order, n) <==>
            forall k :: 0 <= k < n ==> FileResolves(schema, db, data, maps, order[..k + 1], order[k])
    ensures AllCommit(schema, db, data, maps, order, n) ==> Committable(schema, Merged(db, data, maps, order[..n]))
  {
    hide Merged, FileCommits, FileResolves, Committable;
    if n == 0 {
      assert order[..0] == [];
      NothingMerged(db, data, maps);
    } else {
      CommitsIff(schema, db, data, maps, order, n - 1);
      if AllCommit(schema, db, data, maps, order, n - 1) {
        NotYet(order, n - 1);
        FileCommitsIff(schema, db, data, maps, order[..n - 1], order[n - 1]);
      }
    }
  }

  /** Users come first: on a target without the workspace, one whose default workspace is new is refused. */
  lemma NewDefaultWorkspace(schema: Schema, db: Database, data: Dataset, maps: IdMaps, row: Row, fk: ForeignKey)
    requires Loadable(db, data, TABLE_IMPORT_ORDER) && Committable(schema, db)
    requires "users" in schema && fk in schema["users"].fks && fk.parent != "users"
    requires AllHaveIds(AllRewritten(SessionSnapshot, "users", RowsIn(data, "users"), maps))
    requires Lasting(AllRewritten(SessionSnapshot, "users", RowsIn(data, "users"), maps), row)
    requires Has(row, fk.column) && (fk.parent in db ==> At(row, fk.column) !in db[fk.parent])
    ensures !AllCommit(schema, db, data, maps, TABLE_IMPORT_ORDER, 1)
  {
    ImportOrderIsDistinct();
    assert TABLE_IMPORT_ORDER[0] == "users" && TABLE_IMPORT_ORDER[..1] == ["users"];
    hide TABLE_IMPORT_ORDER, AllRewritten, Lasting, Committable, Merged, AllCommit;
    CommitsIff(schema, db, data, maps, TABLE_IMPORT_ORDER, 1);
    assert !FileResolves(schema, db, data, maps, ["users"], "users");
  }
}
