/** Importing the same snapshot twice with `scripts/import_session_snapshot.py`. */
module SnapshotTwice {
  import opened Names
  import opened Relational
  import opened NaturalKeys
  import opened SnapshotRewrite
  import opened ImportTwice
  import opened SessionImport

  /** The table's keys are unique, and so are the snapshot's, normalised and as they are looked up. */
  ghost predicate Coherent(db: Database, data: Dataset, norm: Norm, maps: IdMaps, t: Table) {
    var script, rows := SessionSnapshot, RowsIn(data, t);
    && t in db && KeysUnique(db[t], KeyColumns(script, t))
    && SnapshotUnique(rows, KeyOf(script, t, norm, maps)) && Normalised(script, t, norm, rows)
  }

  /** As they are of a clean snapshot whose references in keys keep apart. */
  lemma CleanIsCoherent(db: Database, data: Dataset, norm: Norm, maps: IdMaps, t: Table)
    requires MapsFor(SessionSnapshot, db, data, norm, maps) && CleanSnapshot(SessionSnapshot, data, norm)
    requires t in maps && t in db && KeysUnique(db[t], KeyColumns(SessionSnapshot, t))
    requires ByName(t) || KeysApart(SessionSnapshot, t, RowsIn(data, t), maps)
    ensures Coherent(db, data, norm, maps, t)
  {
    LookedUpUnique(SessionSnapshot, db, data, norm, maps, t);
    hide KeysApart, IsIdMap, StoredUnique, KeysUnique, SnapshotUnique, Normalised, KeyColumns;
  }

  /** Both runs rewrite the rows' cells alike, apart from their own ids. */
  ghost predicate SameCells(t: Table, rows: seq<Row>, a: IdMaps, b: IdMaps) {
    forall row, c :: row in rows && c in row && c != "id" ==>
      NewCell(SessionSnapshot, t, c, row[c], a) == NewCell(SessionSnapshot, t, c, row[c], b)
  }

  /** The column refers to a row of `kind`. */
  predicate RefersTo(t: Table, c: Column, kind: Table) {
    if kind == "users" then IsUserField(SessionSnapshot, c)
    else IsWorkspaceField(SessionSnapshot, c) || (t == "runtime_settings_audit" && c == "scope_id")
  }

  /** The row refers to a user or workspace that loses its target row. */
  ghost predicate NamesLoser(data: Dataset, maps: IdMaps, t: Table, row: Row)
    requires AllHaveIds(RowsIn(data, "users")) && AllHaveIds(RowsIn(data, "workspaces"))
  {
    exists c :: CellNamesLoser(data, maps, t, row, c)
  }

  ghost predicate CellNamesLoser(data: Dataset, maps: IdMaps, t: Table, row: Row, c: Column)
    requires AllHaveIds(RowsIn(data, "users")) && AllHaveIds(RowsIn(data, "workspaces"))
  {
    Has(row, c) && c != "id" &&
    (|| (RefersTo(t, c, "users") && LoserId(RowsIn(data, "users"), MapFor(maps, "users"), At(row, c)))
     || (RefersTo(t, c, "workspaces") && LoserId(RowsIn(data, "workspaces"), MapFor(maps, "workspaces"), At(row, c))))
  }

  /** What a table looks like to the second run. */
  lemma MergedTable(db: Database, data: Dataset, maps: IdMaps, order: seq<Table>, t: Table)
    requires Loadable(db, data, order) && t in order
    ensures AllHaveIds(AllRewritten(SessionSnapshot, t, RowsIn(data, t), maps))
    ensures TableIn(Merged(db, data, maps, order), t)
         == MergeAll(db[t], AllRewritten(SessionSnapshot, t, RowsIn(data, t), maps))
  {
    hide Rewritten;
    RewrittenHaveIds(SessionSnapshot, t, RowsIn(data, t), maps);
    NoFile(SessionSnapshot, t, db[t], maps);
  }

  /** The two runs over a table with a natural key. */
  ghost function RunsOf(db: Database, data: Dataset, norm: Norm, maps: IdMaps, again: IdMaps, t: Table): Runs
    requires t in db
  {
    var script, rows := SessionSnapshot, RowsIn(data, t);
    Runs(db[t], KeyColumns(script, t), rows, KeyOf(script, t, norm, maps), MapFor(maps, t),
         AllRewritten(script, t, rows, maps), MapFor(again, t), AllRewritten(script, t, rows, again))
  }

  /** The two runs of a script over one snapshot, the second one on the database the first one leaves. */
  ghost predicate TwoRuns(db: Database, data: Dataset, norm: Norm, maps: IdMaps, again: IdMaps, order: seq<Table>) {
    && Loadable(db, data, order) && MapsFor(SessionSnapshot, db, data, norm, maps)
    && MapsFor(SessionSnapshot, Merged(db, data, maps, order), data, norm, again)
  }

  /** Rows whose cells are rewritten alike are looked up under the same keys. */
  lemma SameLookupOn(t: Table, norm: Norm, rows: seq<Row>, a: IdMaps, b: IdMaps)
    requires ByName(t) || SameCells(t, rows, a, b)
    ensures forall row :: row in rows ==>
      KeyOf(SessionSnapshot, t, norm, a)(row) == KeyOf(SessionSnapshot, t, norm, b)(row)
  {
    hide NewReference, KeyColumns;
    var columns := KeyColumns(SessionSnapshot, t);
    forall row | row in rows
      ensures KeyOf(SessionSnapshot, t, norm, a)(row) == KeyOf(SessionSnapshot, t, norm, b)(row)
    {
      var x, y := LookupKey(SessionSnapshot, t, norm, a, row), LookupKey(SessionSnapshot, t, norm, b, row);
      forall i | 0 <= i < |columns| ensures x[i] == y[i] {
        var c := columns[i];
        KeyColumnsAreOther(SessionSnapshot, t, i);
        NullIsNoReference(c, a, b);
        if !ByName(t) && c in row {
          assert NewCell(SessionSnapshot, t, c, row[c], a) == NewCell(SessionSnapshot, t, c, row[c], b);
        }
        assert x[i] == if ByName(t) then norm(Cell(row, c)) else NewReference(SessionSnapshot, c, Cell(row, c), a);
      }
      assert x == y;
    }
  }

  lemma NullIsNoReference(c: Column, a: IdMaps, b: IdMaps)
    ensures NewReference(SessionSnapshot, c, Null, a) == Null == NewReference(SessionSnapshot, c, Null, b)
  {
  }

  lemma RunsAreValid(db: Database, data: Dataset, norm: Norm, maps: IdMaps, again: IdMaps, order: seq<Table>, t: Table)
    requires TwoRuns(db, data, norm, maps, again, order) && t in maps && t in again && t in order
    requires Coherent(db, data, norm, maps, t) && (ByName(t) || SameCells(t, RowsIn(data, t), maps, again))
    ensures RunsOf(db, data, norm, maps, again, t).Valid()
  {
    MergedTable(db, data, maps, order, t);
    SameLookupOn(t, norm, RowsIn(data, t), maps, again);
    FoundInBoth(db, data, norm, maps, again, order, t);
    var script, rows := SessionSnapshot, RowsIn(data, t);
    assert AllHaveIds(rows);
    assert KeysUnique(db[t], KeyColumns(script, t)) && SnapshotUnique(rows, KeyOf(script, t, norm, maps))
        && Normalised(script, t, norm, rows);
    hide TwoRuns, Coherent, KeyAt, Complete, Rewritten, AllRewritten, KeyColumns, LookupKey, IsIdMap, KeysUnique,
         Normalised, Merged, MergeAll, SameCells, SnapshotUnique, Rewrites;
    RewritesTable(script, t, norm, maps, rows);
    RewritesTable(script, t, norm, again, rows);
    SameRewrites(KeyColumns(script, t), rows, KeyOf(script, t, norm, again), KeyOf(script, t, norm, maps),
                 MapFor(again, t), AllRewritten(script, t, rows, again));
  }

  lemma SameRewrites(columns: seq<Column>, rows: seq<Row>, key: Row -> seq<Value>, other: Row -> seq<Value>,
                     mapping: IdMap, rewritten: seq<Row>)
    requires Rewrites(columns, rows, key, mapping, rewritten) && forall row :: row in rows ==> key(row) == other(row)
    ensures Rewrites(columns, rows, other, mapping, rewritten)
  {
    hide KeyAt;
  }

  lemma FoundInBoth(db: Database, data: Dataset, norm: Norm, maps: IdMaps, again: IdMaps, order: seq<Table>, t: Table)
    requires TwoRuns(db, data, norm, maps, again, order) && t in maps && t in again && t in order
    requires forall row :: row in RowsIn(data, t) ==>
      KeyOf(SessionSnapshot, t, norm, maps)(row) == KeyOf(SessionSnapshot, t, norm, again)(row)
    ensures IsIdMap(db[t], KeyColumns(SessionSnapshot, t), RowsIn(data, t), KeyOf(SessionSnapshot, t, norm, maps),
                    maps[t])
    ensures IsIdMap(TableIn(Merged(db, data, maps, order), t), KeyColumns(SessionSnapshot, t), RowsIn(data, t),
                    KeyOf(SessionSnapshot, t, norm, maps), again[t])
  {
    hide IsIdMap, KeyColumns, LookupKey, Merged;
    SameKeys(TableIn(Merged(db, data, maps, order), t), KeyColumns(SessionSnapshot, t), RowsIn(data, t),
             KeyOf(SessionSnapshot, t, norm, again), KeyOf(SessionSnapshot, t, norm, maps), again[t]);
  }

  /** All that the second run rewrites otherwise is a row's own id. */
  lemma RewrittenButIds(t: Table, rows: seq<Row>, a: IdMaps, b: IdMaps)
    requires SameCells(t, rows, a, b) && AllHaveIds(rows)
    ensures SameButIds(AllRewritten(SessionSnapshot, t, rows, a), AllRewritten(SessionSnapshot, t, rows, b))
  {
    hide NewCell;
    forall i | 0 <= i < |rows|
      ensures var x, y := Rewritten(SessionSnapshot, t, rows[i], a), Rewritten(SessionSnapshot, t, rows[i], b);
              "id" in y && y == x["id" := y["id"]]
    {
      assert rows[i] in rows && Has(rows[i], "id");
    }
  }

  /** The second run sends a reference where the first one does exactly when that row keeps its target row. */
  lemma NameAgreesIff(db: Database, data: Dataset, norm: Norm, maps: IdMaps, again: IdMaps, order: seq<Table>,
                      kind: Table, u: Uuid)
    requires TwoRuns(db, data, norm, maps, again, order) && kind in maps && kind in again && kind in order
    requires Coherent(db, data, norm, maps, kind) && ByName(kind) && AllHaveIds(RowsIn(data, kind))
    ensures Apply(MapFor(maps, kind), u) == Apply(MapFor(again, kind), u) <==>
            !LoserId(RowsIn(data, kind), MapFor(maps, kind), u)
  {
    RunsAreValid(db, data, norm, maps, again, order, kind);
    hide TwoRuns, Coherent, Runs.Valid, LoserId, AllRewritten, KeyColumns, LookupKey;
    SecondMapAgreesIff(RunsOf(db, data, norm, maps, again, kind), u);
  }

  /** Users and workspaces are in order for both runs. */
  ghost predicate NamesCoherent(db: Database, data: Dataset, norm: Norm, maps: IdMaps, again: IdMaps,
                                order: seq<Table>) {
    && TwoRuns(db, data, norm, maps, again, order)
    && forall kind :: kind in ["users", "workspaces"] ==>
         && kind in maps && kind in again && kind in order && Coherent(db, data, norm, maps, kind)
         && AllHaveIds(RowsIn(data, kind))
  }

  /** A cell is rewritten alike exactly when it names no such row. */
  lemma CellAgreesIff(db: Database, data: Dataset, norm: Norm, maps: IdMaps, again: IdMaps, order: seq<Table>, t: Table,
                      row: Row, c: Column)
    requires NamesCoherent(db, data, norm, maps, again, order) && c in row && c != "id"
    ensures AllHaveIds(RowsIn(data, "users")) && AllHaveIds(RowsIn(data, "workspaces"))
    ensures NewCell(SessionSnapshot, t, c, row[c], maps) == NewCell(SessionSnapshot, t, c, row[c], again) <==>
            !CellNamesLoser(data, maps, t, row, c)
  {
    hide TwoRuns, Coherent, LoserId, RefersTo, NewCell, MapFor;
    assert "users" in ["users", "workspaces"] && "workspaces" in ["users", "workspaces"];
    SameCellIff(t, c, row[c], maps, again);
    if Has(row, c) {
      NameAgreesIff(db, data, norm, maps, again, order, "users", At(row, c));
      NameAgreesIff(db, data, norm, maps, again, order, "workspaces", At(row, c));
    }
  }

  /** A cell is rewritten alike exactly when its user or workspace is sent to the same id. */
  lemma SameCellIff(t: Table, c: Column, v: Value, a: IdMaps, b: IdMaps)
    requires c != "id"
    ensures NewCell(SessionSnapshot, t, c, v, a) == NewCell(SessionSnapshot, t, c, v, b) <==>
            (v.Ref? ==>
              && (RefersTo(t, c, "users") ==> Apply(MapFor(a, "users"), v.id) == Apply(MapFor(b, "users"), v.id))
              && (RefersTo(t, c, "workspaces") ==>
                    Apply(MapFor(a, "workspaces"), v.id) == Apply(MapFor(b, "workspaces"), v.id)))
  {
    hide IsUserField, IsWorkspaceField, MapFor;
    NotBoth(SessionSnapshot, c);
    NotReferenceFields(SessionSnapshot);
    assert |"users"| != |"workspaces"|;
  }

  /** The second run leaves a table with a natural key as it is exactly when its late collisions are covered. */
  lemma KeyedTableSettled(db: Database, data: Dataset, norm: Norm, maps: IdMaps, again: IdMaps, order: seq<Table>,
                          t: Table)
    requires TwoRuns(db, data, norm, maps, again, order) && t in maps && t in again && t in order && t in data
    requires Coherent(db, data, norm, maps, t) && SameCells(t, data[t], maps, again)
    ensures AllHaveIds(data[t])
    ensures var table := TableIn(Merged(db, data, maps, order), t);
            FileMerged(SessionSnapshot, t, table, data[t], again) == table <==> Covered(data[t], MapFor(maps, t))
  {
    RunsAreValid(db, data, norm, maps, again, order, t);
    MergedTable(db, data, maps, order, t);
    assert AllHaveIds(data[t]);
    hide TwoRuns, Coherent, Merged, Runs.Valid, Covered, MergeAll, Rewritten, SameCells, SameButIds, MapFor;
    RewrittenButIds(t, data[t], maps, again);
    RewrittenHaveIds(SessionSnapshot, t, data[t], again);
    TwiceIsOnceIffCovered(RunsOf(db, data, norm, maps, again, t));
  }

  /** A row keeps its cells exactly when none of them names a row that loses its target row. */
  lemma RowAgreesIff(db: Database, data: Dataset, norm: Norm, maps: IdMaps, again: IdMaps, order: seq<Table>, t: Table,
                     row: Row)
    requires NamesCoherent(db, data, norm, maps, again, order) && t !in maps && t !in again && "id" in row
    ensures AllHaveIds(RowsIn(data, "users")) && AllHaveIds(RowsIn(data, "workspaces"))
    ensures Rewritten(SessionSnapshot, t, row, maps) == Rewritten(SessionSnapshot, t, row, again) <==>
            !NamesLoser(data, maps, t, row)
  {
    CellAgreesAll(db, data, norm, maps, again, order, t, row);
    assert NewCell(SessionSnapshot, t, "id", row["id"], maps) == NewCell(SessionSnapshot, t, "id", row["id"], again);
    hide NewCell, CellNamesLoser, NamesCoherent, Rewritten;
    SameRewritten(t, row, maps, again);
  }

  lemma SameRewritten(t: Table, row: Row, a: IdMaps, b: IdMaps)
    ensures Rewritten(SessionSnapshot, t, row, a) == Rewritten(SessionSnapshot, t, row, b) <==>
            forall c :: c in row ==>
              NewCell(SessionSnapshot, t, c, row[c], a) == NewCell(SessionSnapshot, t, c, row[c], b)
  {
    hide NewCell;
    var x, y := Rewritten(SessionSnapshot, t, row, a), Rewritten(SessionSnapshot, t, row, b);
    assert x == y <==> forall c :: c in row ==> x[c] == y[c];
  }

  lemma CellAgreesAll(db: Database, data: Dataset, norm: Norm, maps: IdMaps, again: IdMaps, order: seq<Table>, t: Table,
                      row: Row)
    requires NamesCoherent(db, data, norm, maps, again, order)
    ensures AllHaveIds(RowsIn(data, "users")) && AllHaveIds(RowsIn(data, "workspaces"))
    ensures forall c :: c in row && c != "id" ==>
      (NewCell(SessionSnapshot, t, c, row[c], maps) == NewCell(SessionSnapshot, t, c, row[c], again) <==>
       !CellNamesLoser(data, maps, t, row, c))
    ensures forall c :: CellNamesLoser(data, maps, t, row, c) ==> c in row && c != "id"
  {
    assert "users" in ["users", "workspaces"] && "workspaces" in ["users", "workspaces"];
    assert AllHaveIds(RowsIn(data, "users")) && AllHaveIds(RowsIn(data, "workspaces"));
    hide NamesCoherent, NewCell, RefersTo, LoserId;
    forall c | c in row && c != "id"
      ensures NewCell(SessionSnapshot, t, c, row[c], maps) == NewCell(SessionSnapshot, t, c, row[c], again) <==>
              !CellNamesLoser(data, maps, t, row, c)
    {
      CellAgreesIff(db, data, norm, maps, again, order, t, row, c);
    }
  }

  /** No later row has the same id. */
  ghost predicate IsLast(rows: seq<Row>, i: nat)
    requires AllHaveIds(rows)
  {
    i < |rows| && forall j :: i < j < |rows| ==> IdAt(rows, j) != IdAt(rows, i)
  }

  lemma LastAt(rows: seq<Row>, i: nat)
    requires AllHaveIds(rows) && IsLast(rows, i)
    ensures IdAt(rows, i) in IdsOf(rows) && LastWith(rows, IdAt(rows, i)) == rows[i]
  {
    hide LastWith;
    assert rows[i] in rows;
    var x := LastIndex(rows, IdAt(rows, i));
    assert IdAt(rows, x) == IdAt(rows, i);
  }

  /** Merging rewritten rows again changes nothing exactly when the rows that stay are rewritten alike. */
  lemma MergedAgainIff(m: ById, once: seq<Row>, twice: seq<Row>)
    requires AllHaveIds(once) && AllHaveIds(twice) && |once| == |twice|
    requires forall i :: 0 <= i < |once| ==> IdAt(once, i) == IdAt(twice, i)
    ensures MergeAll(MergeAll(m, once), twice) == MergeAll(m, once) <==>
            forall i: nat :: i < |once| && IsLast(once, i) ==> once[i] == twice[i]
  {
    hide MergeAll, LastWith, AllHaveIds, IdsOf;
    var after := MergeAll(m, once);
    MergeAllIs(m, once);
    MergeAllIs(after, twice);
    forall i: nat | i < |once| && IsLast(once, i)
      ensures IdAt(once, i) in IdsOf(once) && LastWith(once, IdAt(once, i)) == once[i]
      ensures IdAt(once, i) in IdsOf(twice) && LastWith(twice, IdAt(once, i)) == twice[i]
    {
      LastAt(once, i);
      LastAt(twice, i);
    }
    if forall i: nat :: i < |once| && IsLast(once, i) ==> once[i] == twice[i] {
      forall u | u in IdsOf(twice) ensures u in IdsOf(once) && LastWith(once, u) == LastWith(twice, u) {
        var x := LastIndex(twice, u);
        assert IdAt(twice, x) == u;
        assert IsLast(once, x);
      }
    }
  }

  /** A table without a natural key is settled exactly when no row that stays names one that loses its target row. */
  lemma PlainTableSettled(db: Database, data: Dataset, norm: Norm, maps: IdMaps, again: IdMaps, order: seq<Table>,
                          t: Table)
    requires NamesCoherent(db, data, norm, maps, again, order)
    requires t in order && t in data && t !in maps && t !in again && AllHaveIds(data[t])
    ensures AllHaveIds(RowsIn(data, "users")) && AllHaveIds(RowsIn(data, "workspaces"))
    ensures var table := TableIn(Merged(db, data, maps, order), t);
            FileMerged(SessionSnapshot, t, table, data[t], again) == table <==> NoneNamesLoser(data, maps, t)
  {
    MergedTable(db, data, maps, order, t);
    var rows, once := data[t], AllRewritten(SessionSnapshot, t, data[t], maps);
    var twice := AllRewritten(SessionSnapshot, t, rows, again);
    RewrittenHaveIds(SessionSnapshot, t, rows, maps);
    RewrittenHaveIds(SessionSnapshot, t, rows, again);
    NamesHaveIds(db, data, norm, maps, again, order);
    hide NamesCoherent, NewCell, MergeAll, NamesLoser, Merged;
    forall i | 0 <= i < |rows|
      ensures IdAt(once, i) == IdAt(rows, i) == IdAt(twice, i)
      ensures once[i] == twice[i] <==> !NamesLoser(data, maps, t, rows[i])
    {
      assert rows[i] in rows && once[i] in once && twice[i] in twice;
      UnmappedId(t, rows[i], maps);
      UnmappedId(t, rows[i], again);
      RowAgreesIff(db, data, norm, maps, again, order, t, rows[i]);
    }
    MergedAgainIff(db[t], once, twice);
    assert forall i: nat :: i < |rows| ==> (IsLast(once, i) <==> IsLast(rows, i));
  }

  lemma NamesHaveIds(db: Database, data: Dataset, norm: Norm, maps: IdMaps, again: IdMaps, order: seq<Table>)
    requires NamesCoherent(db, data, norm, maps, again, order)
    ensures AllHaveIds(RowsIn(data, "users")) && AllHaveIds(RowsIn(data, "workspaces"))
  {
    assert "users" in ["users", "workspaces"] && "workspaces" in ["users", "workspaces"];
  }

  /** No row of the table that stays names a user or workspace that loses its target row. */
  ghost predicate NoneNamesLoser(data: Dataset, maps: IdMaps, t: Table)
    requires AllHaveIds(RowsIn(data, "users")) && AllHaveIds(RowsIn(data, "workspaces")) && AllHaveIds(RowsIn(data, t))
  {
    forall i: nat :: i < |RowsIn(data, t)| && IsLast(RowsIn(data, t), i) ==>
      !NamesLoser(data, maps, t, RowsIn(data, t)[i])
  }

  lemma UnmappedId(t: Table, row: Row, maps: IdMaps)
    requires t !in maps && "id" in row
    ensures Rewritten(SessionSnapshot, t, row, maps)["id"] == row["id"]
  {
  }

  lemma MapTables(db: Database, data: Dataset, norm: Norm, maps: IdMaps)
    requires MapsFor(SessionSnapshot, db, data, norm, maps)
    ensures maps.Keys == Elems(KeyedTables(SessionSnapshot))
  {
    hide IsIdMap;
  }

  lemma StillLoadable(db: Database, data: Dataset, maps: IdMaps, order: seq<Table>)
    requires Loadable(db, data, order)
    ensures Loadable(Merged(db, data, maps, order), data, order)
  {
    hide FileMerged;
  }

  lemma MergedFixed(db: Database, data: Dataset, maps: IdMaps, order: seq<Table>)
    requires Loadable(db, data, order)
    ensures Merged(db, data, maps, order) == db <==>
            forall t :: t in order && t in data ==> FileMerged(SessionSnapshot, t, TableIn(db, t), data[t], maps)
                                                    == TableIn(db, t)
  {
    hide FileMerged;
    var merged := Merged(db, data, maps, order);
    assert merged == db <==> forall t :: t in db ==> merged[t] == db[t];
  }

  /**
   A second import builds its maps from the database the first one has left.  When no row of a
   table with a natural key refers to a user or workspace that loses its target row, it changes
   nothing exactly when in each such table every row that loses its target row to a later new one
   has its own id taken by a later matched row, and no row that stays in any other table refers to
   a user or workspace that loses its target row.
   */
  lemma ImportTwiceIsOnce(db: Database, data: Dataset, norm: Norm, maps: IdMaps, again: IdMaps, order: seq<Table>)
    requires TwoRuns(db, data, norm, maps, again, order)
    requires forall t :: t in KeyedTables(SessionSnapshot) ==> t in order && Coherent(db, data, norm, maps, t)
    requires forall t, row :: t in KeyedTables(SessionSnapshot) && row in RowsIn(data, t) ==>
      !NamesLoser(data, maps, t, row)
    ensures Merged(Merged(db, data, maps, order), data, again, order) == Merged(db, data, maps, order) <==>
            && (forall t :: t in KeyedTables(SessionSnapshot) ==> Covered(RowsIn(data, t), MapFor(maps, t)))
            && (forall t :: t in order && t in data && t !in KeyedTables(SessionSnapshot) ==>
                  NoneNamesLoser(data, maps, t))
  {
    hide FileMerged, Coherent, SameCells, Merged, MapsFor, Covered, NamesLoser, MapFor, NoneNamesLoser, NewCell;
    MapTables(db, data, norm, maps);
    MapTables(Merged(db, data, maps, order), data, norm, again);
    StillLoadable(db, data, maps, order);
    assert KeyedTables(SessionSnapshot)[0] == "users" && KeyedTables(SessionSnapshot)[1] == "workspaces";
    assert NamesCoherent(db, data, norm, maps, again, order);
    var after := Merged(db, data, maps, order);
    forall t | t in order && t in data
      ensures FileMerged(SessionSnapshot, t, TableIn(after, t), data[t], again) == TableIn(after, t) <==>
              if t in KeyedTables(SessionSnapshot) then Covered(RowsIn(data, t), MapFor(maps, t))
              else NoneNamesLoser(data, maps, t)
    {
      if t in maps {
        CellsAgree(db, data, norm, maps, again, order, t);
        KeyedTableSettled(db, data, norm, maps, again, order, t);
      } else {
        PlainTableSettled(db, data, norm, maps, again, order, t);
      }
    }
    forall t | t in KeyedTables(SessionSnapshot) && t !in data ensures Covered(RowsIn(data, t), MapFor(maps, t)) {
      NothingToCover(MapFor(maps, t));
    }
    MergedFixed(after, data, again, order);
  }

  lemma CellsAgree(db: Database, data: Dataset, norm: Norm, maps: IdMaps, again: IdMaps, order: seq<Table>, t: Table)
    requires NamesCoherent(db, data, norm, maps, again, order) && t in data
    requires AllHaveIds(RowsIn(data, "users")) && AllHaveIds(RowsIn(data, "workspaces"))
    requires forall row :: row in data[t] ==> !NamesLoser(data, maps, t, row)
    ensures SameCells(t, data[t], maps, again)
  {
    hide NamesCoherent, NewCell, CellNamesLoser;
    forall row, c | row in data[t] && c in row && c != "id"
      ensures NewCell(SessionSnapshot, t, c, row[c], maps) == NewCell(SessionSnapshot, t, c, row[c], again)
    {
      CellAgreesAll(db, data, norm, maps, again, order, t, row);
    }
  }

  lemma NothingToCover(mapping: IdMap)
    ensures Covered([], mapping)
  {
  }
}
