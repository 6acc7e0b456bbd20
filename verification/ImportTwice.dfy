/** Importing one table of a snapshot twice: when the second run changes nothing. */
module ImportTwice {
  import opened Relational
  import opened NaturalKeys

  /** Two runs over one table; the second one looks its ids up in what the first one left. */
  datatype Runs = Runs(m: ById, columns: seq<Column>, rows: seq<Row>, key: Row -> seq<Value>,
                       first: IdMap, once: seq<Row>, second: IdMap, twice: seq<Row>) {
    ghost predicate Valid() {
      && KeysUnique(m, columns) && SnapshotUnique(rows, key)
      && IsIdMap(m, columns, rows, key, first) && Rewrites(columns, rows, key, first, once)
      && IsIdMap(MergeAll(m, once), columns, rows, key, second) && Rewrites(columns, rows, key, second, twice)
    }
  }

  /** The second run rewrites everything but the row's own id as the first one did. */
  ghost predicate SameButIds(once: seq<Row>, twice: seq<Row>) {
    |once| == |twice| && forall i :: 0 <= i < |once| ==> "id" in twice[i] && twice[i] == once[i]["id" := twice[i]["id"]]
  }

  function IdAt(rows: seq<Row>, i: int): Uuid
    requires AllHaveIds(rows) && 0 <= i < |rows|
  {
    assert rows[i] in rows;
    At(rows[i], "id")
  }

  /** A late collision: row `i`, new to the target, comes after row `j`, which is matched to the id of `i`. */
  ghost predicate Late(rows: seq<Row>, mapping: IdMap, i: int, j: int)
    requires AllHaveIds(rows)
  {
    && 0 <= j < i < |rows| && IdAt(rows, i) !in mapping
    && IdAt(rows, j) in mapping && mapping[IdAt(rows, j)] == IdAt(rows, i)
  }

  /** Row `j` loses the target row it is matched to. */
  ghost predicate Loses(rows: seq<Row>, mapping: IdMap, j: int)
    requires AllHaveIds(rows)
  {
    exists i :: Late(rows, mapping, i, j)
  }

  /** A later row is matched to the id of row `j`. */
  ghost predicate Taken(rows: seq<Row>, mapping: IdMap, j: int)
    requires AllHaveIds(rows) && 0 <= j < |rows|
  {
    exists k :: j < k < |rows| && IdAt(rows, k) in mapping && mapping[IdAt(rows, k)] == IdAt(rows, j)
  }

  ghost predicate Covered(rows: seq<Row>, mapping: IdMap)
    requires AllHaveIds(rows)
  {
    forall j :: 0 <= j < |rows| && Loses(rows, mapping, j) ==> Taken(rows, mapping, j)
  }

  // ------------------------------------------------------- the ids of both runs

  /** Ids are distinct, new ones follow the mapping, and two matched rows are matched to two ids. */
  ghost predicate FirstIds(rows: seq<Row>, mapping: IdMap, once: seq<Row>) {
    && AllHaveIds(rows) && AllHaveIds(once) && |once| == |rows|
    && (forall i, j :: 0 <= i < |rows| && 0 <= j < |rows| && IdAt(rows, i) == IdAt(rows, j) ==> i == j)
    && (forall i :: 0 <= i < |rows| ==> IdAt(once, i) == Apply(mapping, IdAt(rows, i)))
    && (forall i, j :: 0 <= i < |rows| && 0 <= j < |rows| && IdAt(once, i) == IdAt(once, j) ==>
          i == j || IdAt(rows, i) !in mapping || IdAt(rows, j) !in mapping)
  }

  lemma FirstIdsOf(r: Runs)
    requires r.Valid()
    ensures FirstIds(r.rows, r.first, r.once)
  {
    hide KeyAt, Complete, KeysUnique, MergeAll, SameButIds;
    forall i, j | 0 <= i < |r.rows| && 0 <= j < |r.rows| && IdAt(r.rows, i) in r.first && IdAt(r.rows, j) in r.first
                  && IdAt(r.once, i) == IdAt(r.once, j)
      ensures i == j
    {
      SameKeyFound(r.m, r.columns, r.rows, r.key, r.first, i);
      SameKeyFound(r.m, r.columns, r.rows, r.key, r.first, j);
    }
  }

  /** The row behind an entry of the table the first run leaves. */
  lemma KeyLeft(r: Runs, w: Uuid, i: int)
    requires r.Valid() && 0 <= i < |r.rows| && w in MergeAll(r.m, r.once)
    requires Complete(r.key(r.rows[i])) && KeyAt(r.columns, MergeAll(r.m, r.once)[w]) == r.key(r.rows[i])
    ensures AllHaveIds(r.once) && w == IdAt(r.once, i) && w in IdsOf(r.once) && LastWith(r.once, w) == r.once[i]
  {
    hide KeyAt, Complete, SameButIds;
    MergeAllIs(r.m, r.once);
    assert r.once[i] in r.once;
    if w in IdsOf(r.once) {
      var k := SourceOf(r.columns, r.rows, r.key, r.first, r.once, r.once, w);
      assert k == i;
    } else {
      ExistingIsOverwritten(r.m, r.columns, r.rows, r.key, r.first, r.once, i, w);
    }
  }

  /** A row that is the last one under its new id is found there again. */
  lemma KeptIsFoundAgain(r: Runs, i: int)
    requires r.Valid() && 0 <= i < |r.rows|
    requires AllHaveIds(r.once) && IdAt(r.once, i) in IdsOf(r.once) && LastWith(r.once, IdAt(r.once, i)) == r.once[i]
    ensures AllHaveIds(r.twice) && IdAt(r.twice, i) == IdAt(r.once, i)
  {
    hide KeyAt, Complete, KeysUnique, SameButIds;
    var u := At(r.rows[i], "id");
    MergeAllIs(r.m, r.once);
    assert r.rows[i] in r.rows;
    if u in r.second {
      SameKeyFound(MergeAll(r.m, r.once), r.columns, r.rows, r.key, r.second, i);
      KeyLeft(r, r.second[u], i);
    } else if u in r.first {
      SameKeyFound(r.m, r.columns, r.rows, r.key, r.first, i);
    }
  }

  /** A row that another one replaced has left its key nowhere, so the second run does not find it. */
  lemma LostIsNotFound(r: Runs, i: int)
    requires r.Valid() && 0 <= i < |r.rows|
    requires AllHaveIds(r.once) && IdAt(r.once, i) in IdsOf(r.once) && LastWith(r.once, IdAt(r.once, i)) != r.once[i]
    ensures At(r.rows[i], "id") !in r.second
  {
    hide KeyAt, Complete, KeysUnique, SameButIds;
    if At(r.rows[i], "id") in r.second {
      SameKeyFound(MergeAll(r.m, r.once), r.columns, r.rows, r.key, r.second, i);
      KeyLeft(r, r.second[At(r.rows[i], "id")], i);
    }
  }

  /** In the second run a row that lost its target row goes under its own id, every other one where it went before. */
  ghost predicate SecondIds(rows: seq<Row>, mapping: IdMap, once: seq<Row>, twice: seq<Row>) {
    && FirstIds(rows, mapping, once) && AllHaveIds(twice) && |twice| == |once|
    && forall j :: 0 <= j < |rows| ==>
         IdAt(twice, j) == if Loses(rows, mapping, j) then IdAt(rows, j) else IdAt(once, j)
  }

  /** Of two rows under one new id, the one matched, if it comes first, loses its target row. */
  lemma LoserIsMatched(rows: seq<Row>, mapping: IdMap, once: seq<Row>, j: int, x: int)
    requires FirstIds(rows, mapping, once) && 0 <= j < x < |rows| && IdAt(once, x) == IdAt(once, j)
    ensures Loses(rows, mapping, j) <==> IdAt(rows, j) in mapping
  {
    if IdAt(rows, j) in mapping { assert Late(rows, mapping, x, j); }
  }

  lemma SecondIdsOf(r: Runs)
    requires r.Valid()
    ensures SecondIds(r.rows, r.first, r.once, r.twice)
  {
    hide KeyAt, Complete, KeysUnique, SameButIds, IsIdMap, MergeAll, SnapshotUnique, Loses;
    FirstIdsOf(r);
    forall j | 0 <= j < |r.rows|
      ensures IdAt(r.twice, j) == if Loses(r.rows, r.first, j) then IdAt(r.rows, j) else IdAt(r.once, j)
    {
      SecondIdOf(r, j);
    }
  }

  lemma SecondIdOf(r: Runs, j: int)
    requires r.Valid() && FirstIds(r.rows, r.first, r.once) && 0 <= j < |r.rows|
    ensures AllHaveIds(r.twice)
    ensures IdAt(r.twice, j) == if Loses(r.rows, r.first, j) then IdAt(r.rows, j) else IdAt(r.once, j)
  {
    hide KeyAt, Complete, KeysUnique, SameButIds, IsIdMap, MergeAll, SnapshotUnique, FirstIds;
    assert r.once[j] in r.once;
    var x := LastIndex(r.once, IdAt(r.once, j));
    if x == j {
      KeptIsFoundAgain(r, j);
      OnlyLastWriters(r.rows, r.first, r.once, j);
    } else {
      LoserIsMatched(r.rows, r.first, r.once, j, x);
      assert r.once[x] != r.once[j] by { Different(r, j, x); }
      LostIsNotFound(r, j);
    }
  }

  lemma OnlyLastWriters(rows: seq<Row>, mapping: IdMap, once: seq<Row>, j: int)
    requires FirstIds(rows, mapping, once) && 0 <= j < |rows|
    requires forall y :: j < y < |rows| ==> IdAt(once, y) != IdAt(once, j)
    ensures !Loses(rows, mapping, j)
  {
  }

  lemma Different(r: Runs, i: int, x: int)
    requires r.Valid() && FirstIds(r.rows, r.first, r.once) && 0 <= i < x < |r.rows|
    requires IdAt(r.once, i) == IdAt(r.once, x)
    ensures r.once[i] != r.once[x]
  {
    hide KeyAt, KeysUnique, SameButIds, MergeAll;
    if IdAt(r.rows, i) in r.first {
      SameKeyFound(r.m, r.columns, r.rows, r.key, r.first, i);
    } else if IdAt(r.rows, x) in r.first {
      SameKeyFound(r.m, r.columns, r.rows, r.key, r.first, x);
    }
  }

  // ------------------------------------------------------- the second run

  /** The id is that of a row that loses its target row. */
  ghost predicate LoserId(rows: seq<Row>, mapping: IdMap, u: Uuid)
    requires AllHaveIds(rows)
  {
    exists j :: 0 <= j < |rows| && Loses(rows, mapping, j) && IdAt(rows, j) == u
  }

  /** The second run sends every id where the first one did, and only the rows that lose their target rows elsewhere. */
  lemma SecondMapAgreesIff(r: Runs, u: Uuid)
    requires r.Valid() && AllHaveIds(r.rows)
    ensures Apply(r.second, u) == Apply(r.first, u) <==> !LoserId(r.rows, r.first, u)
  {
    hide KeyAt, Complete, KeysUnique, SameButIds, MergeAll, Loses;
    if i :| 0 <= i < |r.rows| && At(r.rows[i], "id") == u {
      SecondIdsOf(r);
      assert IdAt(r.rows, i) == u && IdAt(r.once, i) == Apply(r.first, u) && IdAt(r.twice, i) == Apply(r.second, u);
      if Loses(r.rows, r.first, i) { LoserMoves(r.rows, r.first, r.once, i); }
    } else {
      assert u !in r.first && u !in r.second;
    }
  }

  /** A row that loses its target row was not matched to its own id. */
  lemma LoserMoves(rows: seq<Row>, mapping: IdMap, once: seq<Row>, j: int)
    requires FirstIds(rows, mapping, once) && 0 <= j < |rows| && Loses(rows, mapping, j)
    ensures IdAt(once, j) != IdAt(rows, j)
  {
    var i :| Late(rows, mapping, i, j);
  }

  lemma TakerKeeps(rows: seq<Row>, mapping: IdMap, once: seq<Row>, twice: seq<Row>, j: int, k: int)
    requires SecondIds(rows, mapping, once, twice) && 0 <= j < |rows| && 0 <= k < |rows|
    requires IdAt(rows, j) in mapping && IdAt(rows, k) in mapping && mapping[IdAt(rows, k)] == IdAt(rows, j)
    ensures IdAt(twice, k) == IdAt(rows, j)
  {
    assert !Loses(rows, mapping, k);
  }

  lemma CoveredStays(m: ById, rows: seq<Row>, mapping: IdMap, once: seq<Row>, twice: seq<Row>)
    requires SecondIds(rows, mapping, once, twice) && SameButIds(once, twice) && Covered(rows, mapping)
    ensures MergeAll(MergeAll(m, once), twice) == MergeAll(m, once)
  {
    assert AllHaveIds(once) && AllHaveIds(twice);
    hide SecondIds, SameButIds, Covered, AllHaveIds, IdsOf, LastWith, MergeAll;
    forall w | w in IdsOf(twice) ensures w in IdsOf(once) && LastWith(once, w) == LastWith(twice, w) {
      SameLast(rows, mapping, once, twice, w);
    }
    SameEntries(m, once, twice);
  }

  lemma SameEntries(m: ById, once: seq<Row>, twice: seq<Row>)
    requires AllHaveIds(once) && AllHaveIds(twice)
    requires forall w :: w in IdsOf(twice) ==> w in IdsOf(once) && LastWith(once, w) == LastWith(twice, w)
    ensures MergeAll(MergeAll(m, once), twice) == MergeAll(m, once)
  {
    hide AllHaveIds, IdsOf, LastWith, MergeAll;
    MergeAllIs(m, once);
    MergeAllIs(MergeAll(m, once), twice);
  }

  lemma SameLast(rows: seq<Row>, mapping: IdMap, once: seq<Row>, twice: seq<Row>, w: Uuid)
    requires SecondIds(rows, mapping, once, twice) && SameButIds(once, twice) && Covered(rows, mapping)
    requires w in IdsOf(twice)
    ensures w in IdsOf(once) && LastWith(once, w) == LastWith(twice, w)
  {
    hide Loses, Covered, IdsOf, LastWith;
    var x := LastIndex(twice, w);
    LastIsNoLoser(rows, mapping, once, twice, x);
    assert IdAt(once, x) == w;
    assert w in IdsOf(once) by { IdIn(once, x); }
    var y := LastIndex(once, w);
    if y > x { LaterStays(rows, mapping, once, twice, x, y); }
    assert twice[x] == once[x]["id" := once[x]["id"]] == once[x];
  }

  lemma IdIn(rows: seq<Row>, i: int)
    requires AllHaveIds(rows) && 0 <= i < |rows|
    ensures IdAt(rows, i) in IdsOf(rows)
  {
    assert rows[i] in rows;
  }

  /** The last row of the second run under an id has not lost its target row. */
  lemma LastIsNoLoser(rows: seq<Row>, mapping: IdMap, once: seq<Row>, twice: seq<Row>, x: int)
    requires SecondIds(rows, mapping, once, twice) && Covered(rows, mapping) && 0 <= x < |rows|
    requires forall y :: x < y < |rows| ==> IdAt(twice, y) != IdAt(twice, x)
    ensures !Loses(rows, mapping, x)
  {
    if Loses(rows, mapping, x) {
      var k :| x < k < |rows| && IdAt(rows, k) in mapping && mapping[IdAt(rows, k)] == IdAt(rows, x);
      TakerKeeps(rows, mapping, once, twice, x, k);
    }
  }

  /** After a row that keeps its target row, no row under the same new id loses it either. */
  lemma LaterStays(rows: seq<Row>, mapping: IdMap, once: seq<Row>, twice: seq<Row>, x: int, y: int)
    requires SecondIds(rows, mapping, once, twice) && 0 <= x < y < |rows| && !Loses(rows, mapping, x)
    requires IdAt(once, x) == IdAt(once, y)
    ensures IdAt(twice, y) == IdAt(twice, x)
  {
    LoserIsMatched(rows, mapping, once, x, y);
  }

  lemma UncoveredChanges(r: Runs, j: int)
    requires r.Valid() && SameButIds(r.once, r.twice) && 0 <= j < |r.rows| && AllHaveIds(r.rows)
    requires Loses(r.rows, r.first, j) && !Taken(r.rows, r.first, j)
    ensures MergeAll(MergeAll(r.m, r.once), r.twice) != MergeAll(r.m, r.once)
  {
    hide KeyAt, Complete, KeysUnique, IsIdMap, SnapshotUnique, SameButIds;
    SecondIdsOf(r);
    var after, u := MergeAll(r.m, r.once), IdAt(r.rows, j);
    assert r.twice[j] in r.twice && IdAt(r.twice, j) == u;
    MergeAllIs(after, r.twice);
    var x := LastIndex(r.twice, u);
    if x != j { NoOtherTaker(r.rows, r.first, r.once, r.twice, j, x); }
    assert MergeAll(after, r.twice)[u] == r.twice[j];
    LostKeyIsGone(r, j, u);
  }

  lemma NoOtherTaker(rows: seq<Row>, mapping: IdMap, once: seq<Row>, twice: seq<Row>, j: int, x: int)
    requires SecondIds(rows, mapping, once, twice) && 0 <= j < x < |rows| && IdAt(twice, x) == IdAt(rows, j)
    ensures Taken(rows, mapping, j)
  {
  }

  /** After the first run no row of the table is the one that lost its target row. */
  lemma LostKeyIsGone(r: Runs, j: int, w: Uuid)
    requires r.Valid() && SameButIds(r.once, r.twice) && 0 <= j < |r.rows|
    requires AllHaveIds(r.rows) && Loses(r.rows, r.first, j)
    ensures w in MergeAll(r.m, r.once) ==> MergeAll(r.m, r.once)[w] != r.twice[j]
  {
    hide KeysUnique, SameButIds, KeyAt;
    FirstIdsOf(r);
    SameKeyFound(r.m, r.columns, r.rows, r.key, r.first, j);
    if w in MergeAll(r.m, r.once) && MergeAll(r.m, r.once)[w] == r.twice[j] {
      KeyLeft(r, w, j);
      var i :| Late(r.rows, r.first, i, j);
      var x := LastIndex(r.once, w);
      assert x >= i;
      Different(r, j, x);
    }
  }

  /** Importing a table's rows twice equals importing them once exactly when every late collision is covered. */
  lemma TwiceIsOnceIffCovered(r: Runs)
    requires r.Valid() && SameButIds(r.once, r.twice)
    ensures AllHaveIds(r.rows)
    ensures MergeAll(MergeAll(r.m, r.once), r.twice) == MergeAll(r.m, r.once) <==> Covered(r.rows, r.first)
  {
    hide KeyAt, Complete, KeysUnique, IsIdMap, Loses, Taken, MergeAll;
    SecondIdsOf(r);
    if Covered(r.rows, r.first) {
      CoveredStays(r.m, r.rows, r.first, r.once, r.twice);
    } else {
      var j :| 0 <= j < |r.rows| && Loses(r.rows, r.first, j) && !Taken(r.rows, r.first, j);
      UncoveredChanges(r, j);
    }
  }
}
