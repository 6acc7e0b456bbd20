/** How deep the pass loop reaches, in chains of missing parents; and that it leaves no dangling reference. */
module ImportChains {
  import opened Relational
  import opened PassImport

  /** Of a present table the snapshot has a row with the key. */
  ghost predicate Importable(x: Input, key: Key)
    requires x.Valid()
  {
    key.0 in x.present && key.0 in x.dataset && HasId(x.dataset[key.0], key.1)
  }

  /** Some snapshot row with the one key references the other one, and is another row. */
  ghost predicate Needs(x: Input, key: Key, parent: Key)
    requires x.Valid()
  {
    && key != parent && key.0 in x.present && key.0 in x.dataset
    && exists row: Row, fk :: row in x.dataset[key.0] && Has(row, "id") && At(row, "id") == key.1
                           && fk in x.schema[key.0].fks && Has(row, fk.column)
                           && parent == (fk.parent, At(row, fk.column))
  }

  /** Each key is missing from the database and needs the next one. */
  ghost predicate Chain(x: Input, p: seq<Key>)
    requires x.Valid()
  {
    && p != [] && (forall k :: 0 <= k < |p| ==> p[k] !in Keys(x.start))
    && forall k :: 0 <= k < |p| - 1 ==> Needs(x, p[k], p[k + 1])
  }

  /** Every chain of missing keys from the key has at most `k` of them and ends in one the snapshot can supply. */
  ghost predicate ChainsWithin(x: Input, key: Key, k: nat)
    requires x.Valid()
  {
    forall p :: Chain(x, p) && p[0] == key ==> |p| <= k && Importable(x, p[|p| - 1])
  }

  /** No id repeats in a table of the snapshot. */
  ghost predicate KeyedSnapshot(x: Input) {
    forall t :: t in x.dataset ==> Keyed(x.dataset[t])
  }

  lemma PresentHasNoChain(x: Input, key: Key, k: nat)
    requires x.Valid() && key in Keys(x.start)
    ensures ChainsWithin(x, key, k)
  {
  }

  lemma ShorterChains(x: Input, key: Key, parent: Key, k: nat)
    requires x.Valid() && k > 0 && key !in Keys(x.start) && Needs(x, key, parent) && ChainsWithin(x, key, k)
    ensures ChainsWithin(x, parent, k - 1)
  {
    hide Keys, Needs, Importable;
    forall p | Chain(x, p) && p[0] == parent ensures |p| <= k - 1 && Importable(x, p[|p| - 1]) {
      assert Chain(x, [key] + p);
    }
  }

  lemma LongerChains(x: Input, key: Key, k: nat)
    requires x.Valid() && k > 0 && Importable(x, key)
    requires forall parent :: Needs(x, key, parent) ==> ChainsWithin(x, parent, k - 1)
    ensures ChainsWithin(x, key, k)
  {
    hide Keys, Needs, Importable;
    forall p | Chain(x, p) && p[0] == key ensures |p| <= k && Importable(x, p[|p| - 1]) {
      if |p| > 1 {
        assert Needs(x, key, p[1]);
        assert Chain(x, p[1..]);
      }
    }
  }

  /** A round adds a key exactly when the snapshot has it and all that it needs is there. */
  lemma OneRound(x: Input, have: set<Key>, key: Key)
    requires x.Valid() && KeyedSnapshot(x) && key !in have
    ensures key in Next(x, have) <==> Importable(x, key) && forall parent :: Needs(x, key, parent) ==> parent in have
  {
    hide Keyed;
    if key in Next(x, have) {
      var row: Row :| key.0 in x.dataset && row in x.dataset[key.0] && ParentsIn(x.schema, have, key.0, row)
                      && At(row, "id") == key.1;
      forall parent | Needs(x, key, parent) ensures parent in have {
        var same: Row, fk :| same in x.dataset[key.0] && Has(same, "id") && At(same, "id") == key.1
                             && fk in x.schema[key.0].fks && Has(same, fk.column)
                             && parent == (fk.parent, At(same, fk.column));
        KeyDetermines(x.dataset[key.0], row, same);
      }
    }
    if Importable(x, key) && forall parent :: Needs(x, key, parent) ==> parent in have {
      var row: Row :| row in x.dataset[key.0] && Has(row, "id") && At(row, "id") == key.1;
      forall fk | fk in x.schema[key.0].fks && Has(row, fk.column)
        ensures (fk.parent, At(row, fk.column)) in have + {key}
      {
        assert (fk.parent, At(row, fk.column)) != key ==> Needs(x, key, (fk.parent, At(row, fk.column)));
      }
    }
  }

  lemma AloneIsAChain(x: Input, key: Key, k: nat)
    requires x.Valid() && key !in Keys(x.start) && ChainsWithin(x, key, k)
    ensures k > 0 && Importable(x, key)
  {
    assert Chain(x, [key]);
  }

  /**
   After `k` rounds a key is available exactly when every chain of missing keys that starts at it
   has at most `k` members and ends in a row the snapshot has.
   */
  lemma {:induction false} LevelBoundsChains(x: Input, key: Key, k: nat)
    requires x.Valid() && KeyedSnapshot(x)
    ensures key in Level(x, k) <==> ChainsWithin(x, key, k)
    decreases k
  {
    hide Needs, Importable, ChainsWithin, KeyedSnapshot, Next;
    if key in Keys(x.start) {
      PresentHasNoChain(x, key, k);
      LevelsGrow(x, 0, k);
    } else if k == 0 {
      if ChainsWithin(x, key, 0) { AloneIsAChain(x, key, 0); }
    } else {
      LevelBoundsChains(x, key, k - 1);
      if key in Level(x, k - 1) {
        LevelsGrow(x, k - 1, k);
        LongerBound(x, key, k);
      } else {
        OneRound(x, Level(x, k - 1), key);
        if ChainsWithin(x, key, k) { AloneIsAChain(x, key, k); }
        forall parent | Needs(x, key, parent) && ChainsWithin(x, key, k) ensures parent in Level(x, k - 1) {
          ShorterChains(x, key, parent, k);
          LevelBoundsChains(x, parent, k - 1);
        }
        if key in Level(x, k) {
          forall parent | Needs(x, key, parent) ensures ChainsWithin(x, parent, k - 1) {
            LevelBoundsChains(x, parent, k - 1);
          }
          LongerChains(x, key, k);
        }
      }
    }
  }

  lemma LongerBound(x: Input, key: Key, k: nat)
    requires x.Valid() && k > 0 && ChainsWithin(x, key, k - 1)
    ensures ChainsWithin(x, key, k)
  {
    hide Chain, Importable;
  }

  // ------------------------------------------------------- references

  lemma {:induction false} UpsertedFrom(rows: seq<Row>, more: seq<Row>)
    ensures forall r :: r in UpsertAll(rows, more) ==> r in rows || r in more
  {
    hide Upsert;
    if more != [] {
      var init, last := more[..|more| - 1], more[|more| - 1];
      UpsertedFrom(rows, init);
      if Has(last, "id") { UpsertIds(UpsertAll(rows, init), last); }
    }
  }

  lemma AvailableResolves(schema: Schema, db: Store, t: Table, row: Row)
    requires t in schema && ParentsIn(schema, Keys(db), t, row) && (t, At(row, "id")) in Keys(db)
    ensures RowResolves(schema, db, t, row)
  {
    forall fk | fk in schema[t].fks && Has(row, fk.column) ensures Resolves(db, row, fk) {
      assert (fk.parent, At(row, fk.column)) in Keys(db);
      assert At(row, fk.column) in IdsOf(db[fk.parent]);
    }
  }

  lemma MoreKeysKeepIds(a: Store, b: Store)
    requires Keys(a) <= Keys(b)
    ensures IdsKept(a, b)
  {
    forall t, u | t in a && HasId(a[t], u) ensures t in b && HasId(b[t], u) {
      assert u in IdsOf(a[t]) && (t, u) in Keys(a);
      assert u in IdsOf(b[t]);
    }
  }

  /** A database without dangling references has none after any number of passes. */
  lemma PassesKeepReferences(x: Input, db: Store, pending: Rows, imported: map<Table, nat>, done: Rows, depth: nat)
    requires x.Valid() && Invariant(x, db, pending, imported, done, depth) && NoDangling(x.schema, x.start)
    ensures NoDangling(x.schema, db)
  {
    hide Level, Keys, UpsertAll, RowResolves, ParentsIn, Counted;
    MoreKeysKeepIds(x.start, db);
    forall t, row | t in db && row in db[t] ensures RowResolves(x.schema, db, t, row) {
      var more := if t in done then done[t] else [];
      UpsertedFrom(x.start[t], more);
      if row in more {
        DoneResolves(x, db, pending, imported, done, depth, t, row);
      } else {
        ResolvesIsMonotone(x.schema, x.start, db, t, row);
      }
    }
  }

  lemma DoneResolves(x: Input, db: Store, pending: Rows, imported: map<Table, nat>, done: Rows, depth: nat,
                     t: Table, row: Row)
    requires x.Valid() && Invariant(x, db, pending, imported, done, depth) && t in done && row in done[t]
    ensures RowResolves(x.schema, db, t, row)
  {
    hide Level, Keys, UpsertAll, RowResolves, Holds;
    assert Counted(x.dataset[t], pending[t], imported[t], done[t], t in x.present);
    assert ParentsIn(x.schema, Keys(db), t, row);
    assert (t, At(row, "id")) in DoneKeys(done);
    AvailableResolves(x.schema, db, t, row);
  }
}
