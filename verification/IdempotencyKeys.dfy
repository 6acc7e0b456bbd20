/** Idempotency keys, unique within a workspace, stay so when the rows of a session are cloned. */
module IdempotencyKeys {
  import opened Relational
  import opened Remap
  import opened Cloner
  import opened CloneRun

  function KeyCell(row: Row): Value {
    if "idempotency_key" in row then row["idempotency_key"] else Null
  }

  function Workspace(row: Row): Value {
    if "workspace_id" in row then row["workspace_id"] else Null
  }

  /** The two rows claim the same idempotency key in the same workspace. */
  predicate Clash(a: Row, b: Row) {
    && KeyCell(a).Text? && KeyCell(a).tokens != [] && KeyCell(a) == KeyCell(b)
    && Workspace(a) == Workspace(b)
  }

  ghost predicate NoClash(rows: seq<Row>) {
    forall i, j :: 0 <= i < j < |rows| ==> !Clash(rows[i], rows[j])
  }

  predicate NoTarget(rs: Items, u: Uuid) {
    forall r :: r in rs ==> r.1 != u
  }

  /** The ids put in place of others occur in no key and as no workspace yet, nor does the clone's mark. */
  ghost predicate NewIdsUnused(rs: Items, target: Uuid, row: Row) {
    && (forall u :: Occurs(u, KeyCell(row)) || Occurs(u, Workspace(row)) ==> NoTarget(rs, u))
    && (KeyCell(row).Text? ==> Short(target) !in KeyCell(row).tokens)
  }

  /** The clone keeps its workspace, renamed, and marks its key. */
  lemma MarkedKey(t: Table, row: Row, rs: Items, target: Uuid, suffix: seq<Token>)
    requires t in WORKSPACE_UNIQUE_IDEMPOTENCY_TABLES
    ensures var r := ClonedRow(t, row, rs, target, suffix);
            && Workspace(r) == Remapped(Workspace(row), rs)
            && KeyCell(r) == if KeyCell(row).Text? && Remapped(KeyCell(row), rs).tokens != []
                             then Text(Remapped(KeyCell(row), rs).tokens + Chars("::clone::") + [Short(target)])
                             else Remapped(KeyCell(row), rs)
  {
    NotSessions(t);
    IdIsRemappedAnyway(row, rs);
    NamesOfColumns();
    assert ClonedRow(t, row, rs, target, suffix)
        == WithIdempotencyKey(t, target, WithSession(target, RemappedRow(row, rs))) by {
      NothingElseIsSet(t, row, rs, target, suffix);
    }
    hide ClonedRow, Chars, IsKey, Mapped;
  }

  lemma NamesOfColumns()
    ensures "idempotency_key" != "session_id" && "workspace_id" != "session_id" && "workspace_id" != "idempotency_key"
  {
    assert |"idempotency_key"| == 15 && |"session_id"| == 10 && |"workspace_id"| == 12;
  }

  lemma NothingElseIsSet(t: Table, row: Row, rs: Items, target: Uuid, suffix: seq<Token>)
    requires t != "sessions" && SelfFields(t) == {} && t !in SELF_REFERENCE_FIELDS
    ensures ClonedRow(t, row, rs, target, suffix)
         == WithIdempotencyKey(t, target, WithSession(target, RemappedRow(row, rs)))
  {
    IdIsRemappedAnyway(row, rs);
    hide WithIdempotencyKey, WithSession, RemappedRow, SELF_REFERENCE_FIELDS, WithId, SelfFields;
    var rewritten := WithIdempotencyKey(t, target, WithSession(target, RemappedRow(row, rs)));
    assert WithNulls({}, rewritten) == rewritten;
    assert Patch(t, row, rs) == map[];
  }

  lemma MappedApart(rs: Items, u: Uuid, v: Uuid)
    requires DistinctKeys(rs) && NoTarget(rs, u) && NoTarget(rs, v)
    requires forall a, b :: a in rs && b in rs && a.1 == b.1 ==> a == b
    requires Mapped(rs, u) == Mapped(rs, v)
    ensures u == v
  {
    hide Mapped;
    if a :| a in rs && a.0 == u {
      MappedByMember(rs, a);
      if b :| b in rs && b.0 == v { MappedByMember(rs, b); } else { MappedOther(rs, v); }
    } else {
      MappedOther(rs, u);
      if b :| b in rs && b.0 == v { MappedByMember(rs, b); } else { MappedOther(rs, v); }
    }
  }

  /** What an id ends as when the items are applied in turn is the id itself or a target. */
  lemma {:induction false} InTurnIsTarget(rs: Items, u: Uuid)
    ensures InTurn(rs, u) == u || exists r :: r in rs && r.1 == InTurn(rs, u)
    decreases |rs|
  {
    if rs != [] {
      var init := rs[..|rs| - 1];
      assert rs[|rs| - 1] in rs && forall r :: r in init ==> r in rs;
      InTurnIsTarget(init, u);
    }
  }

  /** However often ids are rewritten, those that are no target end apart. */
  lemma {:induction false} InTurnApart(rs: Items, u: Uuid, v: Uuid)
    requires DistinctKeys(rs) && NoTarget(rs, u) && NoTarget(rs, v)
    requires forall a, b :: a in rs && b in rs && a.1 == b.1 ==> a == b
    requires InTurn(rs, u) == InTurn(rs, v)
    ensures u == v
    decreases |rs|
  {
    if rs != [] {
      var init, last := rs[..|rs| - 1], rs[|rs| - 1];
      assert last in rs && forall r :: r in init ==> r in rs;
      assert last !in init by { assert forall k :: 0 <= k < |init| ==> rs[k].0 != last.0; }
      InTurnIsTarget(init, u);
      InTurnIsTarget(init, v);
      InTurnApart(init, u, v);
    }
  }

  /** The replacements keep values apart that hold none of the new ids. */
  lemma {:induction false} RemapKeepsApart(a: Value, b: Value, rs: Items)
    requires DistinctKeys(rs) && (forall x, y :: x in rs && y in rs && x.1 == y.1 ==> x == y)
    requires forall u :: Occurs(u, a) || Occurs(u, b) ==> NoTarget(rs, u)
    requires Remapped(a, rs) == Remapped(b, rs)
    ensures a == b
    decreases a
  {
    hide Mapped, InTurn, DistinctKeys, NoTarget;
    var x, y := Remapped(a, rs), Remapped(b, rs);
    match a
    case Ref(u) =>
      assert Occurs(u, a) && Occurs(b.id, b);
      MappedApart(rs, u, b.id);
    case Text(tokens) => TextsApart(tokens, b.tokens, rs);
    case Dict(entries) =>
      forall i | 0 <= i < |entries| ensures entries[i] == b.entries[i] {
        assert x.entries[i] == y.entries[i];
        RemapKeepsApart(entries[i].1, b.entries[i].1, rs);
      }
    case List(items) =>
      forall i | 0 <= i < |items| ensures items[i] == b.items[i] {
        assert x.items[i] == y.items[i];
        RemapKeepsApart(items[i], b.items[i], rs);
      }
    case Tuple(members) =>
      forall i | 0 <= i < |members| ensures members[i] == b.members[i] {
        assert x.members[i] == y.members[i];
        RemapKeepsApart(members[i], b.members[i], rs);
      }
    case _ =>
  }

  lemma TextsApart(a: seq<Token>, b: seq<Token>, rs: Items)
    requires DistinctKeys(rs) && (forall x, y :: x in rs && y in rs && x.1 == y.1 ==> x == y)
    requires forall u :: Id(u) in a || Id(u) in b ==> NoTarget(rs, u)
    requires Remapped(Text(a), rs) == Remapped(Text(b), rs)
    ensures a == b
  {
    hide Mapped, InTurn, DistinctKeys, IsKey, NoTarget;
    var x, y := Remapped(Text(a), rs).tokens, Remapped(Text(b), rs).tokens;
    forall i | 0 <= i < |a| ensures a[i] == b[i] {
      assert x[i] == y[i];
      assert a[i] in a && b[i] in b;
      if a[i].Id? && b[i].Id? {
        TokensApart(a[i].id, b[i].id, rs);
      }
    }
  }

  /** Nor does it matter which of the two ids is the whole text. */
  lemma TokensApart(u: Uuid, v: Uuid, rs: Items)
    requires DistinctKeys(rs) && NoTarget(rs, u) && NoTarget(rs, v)
    requires forall a, b :: a in rs && b in rs && a.1 == b.1 ==> a == b
    ensures Mapped(rs, u) == Mapped(rs, v) || InTurn(rs, u) == InTurn(rs, v) ==> u == v
    ensures IsKey(rs, u) && !IsKey(rs, v) ==> Mapped(rs, u) != InTurn(rs, v)
    ensures !IsKey(rs, u) && IsKey(rs, v) ==> InTurn(rs, u) != Mapped(rs, v)
  {
    if Mapped(rs, u) == Mapped(rs, v) { MappedApart(rs, u, v); }
    if InTurn(rs, u) == InTurn(rs, v) { InTurnApart(rs, u, v); }
    hide Mapped, InTurn;
    if !IsKey(rs, u) { InTurnOther(rs, u); } else { var r :| r in rs && r.0 == u; MappedByMember(rs, r); }
    if !IsKey(rs, v) { InTurnOther(rs, v); } else { var r :| r in rs && r.0 == v; MappedByMember(rs, r); }
  }

  /** Two clones clash only if their originals do. */
  lemma ClonesClashAsOriginals(t: Table, a: Row, b: Row, rs: Items, target: Uuid, suffix: seq<Token>)
    requires t in WORKSPACE_UNIQUE_IDEMPOTENCY_TABLES
    requires DistinctKeys(rs) && (forall x, y :: x in rs && y in rs && x.1 == y.1 ==> x == y)
    requires NewIdsUnused(rs, target, a) && NewIdsUnused(rs, target, b)
    requires Clash(ClonedRow(t, a, rs, target, suffix), ClonedRow(t, b, rs, target, suffix))
    ensures Clash(a, b)
  {
    hide ClonedRow, Remapped, Chars, KeyCell, Workspace, DistinctKeys, Occurs;
    MarkedKey(t, a, rs, target, suffix);
    MarkedKey(t, b, rs, target, suffix);
    RemappedKinds(KeyCell(a), rs);
    RemappedKinds(KeyCell(b), rs);
    var x, y := Remapped(KeyCell(a), rs).tokens, Remapped(KeyCell(b), rs).tokens;
    var mark := Chars("::clone::") + [Short(target)];
    assert x + Chars("::clone::") + [Short(target)] == x + mark && y + Chars("::clone::") + [Short(target)] == y + mark;
    assert x == (x + mark)[..|x + mark| - |mark|] && y == (y + mark)[..|y + mark| - |mark|];
    RemapKeepsApart(KeyCell(a), KeyCell(b), rs);
    RemapKeepsApart(Workspace(a), Workspace(b), rs);
  }

  lemma RemappedKinds(v: Value, rs: Items)
    ensures v.Text? <==> Remapped(v, rs).Text?
    ensures v.Text? ==> |Remapped(v, rs).tokens| == |v.tokens|
  {
  }

  /** A clone's key is one that no row without the clone's mark has. */
  lemma CloneClashesWithNone(t: Table, a: Row, b: Row, rs: Items, target: Uuid, suffix: seq<Token>)
    requires t in WORKSPACE_UNIQUE_IDEMPOTENCY_TABLES && NewIdsUnused(rs, target, a)
    ensures !Clash(a, ClonedRow(t, b, rs, target, suffix))
  {
    hide ClonedRow, Remapped, Chars, KeyCell, Workspace, Occurs;
    MarkedKey(t, b, rs, target, suffix);
    RemappedKinds(KeyCell(b), rs);
    var key := Remapped(KeyCell(b), rs);
    if KeyCell(b).Text? && key.tokens != [] {
      assert (key.tokens + Chars("::clone::") + [Short(target)])[|key.tokens + Chars("::clone::")|] == Short(target);
      assert Short(target) in key.tokens + Chars("::clone::") + [Short(target)];
    }
  }

  /** With the clones beside the old rows, no two rows clash if none did before, whatever id the target is. */
  lemma IdempotencyKeysStayUnique(p: Plan, t: Table, store: seq<Row>, rows: seq<Row>)
    requires t in WORKSPACE_UNIQUE_IDEMPOTENCY_TABLES && DistinctKeys(p.rs)
    requires forall x, y :: x in p.rs && y in p.rs && x.1 == y.1 ==> x == y
    requires NoClash(store) && NoClash(rows) && (forall r :: r in rows ==> r in store)
    requires forall r :: r in store ==> NewIdsUnused(p.rs, p.target, r)
    ensures NoClash(store + ClonedRows(p, t, rows))
  {
    hide ClonedRow, Clash, NewIdsUnused, DistinctKeys;
    var all := store + ClonedRows(p, t, rows);
    forall i, j | 0 <= i < j < |all| ensures !Clash(all[i], all[j]) {
      if i < |store| <= j {
        assert store[i] in store;
        CloneClashesWithNone(t, store[i], rows[j - |store|], p.rs, p.target, p.suffix);
      } else if |store| <= i {
        var a, b := rows[i - |store|], rows[j - |store|];
        assert a in store && b in store;
        if Clash(all[i], all[j]) { ClonesClashAsOriginals(t, a, b, p.rs, p.target, p.suffix); }
      }
    }
  }

  // ------------------------------------------------------- a key that names the target

  function Job(key: Uuid): Row {
    map["workspace_id" := Ref(7), "idempotency_key" := Text([Ch('@'), Id(key)])]
  }

  /** Session 1 is cloned onto 2, which is a collected row's id and so is replaced by 9. */
  const ONTO_TWO: Items := [(1, 2), (2, 9)]

  lemma BothBecomeNine(key: Uuid)
    requires key == 1 || key == 2
    ensures Remapped(KeyCell(Job(key)), ONTO_TWO) == Text([Ch('@'), Id(9)])
    ensures Remapped(Workspace(Job(key)), ONTO_TWO) == Ref(7) && Workspace(Job(key)) == Ref(7)
    ensures KeyCell(Job(key)) == Text([Ch('@'), Id(key)])
  {
    NamesOfColumns();
    assert ONTO_TWO[..1] == [(1, 2)] && ONTO_TWO[..1][..0] == [];
    assert InTurn([], key) == key && InTurn(ONTO_TWO[..1], key) == 2 && InTurn(ONTO_TWO, key) == 9;
    var text := [Ch('@'), Id(key)];
    assert OnTokens(text, (u: Uuid) => InTurn(ONTO_TWO, u)) == [Ch('@'), Id(9)];
  }

  /** Two jobs, one key naming the session and the other one the target: their clones claim one key. */
  lemma TargetInKey(t: Table, suffix: seq<Token>)
    requires t in WORKSPACE_UNIQUE_IDEMPOTENCY_TABLES
    ensures !Clash(Job(1), Job(2)) && DistinctKeys(ONTO_TWO)
    ensures Clash(ClonedRow(t, Job(1), ONTO_TWO, 2, suffix), ClonedRow(t, Job(2), ONTO_TWO, 2, suffix))
  {
    BothBecomeNine(1);
    BothBecomeNine(2);
    assert [Ch('@'), Id(1)][1] != [Ch('@'), Id(2)][1];
    MarkedKey(t, Job(1), ONTO_TWO, 2, suffix);
    MarkedKey(t, Job(2), ONTO_TWO, 2, suffix);
    hide ClonedRow, KeyCell, Workspace, Job, Remapped, Chars, ONTO_TWO, Clash;
    var key := [Ch('@'), Id(9)] + Chars("::clone::") + [Short(2)];
    ClashBy(ClonedRow(t, Job(1), ONTO_TWO, 2, suffix), ClonedRow(t, Job(2), ONTO_TWO, 2, suffix), key);
    KeysApart(Job(1), Job(2));
  }

  lemma ClashBy(a: Row, b: Row, key: seq<Token>)
    requires key != [] && KeyCell(a) == Text(key) == KeyCell(b) && Workspace(a) == Workspace(b)
    ensures Clash(a, b)
  {
  }

  lemma KeysApart(a: Row, b: Row)
    requires KeyCell(a) != KeyCell(b)
    ensures !Clash(a, b)
  {
  }
}
