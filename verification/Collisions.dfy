/**
 What goes wrong when a snapshot id that is new to the target is one that another snapshot row
 is matched to: one input, small enough to follow by hand.
 */
module Collisions {
  import opened Relational
  import opened NaturalKeys
  import opened SnapshotRewrite
  import opened SessionImport
  import opened References

  function User(id: Uuid, email: char): Row {
    map["id" := Ref(id), "email" := Text([Ch(email)])]
  }

  function Member(id: Uuid, user: Uuid): Row {
    map["id" := Ref(id), "workspace_id" := Ref(5), "user_id" := Ref(user)]
  }

  /** The target knows user 1 as `a`. */
  function Known(): ById {
    map[1 := User(1, 'a')]
  }

  /** The snapshot calls that user 2, and has another user 1. */
  function Users(): seq<Row> {
    [User(2, 'a'), User(1, 'b')]
  }

  function Members(): seq<Row> {
    [Member(10, 2), Member(11, 1)]
  }

  const TARGET: Database := map["users" := Known()]
  const SNAPSHOT: Dataset := map["users" := Users(), "workspace_memberships" := Members()]

  lemma Tables()
    ensures TableIn(TARGET, "users") == Known() && RowsIn(SNAPSHOT, "users") == Users()
    ensures TableIn(TARGET, "workspace_memberships") == map[] && RowsIn(SNAPSHOT, "workspace_memberships") == Members()
  {
    TableNames();
    hide Known, Users, Members;
  }

  function Same(v: Value): Value {
    v
  }

  function Maps(script: Script): IdMaps {
    map t | t in KeyedTables(script) :: if t == "users" then map[2 := 1] else map[]
  }

  lemma TableNames()
    ensures "users" != "workspaces" && "users" != "workspace_memberships" && "workspaces" != "workspace_memberships"
    ensures "id" != "email" && "id" != "user_id" && "id" != "workspace_id" && "user_id" != "workspace_id"
  {
    assert |"users"| == 5 && |"workspaces"| == 10 && |"workspace_memberships"| == 21;
    assert |"id"| == 2 && |"email"| == 5 && |"user_id"| == 7 && |"workspace_id"| == 12;
  }

  lemma UserKeys(script: Script, row: Row, maps: IdMaps)
    ensures KeyAt(KeyColumns(script, "users"), row) == [Cell(row, "email")]
    ensures LookupKey(script, "users", Same, maps, row) == [Cell(row, "email")]
  {
    assert KeyColumns(script, "users") == ["email"];
    var key := LookupKey(script, "users", Same, maps, row);
    assert |key| == 1 && key[0] == Same(Cell(row, "email"));
  }

  lemma FoundUsers(script: Script, m: ById, maps: IdMaps, s: Uuid, u: Uuid, i: nat)
    requires i < 2 && At(Users()[i], "id") == s && m == map[u := User(u, if i == 0 then 'a' else 'b')]
    ensures IsIdMap(m, KeyColumns(script, "users"), Users(), KeyOf(script, "users", Same, maps), map[s := u])
  {
    TableNames();
    var rows, columns := Users(), KeyColumns(script, "users");
    var key: Row -> seq<Value> := KeyOf(script, "users", Same, maps);
    forall row ensures key(row) == [Cell(row, "email")] && KeyAt(columns, row) == [Cell(row, "email")] {
      UserKeys(script, row, maps);
    }
    hide KeyColumns, KeyAt, LookupKey;
    assert rows[i] in rows;
    assert Finds(m, columns, rows, key, s, u, rows[i]);
  }

  lemma MapsAreBuilt(script: Script)
    ensures MapsFor(script, TARGET, SNAPSHOT, Same, Maps(script))
  {
    TableNames();
    Tables();
    FoundUsers(script, Known(), Maps(script), 2, 1, 0);
    hide KeyColumns, LookupKey, KeyAt, Complete, Known, Users, Members, IsIdMap;
    forall t | t in KeyedTables(script)
      ensures IsIdMap(TableIn(TARGET, t), KeyColumns(script, t), RowsIn(SNAPSHOT, t),
                      KeyOf(script, t, Same, Maps(script)), Maps(script)[t])
    {
      if t != "users" {
        assert TableIn(TARGET, t) == map[] && Maps(script)[t] == map[];
        NothingFound(KeyColumns(script, t), RowsIn(SNAPSHOT, t), KeyOf(script, t, Same, Maps(script)));
      }
    }
  }

  lemma NothingFound(columns: seq<Column>, rows: seq<Row>, key: Row -> seq<Value>)
    ensures IsIdMap(map[], columns, rows, key, map[])
  {
  }

  lemma MemberKeys(script: Script, row: Row)
    ensures KeyColumns(script, "workspace_memberships") == ["workspace_id", "user_id"]
    ensures KeyAt(KeyColumns(script, "workspace_memberships"), row) == [Cell(row, "workspace_id"), Cell(row, "user_id")]
  {
    TableNames();
  }

  lemma UsersAreClean(script: Script)
    ensures StoredUnique(script, "users", Users()) && Normalised(script, "users", Same, Users())
  {
    TableNames();
    UserKeys(script, User(2, 'a'), map[]);
    UserKeys(script, User(1, 'b'), map[]);
    hide KeyColumns, KeyAt, Complete;
    assert [Cell(User(2, 'a'), "email")][0] != [Cell(User(1, 'b'), "email")][0];
  }

  lemma MembersAreClean(script: Script)
    ensures StoredUnique(script, "workspace_memberships", Members())
    ensures Normalised(script, "workspace_memberships", Same, Members())
  {
    TableNames();
    MemberKeys(script, Member(10, 2));
    MemberKeys(script, Member(11, 1));
    hide KeyColumns, KeyAt, Complete;
    assert [Cell(Member(10, 2), "workspace_id"), Cell(Member(10, 2), "user_id")][1]
        != [Cell(Member(11, 1), "workspace_id"), Cell(Member(11, 1), "user_id")][1];
  }

  lemma NothingIsClean(script: Script, t: Table)
    ensures StoredUnique(script, t, []) && Normalised(script, t, Same, [])
  {
  }

  lemma SnapshotIsClean(script: Script)
    ensures CleanSnapshot(script, SNAPSHOT, Same)
  {
    Tables();
    UsersAreClean(script);
    MembersAreClean(script);
    hide StoredUnique, Normalised, Users, Members;
    forall t | t in KeyedTables(script)
      ensures StoredUnique(script, t, RowsIn(SNAPSHOT, t)) && Normalised(script, t, Same, RowsIn(SNAPSHOT, t))
    {
      if t != "users" && t != "workspace_memberships" {
        assert RowsIn(SNAPSHOT, t) == [];
        NothingIsClean(script, t);
      }
    }
  }

  // ------------------------------------------------------- what becomes of it

  /** A table when the rows have been merged into it, under the ids of the maps. */
  ghost function After(script: Script, t: Table, m: ById, rows: seq<Row>, maps: IdMaps): ById
    requires AllHaveIds(rows)
  {
    RewrittenHaveIds(script, t, rows, maps);
    MergeAll(m, AllRewritten(script, t, rows, maps))
  }

  lemma AfterPair(script: Script, t: Table, m: ById, a: Row, b: Row, maps: IdMaps)
    requires Has(a, "id") && Has(b, "id")
    ensures AllHaveIds([a, b])
    ensures var x, y := Rewritten(script, t, a, maps), Rewritten(script, t, b, maps);
            Has(x, "id") && Has(y, "id") && After(script, t, m, [a, b], maps) == m[At(x, "id") := x][At(y, "id") := y]
  {
    NewId(script, t, a, maps);
    NewId(script, t, b, maps);
    hide Rewritten;
    var x, y := Rewritten(script, t, a, maps), Rewritten(script, t, b, maps);
    RewrittenHaveIds(script, t, [a, b], maps);
    assert AllRewritten(script, t, [a, b], maps) == [x, y];
    assert [x, y][..1] == [x] && [x][..0] == [];
    assert MergeAll(m, [x]) == m[At(x, "id") := x];
  }

  lemma UserRewritten(script: Script, maps: IdMaps, id: Uuid, email: char)
    ensures Rewritten(script, "users", User(id, email), maps) == User(Apply(MapFor(maps, "users"), id), email)
  {
    TableNames();
    hide IsUserField, IsWorkspaceField, MapFor;
  }

  lemma RowIds(id: Uuid, email: char, user: Uuid)
    ensures Has(User(id, email), "id") && At(User(id, email), "id") == id
    ensures Has(Member(id, user), "id") && At(Member(id, user), "id") == id
    ensures Has(Member(id, user), "user_id") && At(Member(id, user), "user_id") == user
  {
    TableNames();
  }

  lemma UsersAfter(script: Script, m: ById, maps: IdMaps)
    ensures AllHaveIds(Users())
    ensures var f := MapFor(maps, "users");
            After(script, "users", m, Users(), maps)
            == m[Apply(f, 2) := User(Apply(f, 2), 'a')][Apply(f, 1) := User(Apply(f, 1), 'b')]
  {
    var f := MapFor(maps, "users");
    RowIds(2, 'a', 0);
    RowIds(1, 'b', 0);
    RowIds(Apply(f, 2), 'a', 0);
    RowIds(Apply(f, 1), 'b', 0);
    hide User, MapFor, Rewritten, After;
    AfterPair(script, "users", m, User(2, 'a'), User(1, 'b'), maps);
    UserRewritten(script, maps, 2, 'a');
    UserRewritten(script, maps, 1, 'b');
  }

  lemma UserMap(script: Script)
    ensures MapFor(Maps(script), "users") == map[2 := 1] && MapFor(Maps(script), "workspaces") == map[]
    ensures MapFor(Maps(script), "workspace_memberships") == map[]
  {
    TableNames();
  }

  lemma MemberRewritten(script: Script, id: Uuid, user: Uuid)
    ensures Rewritten(script, "workspace_memberships", Member(id, user), Maps(script))
         == Member(id, if user == 2 then 1 else user)
  {
    TableNames();
    UserMap(script);
    assert IsUserField(script, "user_id") && IsWorkspaceField(script, "workspace_id");
    NotBoth(script, "user_id");
    NotBoth(script, "workspace_id");
    hide IsUserField, IsWorkspaceField, MapFor, Maps;
  }

  lemma MembersAfter(script: Script)
    ensures AllHaveIds(Members())
    ensures After(script, "workspace_memberships", map[], Members(), Maps(script))
         == map[10 := Member(10, 1), 11 := Member(11, 1)]
  {
    RowIds(10, 'a', 2);
    RowIds(11, 'a', 1);
    RowIds(10, 'a', 1);
    hide Member, Maps, Rewritten, After;
    AfterPair(script, "workspace_memberships", map[], Member(10, 2), Member(11, 1), Maps(script));
    MemberRewritten(script, 10, 2);
    MemberRewritten(script, 11, 1);
  }

  lemma HeldTwice(m: ById, columns: seq<Column>, u: Uuid, v: Uuid)
    requires u in m && v in m && u != v && Complete(KeyAt(columns, m[u]))
    requires KeyAt(columns, m[u]) == KeyAt(columns, m[v])
    ensures !KeysUnique(m, columns)
  {
  }

  /** Both memberships end under one natural key, though no two of the snapshot or of the target shared one. */
  lemma KeyHeldTwice(script: Script)
    ensures MapsFor(script, TARGET, SNAPSHOT, Same, Maps(script)) && CleanSnapshot(script, SNAPSHOT, Same)
    ensures TableIn(TARGET, "workspace_memberships") == map[] && RowsIn(SNAPSHOT, "workspace_memberships") == Members()
    ensures AllHaveIds(Members())
    ensures !KeysUnique(After(script, "workspace_memberships", map[], Members(), Maps(script)),
                        KeyColumns(script, "workspace_memberships"))
  {
    hide *;
    Tables();
    MapsAreBuilt(script);
    SnapshotIsClean(script);
    MembersAfter(script);
    MemberKeys(script, Member(10, 1));
    MemberKeys(script, Member(11, 1));
    MemberCells();
    HeldTwice(map[10 := Member(10, 1), 11 := Member(11, 1)], KeyColumns(script, "workspace_memberships"), 10, 11);
  }

  lemma MemberCells()
    ensures Complete([Cell(Member(10, 1), "workspace_id"), Cell(Member(10, 1), "user_id")])
    ensures Cell(Member(10, 1), "workspace_id") == Cell(Member(11, 1), "workspace_id")
    ensures Cell(Member(10, 1), "user_id") == Cell(Member(11, 1), "user_id")
  {
    TableNames();
  }

  /** The membership of the one user names the other one afterwards. */
  lemma ReferenceGoesAstray(script: Script)
    ensures AllHaveIds(Users()) && !NoCollision(Users(), MapFor(Maps(script), "users"))
    ensures Refers(Member(10, 2), "user_id", User(2, 'a'))
    ensures Rewritten(script, "users", User(2, 'a'), Maps(script)) == User(1, 'a') != User(1, 'b')
    ensures Denotes(After(script, "users", Known(), Users(), Maps(script)),
                    Rewritten(script, "workspace_memberships", Member(10, 2), Maps(script)), "user_id", User(1, 'b'))
  {
    UserMap(script);
    RowIds(1, 'b', 1);
    RowIds(2, 'a', 2);
    RowIds(10, 'a', 2);
    RowIds(10, 'a', 1);
    assert User(1, 'a') != User(1, 'b') by { assert User(1, 'a')["email"] != User(1, 'b')["email"]; }
    assert Users()[1] == User(1, 'b');
    hide User, Member, MapFor, Maps, Rewritten, After, Known, Users;
    UserRewritten(script, Maps(script), 2, 'a');
    MemberRewritten(script, 10, 2);
    UsersAfter(script, Known(), Maps(script));
  }

  /**
   The first import leaves one user, `b`; the second one finds `b` under that id, does not find
   `a` any more, and adds it.
   */
  lemma TwiceIsNotOnce(script: Script)
    ensures AllHaveIds(Users())
    ensures var once, again := After(script, "users", Known(), Users(), Maps(script)), map["users" := map[1 := 1]];
            && once == map[1 := User(1, 'b')]
            && IsIdMap(once, KeyColumns(script, "users"), Users(), KeyOf(script, "users", Same, again), map[1 := 1])
            && After(script, "users", once, Users(), again) == map[1 := User(1, 'b'), 2 := User(2, 'a')]
  {
    FirstImport(script);
    SecondImport(script);
    hide *;
    FoundUserOne(script, map["users" := map[1 := 1]]);
  }

  lemma FirstImport(script: Script)
    ensures AllHaveIds(Users())
    ensures After(script, "users", Known(), Users(), Maps(script)) == map[1 := User(1, 'b')]
  {
    UserMap(script);
    hide User, MapFor, Maps, After, Users;
    UsersAfter(script, Known(), Maps(script));
  }

  lemma SecondImport(script: Script)
    ensures AllHaveIds(Users())
    ensures After(script, "users", map[1 := User(1, 'b')], Users(), map["users" := map[1 := 1]])
         == map[1 := User(1, 'b'), 2 := User(2, 'a')]
  {
    assert MapFor(map["users" := map[1 := 1]], "users") == map[1 := 1];
    hide User, MapFor, After, Users;
    UsersAfter(script, map[1 := User(1, 'b')], map["users" := map[1 := 1]]);
  }

  lemma FoundUserOne(script: Script, maps: IdMaps)
    ensures IsIdMap(map[1 := User(1, 'b')], KeyColumns(script, "users"), Users(),
                    KeyOf(script, "users", Same, maps), map[1 := 1])
  {
    RowIds(1, 'b', 1);
    assert Users()[1] == User(1, 'b');
    hide User, Users, IsIdMap, KeyColumns, LookupKey;
    FoundUsers(script, map[1 := User(1, 'b')], maps, 1, 1, 1);
  }
}
