/** `scripts/clone_local_project_session.py`: copying a session under fresh ids. */
module Cloner {
  import opened Relational
  import opened Collector
  import opened Remap
  import Strings

  const WORKSPACE_UNIQUE_IDEMPOTENCY_TABLES: set<Table> :=
    {"deliverable_generation_jobs_v1", "diagram_generation_jobs_v3", "product_build_runs_v1"}

  const SELF_REFERENCE_FIELDS: map<Table, set<Column>> :=
    map["journey_stage_artifacts" := {"based_on_artifact_id", "superseded_by_artifact_id"}]

  function SelfFields(t: Table): set<Column> {
    if t in SELF_REFERENCE_FIELDS then SELF_REFERENCE_FIELDS[t] else {}
  }

  // ------------------------------------------------------- the replacements

  /** `replacements[u] = v`: an existing key keeps its place. */
  function Put(rs: Items, u: Uuid, v: Uuid): Items {
    if rs == [] then [(u, v)]
    else if rs[0].0 == u then [(u, v)] + rs[1..]
    else [rs[0]] + Put(rs[1..], u, v)
  }

  lemma KeyCons(r: (Uuid, Uuid), tail: Items, u: Uuid)
    ensures IsKey([r] + tail, u) <==> r.0 == u || IsKey(tail, u)
  {
    assert forall x :: x in [r] + tail <==> x == r || x in tail;
  }

  lemma {:induction false} PutKeys(rs: Items, u: Uuid, v: Uuid)
    ensures forall w :: IsKey(Put(rs, u, v), w) <==> w == u || IsKey(rs, w)
  {
    hide IsKey;
    if rs == [] {
      assert [(u, v)] + [] == [(u, v)];
      forall w ensures IsKey(Put(rs, u, v), w) <==> w == u || IsKey(rs, w) {
        KeyCons((u, v), [], w);
      }
    } else {
      var tail := rs[1..];
      PutKeys(tail, u, v);
      assert rs == [rs[0]] + tail;
      forall w ensures IsKey(Put(rs, u, v), w) <==> w == u || IsKey(rs, w) {
        KeyCons(rs[0], tail, w);
        KeyCons((u, v), tail, w);
        KeyCons(rs[0], Put(tail, u, v), w);
      }
    }
  }

  lemma KeyIsMember(rs: Items, u: Uuid)
    ensures IsKey(rs, u) <==> exists r :: r in rs && r.0 == u
  {
  }

  lemma DistinctCons(r: (Uuid, Uuid), tail: Items)
    ensures DistinctKeys([r] + tail) <==> DistinctKeys(tail) && !IsKey(tail, r.0)
  {
    var all := [r] + tail;
    if DistinctKeys(all) {
      forall i, j | 0 <= i < j < |tail| ensures tail[i].0 != tail[j].0 {
        assert all[i + 1].0 != all[j + 1].0;
      }
      forall i | 0 <= i < |tail| ensures tail[i].0 != r.0 {
        assert all[0].0 != all[i + 1].0;
      }
    }
    if DistinctKeys(tail) && !IsKey(tail, r.0) {
      forall i, j | 0 <= i < j < |all| ensures all[i].0 != all[j].0 {
        if i == 0 { assert tail[j - 1] in tail; } else { assert tail[i - 1].0 != tail[j - 1].0; }
      }
    }
  }

  lemma {:induction false} PutIs(rs: Items, u: Uuid, v: Uuid)
    requires DistinctKeys(rs)
    ensures DistinctKeys(Put(rs, u, v))
    ensures forall w :: IsKey(Put(rs, u, v), w) <==> w == u || IsKey(rs, w)
    ensures forall w :: Mapped(Put(rs, u, v), w) == if w == u then v else Mapped(rs, w)
  {
    hide IsKey, DistinctKeys;
    PutKeys(rs, u, v);
    if rs == [] {
      KeyIsMember([], u);
      DistinctCons((u, v), []);
      assert [(u, v)] + [] == [(u, v)];
    } else {
      var tail := rs[1..];
      assert rs == [rs[0]] + tail;
      DistinctCons(rs[0], tail);
      if rs[0].0 == u {
        DistinctCons((u, v), tail);
      } else {
        PutIs(tail, u, v);
        DistinctCons(rs[0], Put(tail, u, v));
      }
    }
  }

  /** `u` is the id of a collected row of a table keyed by `id`. */
  predicate CollectedId(schema: Schema, rowsBy: RowsByTable, u: Uuid) {
    exists t :: t in rowsBy && t in schema && schema[t].idKey && u in IdsOf(rowsBy[t])
  }

  /** Each key is replaced by its own draw, but for those still standing for the session. */
  ghost predicate Drawn(rs: Items, drawn: map<Uuid, nat>, n: nat, target: Uuid, draw: nat -> Uuid) {
    && DistinctKeys(rs)
    && (forall u :: u in drawn ==> IsKey(rs, u) && drawn[u] < n)
    && (forall u, v :: u in drawn && v in drawn && drawn[u] == drawn[v] ==> u == v)
    && (forall u :: IsKey(rs, u) ==> Mapped(rs, u) == if u in drawn then draw(drawn[u]) else target)
  }

  /** Only the session's own row carries the session's id. */
  ghost predicate SourceIsOwn(schema: Schema, rowsBy: RowsByTable, source: Uuid) {
    forall t, u :: t in rowsBy && t in schema && schema[t].idKey && u in IdsOf(rowsBy[t]) ==>
      (u == source <==> t == "sessions")
  }

  method PrepareReplacements(schema: Schema, rowsBy: RowsByTable, source: Uuid, target: Uuid, draw: nat -> Uuid)
    returns (rs: Items, ghost drawn: map<Uuid, nat>, n: nat)
    requires rowsBy.Keys <= schema.Keys
    ensures Drawn(rs, drawn, n, target, draw)
    ensures forall u :: IsKey(rs, u) <==> u == source || CollectedId(schema, rowsBy, u)
    ensures SourceIsOwn(schema, rowsBy, source) ==> forall u :: u in drawn <==> IsKey(rs, u) && u != source
    ensures rs != [] && rs[0].0 == source
  {
    hide Mapped, DistinctKeys;
    rs := Put([], source, target);
    assert DistinctKeys([]) && forall w :: !IsKey([], w) by { EmptyItems(); }
    PutIs([], source, target);
    drawn, n := map[], 0;
    var todo := rowsBy.Keys;
    while todo != {}
      invariant todo <= rowsBy.Keys && Drawn(rs, drawn, n, target, draw)
      invariant forall u :: IsKey(rs, u) <==> u == source || CollectedId(schema, rowsBy - todo, u)
      invariant SourceIsOwn(schema, rowsBy, source) ==> forall u :: u in drawn <==> IsKey(rs, u) && u != source
      invariant rs != [] && rs[0].0 == source
      decreases todo
    {
      var t :| t in todo;
      if schema[t].idKey {
        rs, drawn, n := ReplaceTable(t, rowsBy[t], rs, drawn, n, source, target, draw);
      }
      MoreCollected(schema, rowsBy, todo, t);
      todo := todo - {t};
    }
    assert rowsBy - {} == rowsBy;
  }

  lemma EmptyItems()
    ensures DistinctKeys([]) && forall w :: !IsKey([], w)
  {
  }

  lemma MoreCollected(schema: Schema, rowsBy: RowsByTable, todo: set<Table>, t: Table)
    requires rowsBy.Keys <= schema.Keys && t in todo && todo <= rowsBy.Keys
    ensures forall u :: CollectedId(schema, rowsBy - (todo - {t}), u) <==>
                        CollectedId(schema, rowsBy - todo, u) || (schema[t].idKey && u in IdsOf(rowsBy[t]))
  {
    forall u
      ensures CollectedId(schema, rowsBy - (todo - {t}), u) <==>
              CollectedId(schema, rowsBy - todo, u) || (schema[t].idKey && u in IdsOf(rowsBy[t]))
    {
      var a, b := rowsBy - todo, rowsBy - (todo - {t});
      assert forall x :: x in b <==> x in a || x == t;
      if CollectedId(schema, a, u) {
        var x :| x in a && x in schema && schema[x].idKey && u in IdsOf(a[x]);
        assert x in b && b[x] == a[x];
      }
      if schema[t].idKey && u in IdsOf(rowsBy[t]) { assert t in b && b[t] == rowsBy[t]; }
      if CollectedId(schema, b, u) {
        var x :| x in b && x in schema && schema[x].idKey && u in IdsOf(b[x]);
        if x != t { assert x in a && a[x] == b[x]; }
      }
    }
  }

  /** The row's own draw, or the target for the session. */
  lemma DrawnPut(rs: Items, drawn: map<Uuid, nat>, n: nat, target: Uuid, draw: nat -> Uuid, id: Uuid)
    requires Drawn(rs, drawn, n, target, draw)
    ensures Drawn(Put(rs, id, draw(n)), drawn[id := n], n + 1, target, draw)
    ensures Drawn(Put(rs, id, target), drawn - {id}, n, target, draw)
    ensures forall u :: IsKey(Put(rs, id, draw(n)), u) <==> IsKey(rs, u) || u == id
    ensures forall u :: IsKey(Put(rs, id, target), u) <==> IsKey(rs, u) || u == id
    ensures forall v :: Put(rs, id, v) != [] && (rs != [] ==> Put(rs, id, v)[0].0 == rs[0].0)
  {
    hide Mapped, DistinctKeys, IsKey;
    PutIs(rs, id, draw(n));
    PutIs(rs, id, target);
  }

  /** The inner loop over the rows of one table. */
  method ReplaceTable(t: Table, rows: seq<Row>, rs0: Items, ghost drawn0: map<Uuid, nat>, n0: nat,
                      source: Uuid, target: Uuid, draw: nat -> Uuid)
    returns (rs: Items, ghost drawn: map<Uuid, nat>, n: nat)
    requires Drawn(rs0, drawn0, n0, target, draw)
    ensures Drawn(rs, drawn, n, target, draw)
    ensures rs0 != [] ==> rs != [] && rs[0].0 == rs0[0].0
    ensures forall u :: IsKey(rs, u) <==> IsKey(rs0, u) || u in IdsOf(rows)
    ensures (forall u :: u in IdsOf(rows) ==> (u == source <==> t == "sessions")) && IsKey(rs0, source) &&
            (forall u :: u in drawn0 <==> IsKey(rs0, u) && u != source)
            ==> forall u :: u in drawn <==> IsKey(rs, u) && u != source
  {
    hide Drawn, IsKey, Put;
    rs, drawn, n := rs0, drawn0, n0;
    for i := 0 to |rows|
      invariant Drawn(rs, drawn, n, target, draw)
      invariant rs0 != [] ==> rs != [] && rs[0].0 == rs0[0].0
      invariant forall u :: IsKey(rs, u) <==> IsKey(rs0, u) || u in IdsOf(rows[..i])
      invariant (forall u :: u in IdsOf(rows) ==> (u == source <==> t == "sessions")) && IsKey(rs0, source) &&
                (forall u :: u in drawn0 <==> IsKey(rs0, u) && u != source)
                ==> forall u :: u in drawn <==> IsKey(rs, u) && u != source
    {
      assert rows[..i + 1] == rows[..i] + [rows[i]];
      if Has(rows[i], "id") {
        var id := At(rows[i], "id");
        assert id in IdsOf(rows) && IdsOf(rows[..i + 1]) == IdsOf(rows[..i]) + {id};
        DrawnPut(rs, drawn, n, target, draw, id);
        if t == "sessions" {
          rs, drawn := Put(rs, id, target), drawn - {id};
        } else {
          rs, drawn := Put(rs, id, draw(n)), drawn[id := n];
          n := n + 1;
        }
      } else {
        assert IdsOf(rows[..i + 1]) == IdsOf(rows[..i]);
      }
    }
    assert rows[..|rows|] == rows;
  }

  // ------------------------------------------------------- one row

  const WHITE: set<Token> := {Ch(' '), Ch('\t'), Ch('\n'), Ch('\r')}

  /** `text.strip()` */
  function Strip(ts: seq<Token>): seq<Token> {
    Strings.Trim(ts, WHITE)
  }

  /** The title of the clone; it starts from the title as stored, not as remapped. */
  function CloneTitle(row: Row, suffix: seq<Token>): seq<Token> {
    var title := if "title" in row && row["title"].Text? && row["title"].tokens != []
                 then row["title"].tokens else Chars("Proyecto sin titulo");
    Strip(Strip(title) + [Ch(' ')] + suffix)
  }

  /** `int(row.get("row_version") or 1) + 1` */
  function NextVersion(row: Row): int {
    if "row_version" in row && row["row_version"].Number? && row["row_version"].n != 0
    then row["row_version"].n + 1 else 2
  }

  /** The columns of the session's own row that are set anew. */
  function SessionOverrides(row: Row, target: Uuid, suffix: seq<Token>): Row {
    map["id" := Ref(target),
        "title" := Text(CloneTitle(row, suffix)), "suggested_title" := Text(CloneTitle(row, suffix)),
        "title_source" := Text(Chars("migrated")), "row_version" := Number(NextVersion(row)),
        "archived_at" := Null, "archived_by_user_id" := Null, "deleted_at" := Null, "deleted_by_user_id" := Null]
  }

  /** `idempotency_key` is present and not empty. */
  predicate HasIdempotencyKey(t: Table, row: Row) {
    && t in WORKSPACE_UNIQUE_IDEMPOTENCY_TABLES && "idempotency_key" in row
    && row["idempotency_key"].Text? && row["idempotency_key"].tokens != []
  }

  /** All columns remapped. */
  ghost function RemappedRow(row: Row, rs: Items): Row {
    map c | c in row :: Remapped(row[c], rs)
  }

  function WithId(row: Row, rs: Items, rewritten: Row): Row {
    if Has(row, "id") && IsKey(rs, At(row, "id")) then rewritten["id" := Ref(Mapped(rs, At(row, "id")))] else rewritten
  }

  function WithSession(target: Uuid, rewritten: Row): Row {
    if "session_id" in rewritten then rewritten["session_id" := Ref(target)] else rewritten
  }

  function WithIdempotencyKey(t: Table, target: Uuid, rewritten: Row): Row {
    if HasIdempotencyKey(t, rewritten)
    then
      var key := rewritten["idempotency_key"].tokens + Chars("::clone::") + [Short(target)];
      rewritten["idempotency_key" := Text(key)]
    else rewritten
  }

  function WithOverrides(t: Table, row: Row, target: Uuid, suffix: seq<Token>, rewritten: Row): Row {
    if t == "sessions" then rewritten + SessionOverrides(row, target, suffix) else rewritten
  }

  function WithNulls(fields: set<Column>, rewritten: Row): Row {
    map c | c in rewritten :: if c in fields then Null else rewritten[c]
  }

  ghost function RewrittenRow(t: Table, row: Row, rs: Items, target: Uuid, suffix: seq<Token>,
                              nullSelfRefs: bool): Row {
    var rewritten := WithIdempotencyKey(t, target, WithSession(target, WithId(row, rs, RemappedRow(row, rs))));
    WithNulls(if nullSelfRefs then SelfFields(t) else {}, WithOverrides(t, row, target, suffix, rewritten))
  }

  method RewriteRow(t: Table, row: Row, rs: Items, target: Uuid, suffix: seq<Token>, nullSelfRefs: bool)
    returns (rewritten: Row)
    ensures rewritten == RewrittenRow(t, row, rs, target, suffix, nullSelfRefs)
  {
    hide WithId, WithSession, WithIdempotencyKey, WithOverrides, WithNulls;
    rewritten := row;
    var keys := row.Keys;
    while keys != {}
      invariant keys <= row.Keys == rewritten.Keys
      invariant forall c :: c in row ==> rewritten[c] == if c in keys then row[c] else Remapped(row[c], rs)
      decreases keys
    {
      var key :| key in keys;
      var value := RemapValue(rewritten[key], rs);
      rewritten := rewritten[key := value];
      keys := keys - {key};
    }
    assert rewritten == RemappedRow(row, rs);
    rewritten := WithId(row, rs, rewritten);
    rewritten := WithSession(target, rewritten);
    rewritten := WithIdempotencyKey(t, target, rewritten);
    rewritten := WithOverrides(t, row, target, suffix, rewritten);
    rewritten := WithNulls(if nullSelfRefs then SelfFields(t) else {}, rewritten);
  }

  /** What the second phase sets: the self-references whose target was collected. */
  ghost function Patch(t: Table, row: Row, rs: Items): Row {
    map f | f in SelfFields(t) && Has(row, f) && IsKey(rs, At(row, f)) :: Ref(Mapped(rs, At(row, f)))
  }

  /** The row as first inserted, and as it is after the second phase. */
  ghost function FirstRow(t: Table, row: Row, rs: Items, target: Uuid, suffix: seq<Token>): Row {
    RewrittenRow(t, row, rs, target, suffix, t in SELF_REFERENCE_FIELDS)
  }

  ghost function ClonedRow(t: Table, row: Row, rs: Items, target: Uuid, suffix: seq<Token>): Row {
    FirstRow(t, row, rs, target, suffix) + Patch(t, row, rs)
  }

  /** The columns that are not simply remapped. */
  function SetColumns(t: Table): set<Column> {
    {"session_id"} + SelfFields(t)
    + (if t in WORKSPACE_UNIQUE_IDEMPOTENCY_TABLES then {"idempotency_key"} else {})
    + (if t == "sessions" then {"id", "title", "suggested_title", "title_source", "row_version", "archived_at",
                                "archived_by_user_id", "deleted_at", "deleted_by_user_id"} else {})
  }

  /** Setting the id anew only repeats what the remapping has done. */
  lemma IdIsRemappedAnyway(row: Row, rs: Items)
    ensures WithId(row, rs, RemappedRow(row, rs)) == RemappedRow(row, rs)
  {
  }

  lemma RewrittenColumns(t: Table, row: Row, rs: Items, target: Uuid, suffix: seq<Token>, nulls: bool, c: Column)
    ensures var r := RewrittenRow(t, row, rs, target, suffix, nulls);
            && row.Keys <= r.Keys <= row.Keys + SetColumns(t)
            && (c in row && c !in SetColumns(t) ==> r[c] == Remapped(row[c], rs))
            && (c in row && c == "session_id" && c !in SelfFields(t) ==> r[c] == Ref(target))
            && (c in row && c in SelfFields(t) && nulls ==> r[c] == Null)
  {
    PlainColumns(t, row, rs, target, c);
    hide Remapped, CloneTitle, Chars, NextVersion, IsKey, Mapped, WithId, WithSession, WithIdempotencyKey, RemappedRow;
  }

  /** The columns before a session's own row is set anew and self-references are nulled. */
  lemma PlainColumns(t: Table, row: Row, rs: Items, target: Uuid, c: Column)
    ensures var b := WithIdempotencyKey(t, target, WithSession(target, WithId(row, rs, RemappedRow(row, rs))));
            && b.Keys == row.Keys
            && (c in row && c == "session_id" ==> b[c] == Ref(target))
            && (c in row && c != "session_id" && !(c == "idempotency_key" && t in WORKSPACE_UNIQUE_IDEMPOTENCY_TABLES)
                ==> b[c] == Remapped(row[c], rs))
  {
    IdIsRemappedAnyway(row, rs);
    hide Remapped, Chars, IsKey, Mapped, WithId;
    assert |"session_id"| != |"idempotency_key"|;
  }

  lemma SessionsHaveNoSelfFields()
    ensures SelfFields("sessions") == {}
  {
    assert |"sessions"| != |"journey_stage_artifacts"|;
  }

  /** What the clone of a row holds, column by column. */
  lemma ClonedColumns(t: Table, row: Row, rs: Items, target: Uuid, suffix: seq<Token>, c: Column)
    ensures var r := ClonedRow(t, row, rs, target, suffix);
            && row.Keys <= r.Keys <= row.Keys + SetColumns(t)
            && (c in row && c !in SetColumns(t) ==> r[c] == Remapped(row[c], rs))
            && (c in row && c == "session_id" && c !in SelfFields(t) ==> r[c] == Ref(target))
            && (c in row && c in SelfFields(t) ==>
                r[c] == if Has(row, c) && IsKey(rs, At(row, c)) then Ref(Mapped(rs, At(row, c))) else Null)
            && (t == "sessions" ==> "id" in r && r["id"] == Ref(target))
  {
    hide RewrittenRow, SetColumns;
    RewrittenColumns(t, row, rs, target, suffix, t in SELF_REFERENCE_FIELDS, c);
    if t == "sessions" { SessionId(row, rs, target, suffix, t in SELF_REFERENCE_FIELDS); }
  }

  lemma SessionId(row: Row, rs: Items, target: Uuid, suffix: seq<Token>, nulls: bool)
    ensures var r := RewrittenRow("sessions", row, rs, target, suffix, nulls);
            "id" in r && r["id"] == Ref(target)
    ensures Patch("sessions", row, rs) == map[]
  {
    hide Remapped, CloneTitle, Chars, NextVersion, IsKey, Mapped;
    SessionsHaveNoSelfFields();
  }

  /** Where a reference in a row of the clone comes from. */
  ghost predicate TracedRef(t: Table, row: Row, copy: Row, rs: Items, target: Uuid, c: Column) {
    Has(copy, c) ==>
      || (c == "session_id" && At(copy, c) == target)
      || (t == "sessions" && c == "id" && At(copy, c) == target)
      || (Has(row, c) && At(copy, c) == Mapped(rs, At(row, c)) && c != "session_id")
  }

  lemma RewrittenRefs(t: Table, row: Row, rs: Items, target: Uuid, suffix: seq<Token>, nulls: bool, c: Column)
    ensures TracedRef(t, row, RewrittenRow(t, row, rs, target, suffix, nulls), rs, target, c)
    ensures nulls && c in SelfFields(t) ==> !Has(RewrittenRow(t, row, rs, target, suffix, nulls), c)
  {
    hide CloneTitle, Chars, NextVersion, IsKey, Mapped, WithId;
    IdIsRemappedAnyway(row, rs);
    var a := RemappedRow(row, rs);
    assert Has(a, c) ==> Has(row, c) && At(a, c) == Mapped(rs, At(row, c));
  }

  lemma ClonedRefs(t: Table, row: Row, rs: Items, target: Uuid, suffix: seq<Token>, c: Column)
    ensures TracedRef(t, row, ClonedRow(t, row, rs, target, suffix), rs, target, c)
  {
    hide RewrittenRow, Mapped, IsKey;
    RewrittenRefs(t, row, rs, target, suffix, t in SELF_REFERENCE_FIELDS, c);
    if c in Patch(t, row, rs) { SelfFieldsAreOther(t); }
  }

  lemma SelfFieldsAreOther(t: Table)
    ensures "session_id" !in SelfFields(t) && "id" !in SelfFields(t)
  {
    assert |"id"| == 2 && |"session_id"| == 10 && |"based_on_artifact_id"| == 20 && |"superseded_by_artifact_id"| == 25;
  }

  /** Text without white space at either end. */
  predicate Trimmed(ts: seq<Token>) {
    ts != [] ==> ts[0] !in WHITE && ts[|ts| - 1] !in WHITE
  }

  lemma OverridesAreSet(row: Row, rs: Items, target: Uuid, suffix: seq<Token>, c: Column)
    requires c in SessionOverrides(row, target, suffix)
    ensures var r := ClonedRow("sessions", row, rs, target, suffix);
            c in r && r[c] == SessionOverrides(row, target, suffix)[c]
  {
    hide SessionOverrides, WithId, WithSession, WithIdempotencyKey, RemappedRow, IsKey, Mapped;
    SessionsHaveNoSelfFields();
  }

  lemma TitleIsTrimmed(row: Row, suffix: seq<Token>)
    ensures Trimmed(CloneTitle(row, suffix))
  {
    hide Strings.Trim, Chars;
    Strings.TrimTrims(Strip(if "title" in row && row["title"].Text? && row["title"].tokens != []
                            then row["title"].tokens else Chars("Proyecto sin titulo")) + [Ch(' ')] + suffix, WHITE);
  }

  /** The clone of the session is live again, under a later version and one trimmed title. */
  lemma SessionIsReset(row: Row, rs: Items, target: Uuid, suffix: seq<Token>)
    ensures var r := ClonedRow("sessions", row, rs, target, suffix);
            && {"id", "title", "suggested_title", "row_version", "archived_at", "deleted_at"} <= r.Keys
            && r["id"] == Ref(target) && r["archived_at"] == Null && r["deleted_at"] == Null
            && r["title"] == r["suggested_title"] && r["title"].Text? && Trimmed(r["title"].tokens)
            && r["row_version"].Number?
            && ("row_version" in row && row["row_version"].Number? ==> r["row_version"].n > row["row_version"].n)
  {
    hide ClonedRow, Chars, Trimmed, CloneTitle;
    TitleIsTrimmed(row, suffix);
    OverridesAreSet(row, rs, target, suffix, "id");
    OverridesAreSet(row, rs, target, suffix, "title");
    OverridesAreSet(row, rs, target, suffix, "suggested_title");
    OverridesAreSet(row, rs, target, suffix, "row_version");
    OverridesAreSet(row, rs, target, suffix, "archived_at");
    OverridesAreSet(row, rs, target, suffix, "deleted_at");
  }

  lemma NotSessions(t: Table)
    requires t in WORKSPACE_UNIQUE_IDEMPOTENCY_TABLES
    ensures t != "sessions" && SelfFields(t) == {} && t !in SELF_REFERENCE_FIELDS
  {
    assert |"sessions"| == 8 && |"product_build_runs_v1"| == 21;
    assert |"deliverable_generation_jobs_v1"| == 30 && |"diagram_generation_jobs_v3"| == 26;
    assert |"journey_stage_artifacts"| == 23;
  }
}
