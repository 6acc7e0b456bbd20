/** A session cloned onto the id of one of its own notes, when the note's text names the session. */
module CloneOntoNote {
  import opened Kahn
  import opened Relational
  import opened Collector
  import opened Remap
  import opened TableOrder
  import opened Cloner
  import opened CloneRun
  import opened CloneTheorems
  import opened InsertOrder
  import opened CloneScript

  const SCHEMA: Schema := map[
    "sessions" := TableDef({"id"}, true, {}),
    "notes" := TableDef({"id", "session_id", "body"}, true, {ForeignKey("session_id", "sessions")})]

  const SESSION: Row := map["id" := Ref(1)]
  const NOTE: Row := map["id" := Ref(2), "session_id" := Ref(1), "body" := Text([Ch('@'), Id(1)])]

  const STORE: Store := map["sessions" := [SESSION], "notes" := [NOTE]]

  lemma Entries()
    ensures SCHEMA.Keys == STORE.Keys == {"sessions", "notes"} && "sessions" != "notes"
    ensures SCHEMA["sessions"] == TableDef({"id"}, true, {}) && STORE["sessions"] == [SESSION]
    ensures SCHEMA["notes"] == TableDef({"id", "session_id", "body"}, true, {ForeignKey("session_id", "sessions")})
    ensures STORE["notes"] == [NOTE]
    ensures SESSION.Keys == {"id"} && Has(SESSION, "id") && At(SESSION, "id") == 1
    ensures NOTE.Keys == {"id", "session_id", "body"} && Has(NOTE, "id") && At(NOTE, "id") == 2
    ensures Has(NOTE, "session_id") && At(NOTE, "session_id") == 1
    ensures !Has(NOTE, "body") && InText(1, NOTE["body"])
  {
    assert |"sessions"| == 8 && |"notes"| == 5 && |"id"| == 2 && |"session_id"| == 10 && |"body"| == 4;
    assert [Ch('@'), Id(1)][1] == Id(1);
  }

  lemma Single(row: Row)
    requires Has(row, "id")
    ensures Keyed([row]) && IdsOf([row]) == {At(row, "id")} && forall x :: x in [row] <==> x == row
    ensures forall u :: HasId([row], u) <==> u == At(row, "id")
  {
    assert row in [row];
  }

  lemma StoreIsSound()
    ensures WellKeyed(SCHEMA, STORE) && UniqueIds(STORE) && NoDangling(SCHEMA, STORE)
    ensures HasId(STORE["sessions"], 1) && !HasId(STORE["sessions"], 2)
  {
    Entries();
    Single(SESSION);
    Single(NOTE);
    hide SCHEMA, STORE, SESSION, NOTE, Keyed, IdsOf, HasId, Has;
  }

  lemma SchemaIsSound()
    ensures SchemaOk(SCHEMA) && SelfKeysDeferred(SCHEMA)
  {
    Entries();
    assert |"sessions"| == 8 && |"notes"| == 5 && |"journey_stage_artifacts"| == 23;
    hide SCHEMA, STORE;
  }

  lemma NoteInText(rowsBy: RowsByTable)
    requires "notes" in rowsBy && rowsBy["notes"] == [NOTE]
    ensures SessionInText(rowsBy, 1) && CollectedId(SCHEMA, rowsBy, 2)
  {
    Entries();
    Single(NOTE);
    assert |"sessions"| == 8 && |"notes"| == 5 && |"journey_stage_artifacts"| == 23;
    assert |"deliverable_generation_jobs_v1"| == 30 && |"diagram_generation_jobs_v3"| == 26;
    assert |"product_build_runs_v1"| == 21 && |"body"| == 4 && |"session_id"| == 10;
    assert "body" !in SetColumns("notes");
    hide SCHEMA, STORE, NOTE, InText;
  }

  lemma Rows(rowsBy: RowsByTable, selected: Selection)
    requires IsCollection(SCHEMA, STORE, 1, selected, rowsBy)
    ensures rowsBy.Keys == {"sessions", "notes"} && rowsBy["notes"] == [NOTE]
  {
    Entries();
    assert |"sessions"| == 8 && |"notes"| == 5 && |"knowledge_documents"| == 19 && |"knowledge_sections"| == 18;
    WhereSingle(NOTE, "session_id", 1);
    hide SCHEMA, STORE, SESSION, NOTE, Where;
  }

  lemma WhereSingle(row: Row, c: Column, u: Uuid)
    requires Has(row, c) && At(row, c) == u
    ensures Where([row], c, {u}) == [row]
  {
    assert [row][..0] == [];
  }

  lemma NotesFollowSessions(rowsBy: RowsByTable)
    requires rowsBy.Keys == {"sessions", "notes"}
    ensures Orderable(SCHEMA, rowsBy)
  {
    Entries();
    hide SCHEMA, STORE;
    var g := FkGraph(SCHEMA, rowsBy.Keys);
    assert g["sessions"] == {} && g["notes"] <= {"sessions"};
    forall c ensures !Cycle(g, c) {
      if Walk(g, c) && |c| > 1 {
        assert c[0 + 1] in g[c[0]];
        assert |c| > 2 ==> c[1 + 1] in g[c[1]];
      }
    }
  }

  lemma DrawsAreFresh()
    ensures FreshDraws(STORE, 2, (n: nat) => n + 3)
  {
    Entries();
    Single(SESSION);
    Single(NOTE);
    hide SCHEMA, STORE, SESSION, NOTE, IdsOf;
  }

  /** The clone is accepted, its references are intact, and yet the note is no copy. */
  method NoteIsNoCopy(suffix: seq<Token>) returns (r: Result, ghost p: Plan, ghost rowsBy: RowsByTable)
    ensures r.Done? && NoDangling(SCHEMA, r.store) && !IsCopy(STORE, r.store, rowsBy, p.rs, 2)
  {
    StoreIsSound();
    SchemaIsSound();
    DrawsAreFresh();
    assert SCHEMA.Keys == STORE.Keys;
    hide *;
    r, p, rowsBy := CloneSession(SCHEMA, STORE, 1, 2, suffix, true, (n: nat) => n + 3);
    Rows(rowsBy, SelectedIds(SCHEMA, STORE, 1));
    NotesFollowSessions(rowsBy);
    NoteInText(rowsBy);
  }
}
