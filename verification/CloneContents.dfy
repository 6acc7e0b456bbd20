/** What the clone of a row holds, column by column and in words of the stored row alone. */
module CloneContents {
  import opened Relational
  import opened Remap
  import opened Cloner
  import opened IdempotencyKeys
  import Strings

  // ------------------------------------------------------- the session's own row

  /** The stored title, or the script's own when there is none. */
  ghost predicate StoredTitle(row: Row, title: seq<Token>) {
    if "title" in row && row["title"].Text? && row["title"].tokens != [] then title == row["title"].tokens
    else title == Chars("Proyecto sin titulo")
  }

  /** The clone's title: the stored one, trimmed, a blank and the suffix, trimmed again. */
  ghost predicate NewTitle(row: Row, suffix: seq<Token>, title: seq<Token>) {
    exists stored: seq<Token>, core: seq<Token> ::
      && StoredTitle(row, stored) && Strings.TrimsTo(stored, WHITE, core)
      && Strings.TrimsTo(core + [Ch(' ')] + suffix, WHITE, title)
  }

  /** The session lives again, under the target's id, a new title and a later version. */
  ghost predicate LiveSession(row: Row, copy: Row, target: Uuid, suffix: seq<Token>) {
    && Holds(copy, "id", Ref(target))
    && "title" in copy && copy["title"].Text? && NewTitle(row, suffix, copy["title"].tokens)
    && Holds(copy, "suggested_title", copy["title"])
    && Holds(copy, "title_source", Text(Chars("migrated")))
    && "row_version" in copy && LaterVersion(row, copy["row_version"])
    && Holds(copy, "archived_at", Null) && Holds(copy, "archived_by_user_id", Null)
    && Holds(copy, "deleted_at", Null) && Holds(copy, "deleted_by_user_id", Null)
  }

  predicate Holds(row: Row, c: Column, v: Value) {
    c in row && row[c] == v
  }

  /** One more than the stored version; a version that is missing or 0 counts as 1. */
  ghost predicate LaterVersion(row: Row, v: Value) {
    if "row_version" in row && row["row_version"].Number? && row["row_version"].n != 0
    then v == Number(row["row_version"].n + 1)
    else v == Number(2)
  }

  /** A trimmed title is followed by a blank and the trimmed suffix. */
  lemma TrimmedTitle(row: Row, suffix: seq<Token>, title: seq<Token>)
    requires NewTitle(row, suffix, title)
    requires "title" in row && row["title"].Text? && row["title"].tokens != [] && suffix != []
    requires row["title"].tokens[0] !in WHITE && row["title"].tokens[|row["title"].tokens| - 1] !in WHITE
    requires suffix[|suffix| - 1] !in WHITE
    ensures title == row["title"].tokens + [Ch(' ')] + suffix
  {
    var stored: seq<Token>, core: seq<Token> :|
      && StoredTitle(row, stored) && Strings.TrimsTo(stored, WHITE, core)
      && Strings.TrimsTo(core + [Ch(' ')] + suffix, WHITE, title);
    assert stored == row["title"].tokens;
    hide Strings.TrimsTo, StoredTitle, NewTitle, Chars;
    Strings.TrimmedAlready(stored, WHITE);
    Strings.TrimIsUnique(stored, WHITE, core, stored);
    var long := stored + [Ch(' ')] + suffix;
    Strings.TrimmedAlready(long, WHITE);
    Strings.TrimIsUnique(long, WHITE, title, long);
  }

  lemma TitleIsNew(row: Row, suffix: seq<Token>)
    ensures NewTitle(row, suffix, CloneTitle(row, suffix))
  {
    hide Strings.TrimsTo, Strings.Trim, Chars;
    var stored := if "title" in row && row["title"].Text? && row["title"].tokens != []
                  then row["title"].tokens else Chars("Proyecto sin titulo");
    assert StoredTitle(row, stored);
    Strings.TrimTrims(stored, WHITE);
    Strings.TrimTrims(Strip(stored) + [Ch(' ')] + suffix, WHITE);
  }

  lemma ColumnLengths()
    ensures |"id"| == 2 && |"title"| == 5 && |"suggested_title"| == 15 && |"title_source"| == 12
    ensures |"row_version"| == 11 && |"archived_at"| == 11 && "archived_at"[0] != "row_version"[0]
    ensures |"archived_by_user_id"| == 19 && |"deleted_at"| == 10 && |"deleted_by_user_id"| == 18
  {
  }

  lemma EachOverride(row: Row, target: Uuid, suffix: seq<Token>)
    ensures var o := SessionOverrides(row, target, suffix);
            && Holds(o, "id", Ref(target)) && Holds(o, "title", Text(CloneTitle(row, suffix)))
            && Holds(o, "suggested_title", Text(CloneTitle(row, suffix)))
            && Holds(o, "title_source", Text(Chars("migrated"))) && Holds(o, "row_version", Number(NextVersion(row)))
            && Holds(o, "archived_at", Null) && Holds(o, "archived_by_user_id", Null)
            && Holds(o, "deleted_at", Null) && Holds(o, "deleted_by_user_id", Null)
  {
    ColumnLengths();
    hide CloneTitle, Chars, NextVersion;
  }

  lemma OverridesAre(row: Row, target: Uuid, suffix: seq<Token>)
    ensures LiveSession(row, SessionOverrides(row, target, suffix), target, suffix)
  {
    TitleIsNew(row, suffix);
    EachOverride(row, target, suffix);
    assert LaterVersion(row, Number(NextVersion(row)));
    hide CloneTitle, NewTitle, Chars, NextVersion, LaterVersion, SessionOverrides;
  }

  lemma MoreColumnsStayLive(row: Row, live: Row, copy: Row, target: Uuid, suffix: seq<Token>)
    requires LiveSession(row, live, target, suffix) && forall c :: c in live ==> c in copy && copy[c] == live[c]
    ensures LiveSession(row, copy, target, suffix)
  {
    hide NewTitle, LaterVersion, Chars;
  }

  lemma SessionLives(row: Row, rs: Items, target: Uuid, suffix: seq<Token>)
    ensures LiveSession(row, ClonedRow("sessions", row, rs, target, suffix), target, suffix)
  {
    hide ClonedRow, SessionOverrides, LiveSession;
    OverridesAre(row, target, suffix);
    var live, copy := SessionOverrides(row, target, suffix), ClonedRow("sessions", row, rs, target, suffix);
    forall c | c in live ensures c in copy && copy[c] == live[c] {
      OverridesAreSet(row, rs, target, suffix, c);
    }
    MoreColumnsStayLive(row, live, copy, target, suffix);
  }

  // ------------------------------------------------------- every row

  predicate SelfReference(t: Table, c: Column) {
    t == "journey_stage_artifacts" && (c == "based_on_artifact_id" || c == "superseded_by_artifact_id")
  }

  predicate MarkedColumn(t: Table, c: Column) {
    c == "idempotency_key" && (t == "deliverable_generation_jobs_v1" || t == "diagram_generation_jobs_v3"
                               || t == "product_build_runs_v1")
  }

  predicate SessionColumn(t: Table, c: Column) {
    t == "sessions" && (c == "id" || c == "title" || c == "suggested_title" || c == "title_source"
                        || c == "row_version" || c == "archived_at" || c == "archived_by_user_id"
                        || c == "deleted_at" || c == "deleted_by_user_id")
  }

  /** `v` stands in column `c` of the clone of `row`. */
  ghost predicate ClonedCell(t: Table, row: Row, c: Column, v: Value, rs: Items, target: Uuid)
    requires c in row
  {
    if c == "session_id" then v == Ref(target)
    else if SelfReference(t, c) then
      v == if row[c].Ref? && IsKey(rs, row[c].id) then Ref(Mapped(rs, row[c].id)) else Null
    else if MarkedColumn(t, c) then MarkedCell(Remapped(row[c], rs), v, target)
    else SessionColumn(t, c) || v == Remapped(row[c], rs)
  }

  /** A key that is text, and not empty, is followed by the clone's mark. */
  ghost predicate MarkedCell(key: Value, v: Value, target: Uuid) {
    if key.Text? && key.tokens != [] then v == Text(key.tokens + Chars("::clone::") + [Short(target)]) else v == key
  }

  /** The clone has the columns of the row, and a session those that are set anew. */
  ghost predicate ClonedAs(t: Table, row: Row, copy: Row, rs: Items, target: Uuid, suffix: seq<Token>) {
    && row.Keys <= copy.Keys && (t != "sessions" ==> copy.Keys == row.Keys)
    && (forall c :: c in row ==> ClonedCell(t, row, c, copy[c], rs, target))
    && (t == "sessions" ==> LiveSession(row, copy, target, suffix))
  }

  /** The columns that are not simply remapped, by name. */
  lemma SetColumnsAre(t: Table, c: Column)
    ensures c in SetColumns(t) <==>
            c == "session_id" || SelfReference(t, c) || MarkedColumn(t, c) || SessionColumn(t, c)
    ensures c in SelfFields(t) <==> SelfReference(t, c)
  {
  }

  lemma KeysAreKept(t: Table, row: Row, rs: Items, target: Uuid, suffix: seq<Token>)
    requires t != "sessions"
    ensures ClonedRow(t, row, rs, target, suffix).Keys == row.Keys
  {
    hide Remapped, Chars, IsKey, Mapped, SelfFields;
  }

  lemma KeyIsMarked(t: Table, row: Row, rs: Items, target: Uuid, suffix: seq<Token>)
    requires MarkedColumn(t, "idempotency_key") && "idempotency_key" in row
    requires "idempotency_key" in ClonedRow(t, row, rs, target, suffix)
    ensures MarkedCell(Remapped(row["idempotency_key"], rs), ClonedRow(t, row, rs, target, suffix)["idempotency_key"],
                       target)
  {
    MarkedKey(t, row, rs, target, suffix);
    RemappedKinds(row["idempotency_key"], rs);
    hide ClonedRow, Remapped, Chars, MarkedColumn;
  }

  /** The clone of a row holds that, and nothing else. */
  lemma ClonedRowIs(t: Table, row: Row, rs: Items, target: Uuid, suffix: seq<Token>)
    ensures ClonedAs(t, row, ClonedRow(t, row, rs, target, suffix), rs, target, suffix)
  {
    var copy := ClonedRow(t, row, rs, target, suffix);
    if t == "sessions" { SessionLives(row, rs, target, suffix); } else { KeysAreKept(t, row, rs, target, suffix); }
    ClonedColumns(t, row, rs, target, suffix, "id");
    SelfFieldsAreOther(t);
    hide ClonedRow, Remapped, Mapped, IsKey, SetColumns, SelfFields, LiveSession, SelfReference, MarkedColumn,
         SessionColumn, MarkedCell;
    forall c | c in row ensures ClonedCell(t, row, c, copy[c], rs, target) {
      ClonedColumns(t, row, rs, target, suffix, c);
      SetColumnsAre(t, c);
      SetColumnsAre(t, "session_id");
      if MarkedColumn(t, c) && c != "session_id" && !SelfReference(t, c) {
        MarkedIsKey(t, c);
        KeyIsMarked(t, row, rs, target, suffix);
      }
    }
  }

  lemma MarkedIsKey(t: Table, c: Column)
    requires MarkedColumn(t, c)
    ensures c == "idempotency_key"
  {
  }
}
