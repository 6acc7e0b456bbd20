/** What the sanitiser makes of a tree, value by value: everything but UUIDs and timestamps is kept. */
module SanitizerShape {
  import opened Names
  import opened Strings
  import opened Sanitizer

  /** A field `id` or `..._id`. */
  ghost predicate IdField(key: ParentKey) {
    key.Key? && (key.name == "id" || exists p: string :: key.name == p + "_id")
  }

  /** A field `..._at`. */
  ghost predicate TimeField(key: ParentKey) {
    key.Key? && exists p: string :: key.name == p + "_at"
  }

  lemma FieldsAre(key: ParentKey)
    ensures IsIdKey(key) <==> IdField(key)
    ensures IsAtKey(key) <==> TimeField(key)
  {
    if key.Key? {
      EndsWithIs(key.name, "_id");
      EndsWithIs(key.name, "_at");
    }
  }

  // ------------------------------------------------------- the UUIDs met, and their numbers

  /** The UUIDs of the text, from left to right. */
  ghost function UuidsIn(text: seq<Token>): seq<Uuid> {
    if text == [] then []
    else UuidsIn(text[..|text| - 1]) + if text[|text| - 1].Id? then [text[|text| - 1].raw] else []
  }

  /** The UUIDs of the tree that get an alias, in the order in which they are met. */
  ghost function Met(value: Json, key: ParentKey): seq<Uuid>
    decreases value, 1, 0
  {
    match value
    case Obj(entries) => MetInEntries(value, entries)
    case Arr(items) => MetInItems(value, items, key)
    case Str(text) => if TimeField(key) && !IdField(key) then []
                      else if IdField(key) && |text| != 1 then []
                      else UuidsIn(text)
    case _ => []
  }

  ghost function MetInItems(whole: Json, items: seq<Json>, key: ParentKey): seq<Uuid>
    requires forall i :: 0 <= i < |items| ==> items[i] < whole
    decreases whole, 0, |items|
  {
    if items == [] then []
    else MetInItems(whole, items[..|items| - 1], key) + Met(items[|items| - 1], key)
  }

  ghost function MetInEntries(whole: Json, entries: seq<(string, Json)>): seq<Uuid>
    requires forall i :: 0 <= i < |entries| ==> entries[i].1 < whole
    decreases whole, 0, |entries|
  {
    if entries == [] then []
    else
      var last := entries[|entries| - 1];
      MetInEntries(whole, entries[..|entries| - 1]) + Met(last.1, Key(last.0))
  }

  /** `n` is one more than the number of different UUIDs met before `u`. */
  ghost predicate Numbered(met: seq<Uuid>, u: Uuid, n: nat) {
    exists i :: 0 <= i < |met| && met[i] == u && u !in met[..i] && n == |Elems(met[..i])| + 1
  }

  // ------------------------------------------------------- the description

  ghost predicate Aliased(t: Token, u: Uuid, met: seq<Uuid>) {
    t.Alias? && Numbered(met, u, t.n)
  }

  /** A character is kept, a UUID gets its alias and a timestamp the mark. */
  ghost predicate TokenBecomes(a: Token, b: Token, met: seq<Uuid>) {
    match a
    case Id(u) => Aliased(b, u, met)
    case Stamp(_) => b == Mark
    case _ => b == a
  }

  ghost predicate TextBecomes(text: seq<Token>, out: seq<Token>, key: ParentKey, met: seq<Uuid>) {
    if IdField(key) then
      if |text| == 1 && text[0].Id? then |out| == 1 && Aliased(out[0], text[0].raw, met) else out == text
    else if TimeField(key) then out == [Mark]
    else |out| == |text| && forall i :: 0 <= i < |text| ==> TokenBecomes(text[i], out[i], met)
  }

  /** The same tree, but for its strings. */
  ghost predicate Becomes(value: Json, out: Json, key: ParentKey, met: seq<Uuid>) {
    match value
    case Null => out == Null
    case Bool(b) => out == Bool(b)
    case Number(n) => out == Number(n)
    case Str(text) => out.Str? && TextBecomes(text, out.text, key, met)
    case Arr(items) =>
      out.Arr? && |out.items| == |items| && forall i :: 0 <= i < |items| ==> Becomes(items[i], out.items[i], key, met)
    case Obj(entries) =>
      out.Obj? && |out.entries| == |entries| && forall i :: 0 <= i < |entries| ==>
        && out.entries[i].0 == entries[i].0
        && Becomes(entries[i].1, out.entries[i].1, Key(entries[i].0), met)
  }

  // ------------------------------------------------------- the registry

  /** The UUIDs met, each once, in the order first met. */
  ghost function Firsts(met: seq<Uuid>): Registry {
    if met == [] then [] else Register(Firsts(met[..|met| - 1]), met[|met| - 1])
  }

  lemma {:induction false} FirstsAre(met: seq<Uuid>)
    ensures Distinct(Firsts(met)) && Elems(Firsts(met)) == Elems(met) && |Firsts(met)| == |Elems(met)|
  {
    if met != [] {
      var init, x := met[..|met| - 1], met[|met| - 1];
      FirstsAre(init);
      assert met == init + [x];
      assert Elems(met) == Elems(init) + {x};
      assert x in Firsts(init) <==> x in Elems(Firsts(init));
    }
    DistinctSize(Firsts(met));
  }

  lemma {:induction false} FirstsAppend(a: seq<Uuid>, b: seq<Uuid>)
    ensures Firsts(a) <= Firsts(a + b)
    ensures b != [] ==> Firsts(a + b) == Register(Firsts(a + b[..|b| - 1]), b[|b| - 1])
  {
    if b == [] {
      assert a + b == a;
    } else {
      assert (a + b)[..|a + b| - 1] == a + b[..|b| - 1];
      FirstsAppend(a, b[..|b| - 1]);
    }
  }

  lemma NumberedMore(met: seq<Uuid>, all: seq<Uuid>, u: Uuid, n: nat)
    requires met <= all && Numbered(met, u, n)
    ensures Numbered(all, u, n)
  {
    var i :| 0 <= i < |met| && met[i] == u && u !in met[..i] && n == |Elems(met[..i])| + 1;
    assert all[..i] == met[..i];
  }

  /** The alias of a UUID that has been met is its number. */
  lemma {:induction false} AliasIsNumber(met: seq<Uuid>, u: Uuid)
    requires u in met
    ensures Numbered(met, u, IndexOf(Firsts(met), u) + 1)
  {
    hide IndexOf, Numbered;
    var init, x := met[..|met| - 1], met[|met| - 1];
    assert met == init + [x];
    FirstsAre(init);
    assert u in Firsts(init) <==> u in Elems(Firsts(init));
    if u in init {
      AliasIsNumber(init, u);
      FirstsAppend(init, [x]);
      IndexInPrefix(Firsts(init), Firsts(met), u);
      NumberedMore(init, met, u, IndexOf(Firsts(init), u) + 1);
    } else {
      IndexStable(Firsts(init), [u], u);
      NumberedLast(init, u);
    }
  }

  lemma NumberedLast(init: seq<Uuid>, u: Uuid)
    requires u !in init
    ensures Numbered(init + [u], u, |Elems(init)| + 1)
  {
    var met := init + [u];
    assert met[|init|] == u && met[..|init|] == init;
  }

  lemma AliasIsAliased(met: seq<Uuid>, all: seq<Uuid>, u: Uuid)
    requires met <= all && u in met
    ensures Aliased(AliasOf(Firsts(met), u), u, all)
  {
    hide Numbered, Firsts, IndexOf;
    AliasIsNumber(met, u);
    NumberedMore(met, all, u, IndexOf(Firsts(met), u) + 1);
  }

  lemma {:induction false} TextRegisters(met: seq<Uuid>, text: seq<Token>)
    ensures RegisterText(Firsts(met), text) == Firsts(met + UuidsIn(text))
  {
    if text == [] {
      assert met + [] == met;
    } else {
      var init, last := text[..|text| - 1], text[|text| - 1];
      TextRegisters(met, init);
      if last.Id? {
        FirstsAppend(met + UuidsIn(init), [last.raw]);
        assert met + UuidsIn(text) == met + UuidsIn(init) + [last.raw];
      } else {
        assert UuidsIn(text) == UuidsIn(init);
      }
    }
  }

  lemma {:induction false} UuidsAreIn(text: seq<Token>, i: nat)
    requires i < |text| && text[i].Id?
    ensures text[i].raw in UuidsIn(text)
  {
    if i < |text| - 1 { UuidsAreIn(text[..|text| - 1], i); }
  }

  /** A text that is one UUID is met, and aliased by the registry that does not hold it yet. */
  lemma WholeIsAliased(met: seq<Uuid>, text: seq<Token>, all: seq<Uuid>)
    requires WholeUuid(text) && met + UuidsIn(text) <= all
    ensures Register(Firsts(met), text[0].raw) == Firsts(met + UuidsIn(text))
    ensures Aliased(AliasOf(Firsts(met), text[0].raw), text[0].raw, all)
  {
    var u := text[0].raw;
    assert text[..0] == [] && UuidsIn(text) == [u];
    FirstsAppend(met, [u]);
    assert met + [u] == met + UuidsIn(text);
    AliasIsAliased(met + [u], all, u);
    if u !in Firsts(met) { IndexStable(Firsts(met), [u], u); }
  }

  /** Inside a longer text each token becomes what it should. */
  lemma TokensShape(text: seq<Token>, m: seq<Uuid>, all: seq<Uuid>)
    requires m <= all && forall u :: u in UuidsIn(text) ==> u in m
    ensures var out := SubText(Firsts(m), text);
            |out| == |text| && forall i :: 0 <= i < |text| ==> TokenBecomes(text[i], out[i], all)
  {
    hide AliasOf, Aliased, UuidsIn, Firsts;
    var out := SubText(Firsts(m), text);
    forall i | 0 <= i < |text| ensures TokenBecomes(text[i], out[i], all) {
      if text[i].Id? {
        UuidsAreIn(text, i);
        AliasIsAliased(m, all, text[i].raw);
      }
    }
  }

  lemma TextShape(text: seq<Token>, met: seq<Uuid>, key: ParentKey, all: seq<Uuid>)
    requires met + Met(Str(text), key) <= all
    ensures SanitizeText(text, Firsts(met), key).0 == Firsts(met + Met(Str(text), key))
    ensures TextBecomes(text, SanitizeText(text, Firsts(met), key).1, key, all)
  {
    hide AliasOf, Aliased, Register, IsIdKey, IsAtKey, IdField, TimeField, RegisterText, SubText, TokenBecomes,
         UuidsIn, Firsts;
    FieldsAre(key);
    assert met + [] == met;
    if IdField(key) && !WholeUuid(text) {
      NoUuid(text, key);
    } else if TimeField(key) && !IdField(key) {
    } else if WholeUuid(text) {
      WholeIsAliased(met, text, all);
      WholeBecomes(AliasOf(Firsts(met), text[0].raw), text[0].raw, all);
    } else {
      TextRegisters(met, text);
      TokensShape(text, met + UuidsIn(text), all);
    }
  }

  lemma WholeBecomes(t: Token, u: Uuid, all: seq<Uuid>)
    requires Aliased(t, u, all)
    ensures TokenBecomes(Id(u), t, all)
  {
  }

  lemma NoUuid(text: seq<Token>, key: ParentKey)
    requires IdField(key) && !WholeUuid(text)
    ensures Met(Str(text), key) == []
  {
    if |text| == 1 { assert text[..|text| - 1] == [] && UuidsIn(text[..|text| - 1]) == []; }
  }

  /** The sanitiser turns the tree into what is described, numbering the UUIDs from those met before. */
  lemma {:induction false} Shape(value: Json, met: seq<Uuid>, key: ParentKey, all: seq<Uuid>)
    requires met + Met(value, key) <= all
    ensures Sanitize(value, Firsts(met), key).0 == Firsts(met + Met(value, key))
    ensures Becomes(value, Sanitize(value, Firsts(met), key).1, key, all)
    decreases value, 1, 0
  {
    hide SanitizeText, TextBecomes;
    match value
    case Obj(entries) => EntriesShape(value, entries, met, all);
    case Arr(items) => ItemsShape(value, items, met, key, all);
    case Str(text) => TextShape(text, met, key, all);
    case _ => assert met + [] == met;
  }

  lemma {:induction false} ItemsShape(whole: Json, items: seq<Json>, met: seq<Uuid>, key: ParentKey, all: seq<Uuid>)
    requires (forall i :: 0 <= i < |items| ==> items[i] < whole) && met + MetInItems(whole, items, key) <= all
    ensures var (r, out) := SanitizeItems(whole, items, Firsts(met), key);
            && r == Firsts(met + MetInItems(whole, items, key)) && |out| == |items|
            && forall i :: 0 <= i < |items| ==> Becomes(items[i], out[i], key, all)
    decreases whole, 0, |items|
  {
    hide Becomes, Sanitize, Met, Firsts;
    if items == [] {
      assert met + [] == met;
    } else {
      var init, last := items[..|items| - 1], items[|items| - 1];
      var before := met + MetInItems(whole, init, key);
      assert met + MetInItems(whole, items, key) == before + Met(last, key);
      ItemsShape(whole, init, met, key, all);
      Shape(last, before, key, all);
    }
  }

  lemma {:induction false} EntriesShape(whole: Json, entries: seq<(string, Json)>, met: seq<Uuid>, all: seq<Uuid>)
    requires (forall i :: 0 <= i < |entries| ==> entries[i].1 < whole) && met + MetInEntries(whole, entries) <= all
    ensures var (r, out) := SanitizeEntries(whole, entries, Firsts(met));
            && r == Firsts(met + MetInEntries(whole, entries)) && |out| == |entries|
            && forall i :: 0 <= i < |entries| ==>
                 out[i].0 == entries[i].0 && Becomes(entries[i].1, out[i].1, Key(entries[i].0), all)
    decreases whole, 0, |entries|
  {
    hide Becomes, Sanitize, Met, Firsts;
    if entries == [] {
      assert met + [] == met;
    } else {
      var init, last := entries[..|entries| - 1], entries[|entries| - 1];
      var before := met + MetInEntries(whole, init);
      assert met + MetInEntries(whole, entries) == before + Met(last.1, Key(last.0));
      EntriesShape(whole, init, met, all);
      Shape(last.1, before, Key(last.0), all);
    }
  }

  lemma {:induction false} FirstsOfDistinct(order: Registry)
    requires Distinct(order)
    ensures Firsts(order) == order
  {
    if order != [] {
      var init, last := order[..|order| - 1], order[|order| - 1];
      FirstsOfDistinct(init);
      assert order == init + [last];
    }
  }
}
