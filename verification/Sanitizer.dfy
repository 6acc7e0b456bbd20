/** The snapshot sanitiser of `scripts/generate_stage0_baseline.py`. */
module Sanitizer {
  import opened Names
  import opened Strings

  type Uuid = string

  /** Raw text is characters, UUIDs and timestamps; sanitised text has aliases and marks instead. */
  datatype Token = Ch(c: char) | Id(raw: Uuid) | Stamp(at: string) | Alias(n: nat) | Mark

  datatype Json =
    | Null
    | Bool(b: bool)
    | Number(n: int)
    | Str(text: seq<Token>)
    | Arr(items: seq<Json>)
    | Obj(entries: seq<(string, Json)>)

  /** The registry: each UUID met so far, in the order of its alias. */
  type Registry = seq<Uuid>

  datatype ParentKey = NoKey | Key(name: string)

  predicate IsIdKey(key: ParentKey) {
    key.Key? && (key.name == "id" || EndsWith(key.name, "_id"))
  }

  predicate IsAtKey(key: ParentKey) {
    key.Key? && EndsWith(key.name, "_at")
  }

  // ------------------------------------------------------- the sanitiser

  /** The position of `raw` in the registry, or the next free one. */
  function IndexOf(registry: Registry, raw: Uuid): (i: nat)
    ensures i <= |registry|
    ensures i < |registry| <==> raw in registry
    ensures i < |registry| ==> registry[i] == raw
  {
    if registry == [] then 0 else if registry[0] == raw then 0 else 1 + IndexOf(registry[1..], raw)
  }

  function Register(registry: Registry, raw: Uuid): Registry {
    if raw in registry then registry else registry + [raw]
  }

  /** `alias_uuid`: `<uuid-n>`, counting from one. */
  function AliasOf(registry: Registry, raw: Uuid): Token {
    Alias(IndexOf(registry, raw) + 1)
  }

  /** The UUIDs of the text, met one after the other. */
  function RegisterText(registry: Registry, text: seq<Token>): Registry {
    if text == [] then registry
    else
      var before := RegisterText(registry, text[..|text| - 1]);
      if text[|text| - 1].Id? then Register(before, text[|text| - 1].raw) else before
  }

  /** Every UUID replaced by its alias in the final registry, every timestamp by the mark. */
  function SubText(registry: Registry, text: seq<Token>): seq<Token> {
    seq(|text|, i requires 0 <= i < |text| =>
      match text[i]
      case Id(raw) => AliasOf(registry, raw)
      case Stamp(_) => Mark
      case t => t)
  }

  predicate WholeUuid(text: seq<Token>) {
    |text| == 1 && text[0].Id?
  }

  /** The branch for strings; the new registry and the sanitised text. */
  function SanitizeText(text: seq<Token>, registry: Registry, key: ParentKey): (Registry, seq<Token>) {
    if IsIdKey(key) then
      if WholeUuid(text) then (Register(registry, text[0].raw), [AliasOf(registry, text[0].raw)]) else (registry, text)
    else if IsAtKey(key) then (registry, [Mark])
    else if WholeUuid(text) then (Register(registry, text[0].raw), [AliasOf(registry, text[0].raw)])
    else (RegisterText(registry, text), SubText(RegisterText(registry, text), text))
  }

  /** `sanitize_value`, with the registry threaded through the traversal. */
  function Sanitize(value: Json, registry: Registry, key: ParentKey): (Registry, Json)
    decreases value, 1, 0
  {
    match value
    case Obj(entries) => var (r, out) := SanitizeEntries(value, entries, registry); (r, Obj(out))
    case Arr(items) => var (r, out) := SanitizeItems(value, items, registry, key); (r, Arr(out))
    case Str(text) => var (r, out) := SanitizeText(text, registry, key); (r, Str(out))
    case _ => (registry, value)
  }

  function SanitizeItems(whole: Json, items: seq<Json>, registry: Registry, key: ParentKey): (Registry, seq<Json>)
    requires forall i :: 0 <= i < |items| ==> items[i] < whole
    decreases whole, 0, |items|
  {
    if items == [] then (registry, [])
    else
      var (r, out) := SanitizeItems(whole, items[..|items| - 1], registry, key);
      var (r', last) := Sanitize(items[|items| - 1], r, key);
      (r', out + [last])
  }

  function SanitizeEntries(whole: Json, entries: seq<(string, Json)>, registry: Registry): (Registry,
                           seq<(string, Json)>)
    requires forall i :: 0 <= i < |entries| ==> entries[i].1 < whole
    decreases whole, 0, |entries|
  {
    if entries == [] then (registry, [])
    else
      var (r, out) := SanitizeEntries(whole, entries[..|entries| - 1], registry);
      var last := entries[|entries| - 1];
      var (r', item) := Sanitize(last.1, r, Key(last.0));
      (r', out + [(last.0, item)])
  }

  // ------------------------------------------------------- alike up to UUIDs and timestamps

  /** A renaming of UUIDs. */
  type Renaming = map<Uuid, Uuid>

  ghost predicate Injective(f: Renaming) {
    forall x, y :: x in f && y in f && f[x] == f[y] ==> x == y
  }

  predicate AlikeToken(a: Token, b: Token, key: ParentKey, f: Renaming) {
    match a
    case Id(x) => b.Id? && x in f && f[x] == b.raw
    case Stamp(_) => if IsIdKey(key) then b == a else b.Stamp?
    case _ => b == a
  }

  predicate AlikeText(s: seq<Token>, t: seq<Token>, key: ParentKey, f: Renaming) {
    (IsAtKey(key) && !IsIdKey(key)) || (|s| == |t| && forall i :: 0 <= i < |s| ==> AlikeToken(s[i], t[i], key, f))
  }

  /**
   The trees differ only by the renaming `f` of UUIDs, by timestamps outside id fields, and
   by the strings of `_at` fields.
   */
  predicate Alike(v: Json, w: Json, key: ParentKey, f: Renaming)
    decreases v
  {
    match v
    case Obj(xs) =>
      w.Obj? && |xs| == |w.entries| &&
      forall i :: 0 <= i < |xs| ==> xs[i].0 == w.entries[i].0 && Alike(xs[i].1, w.entries[i].1, Key(xs[i].0), f)
    case Arr(xs) => w.Arr? && |xs| == |w.items| && forall i :: 0 <= i < |xs| ==> Alike(xs[i], w.items[i], key, f)
    case Str(s) => w.Str? && AlikeText(s, w.text, key, f)
    case _ => w == v
  }

  /** Raw text; in an id field it is one UUID or holds none. */
  predicate PlainText(text: seq<Token>, key: ParentKey) {
    && (forall i :: 0 <= i < |text| ==> text[i].Ch? || text[i].Id? || text[i].Stamp?)
    && (IsIdKey(key) ==> WholeUuid(text) || forall i :: 0 <= i < |text| ==> !text[i].Id?)
  }

  predicate Plain(v: Json, key: ParentKey)
    decreases v
  {
    match v
    case Obj(xs) => forall i :: 0 <= i < |xs| ==> Plain(xs[i].1, Key(xs[i].0))
    case Arr(xs) => forall i :: 0 <= i < |xs| ==> Plain(xs[i], key)
    case Str(s) => PlainText(s, key)
    case _ => true
  }

  // ------------------------------------------------------- the registry only grows

  lemma {:induction false} IndexStable(r: Registry, more: Registry, raw: Uuid)
    ensures raw in r ==> IndexOf(r + more, raw) == IndexOf(r, raw)
    ensures raw !in r ==> IndexOf(r + more, raw) >= |r|
    ensures raw !in r && more != [] && more[0] == raw ==> IndexOf(r + more, raw) == |r|
  {
    if r != [] {
      assert (r + more)[1..] == r[1..] + more;
      assert r == [r[0]] + r[1..];
      IndexStable(r[1..], more, raw);
    } else {
      assert r + more == more;
    }
  }

  lemma IndexInPrefix(r: Registry, all: Registry, raw: Uuid)
    requires r <= all
    ensures raw in r <==> IndexOf(all, raw) < |r|
    ensures raw in r ==> IndexOf(all, raw) == IndexOf(r, raw)
  {
    assert all == r + all[|r|..];
    IndexStable(r, all[|r|..], raw);
  }

  lemma {:induction false} RegisterTextGrows(r: Registry, text: seq<Token>)
    requires Distinct(r)
    ensures r <= RegisterText(r, text) && Distinct(RegisterText(r, text))
    ensures forall i :: 0 <= i < |text| && text[i].Id? ==> text[i].raw in RegisterText(r, text)
  {
    if text != [] {
      var init := text[..|text| - 1];
      RegisterTextGrows(r, init);
      forall i | 0 <= i < |text| && text[i].Id? ensures text[i].raw in RegisterText(r, text) {
        if i < |init| { assert init[i] == text[i]; }
      }
    }
  }

  lemma {:induction false} SanitizeGrows(v: Json, r: Registry, key: ParentKey)
    requires Distinct(r)
    ensures r <= Sanitize(v, r, key).0 && Distinct(Sanitize(v, r, key).0)
    decreases v, 1, 0
  {
    match v
    case Obj(xs) => EntriesGrow(v, xs, r);
    case Arr(xs) => ItemsGrow(v, xs, r, key);
    case Str(s) => RegisterTextGrows(r, s);
    case _ =>
  }

  lemma {:induction false} ItemsGrow(v: Json, xs: seq<Json>, r: Registry, key: ParentKey)
    requires Distinct(r) && forall i :: 0 <= i < |xs| ==> xs[i] < v
    ensures r <= SanitizeItems(v, xs, r, key).0 && Distinct(SanitizeItems(v, xs, r, key).0)
    decreases v, 0, |xs|
  {
    if xs != [] {
      ItemsGrow(v, xs[..|xs| - 1], r, key);
      SanitizeGrows(xs[|xs| - 1], SanitizeItems(v, xs[..|xs| - 1], r, key).0, key);
    }
  }

  lemma {:induction false} EntriesGrow(v: Json, xs: seq<(string, Json)>, r: Registry)
    requires Distinct(r) && forall i :: 0 <= i < |xs| ==> xs[i].1 < v
    ensures r <= SanitizeEntries(v, xs, r).0 && Distinct(SanitizeEntries(v, xs, r).0)
    decreases v, 0, |xs|
  {
    if xs != [] {
      var last := xs[|xs| - 1];
      EntriesGrow(v, xs[..|xs| - 1], r);
      SanitizeGrows(last.1, SanitizeEntries(v, xs[..|xs| - 1], r).0, Key(last.0));
    }
  }

  // ------------------------------------------------------- alike trees sanitise equal

  /** The one registry is the other one renamed. */
  ghost predicate Renamed(f: Renaming, r1: Registry, r2: Registry) {
    |r1| == |r2| && forall i :: 0 <= i < |r1| ==> r1[i] in f && f[r1[i]] == r2[i]
  }

  lemma {:induction false} SameIndex(f: Renaming, r1: Registry, r2: Registry, x: Uuid)
    requires Injective(f) && Renamed(f, r1, r2) && x in f
    ensures IndexOf(r1, x) == IndexOf(r2, f[x])
    ensures Renamed(f, Register(r1, x), Register(r2, f[x]))
  {
    IndexRenamed(f, r1, r2, x);
  }

  lemma {:induction false} IndexRenamed(f: Renaming, r1: Registry, r2: Registry, x: Uuid)
    requires Injective(f) && Renamed(f, r1, r2) && x in f
    ensures IndexOf(r1, x) == IndexOf(r2, f[x])
  {
    if r1 != [] && r1[0] != x {
      IndexRenamed(f, r1[1..], r2[1..], x);
    }
  }

  lemma {:induction false} TextRenamed(f: Renaming, r1: Registry, r2: Registry, s: seq<Token>, t: seq<Token>,
                                       key: ParentKey)
    requires Injective(f) && Renamed(f, r1, r2) && |s| == |t|
    requires forall i :: 0 <= i < |s| ==> AlikeToken(s[i], t[i], key, f)
    ensures Renamed(f, RegisterText(r1, s), RegisterText(r2, t))
  {
    if s != [] {
      var n := |s| - 1;
      TextRenamed(f, r1, r2, s[..n], t[..n], key);
      if s[n].Id? {
        SameIndex(f, RegisterText(r1, s[..n]), RegisterText(r2, t[..n]), s[n].raw);
      }
    }
  }

  lemma AlikeTextSanitizes(f: Renaming, r1: Registry, r2: Registry, s: seq<Token>, t: seq<Token>, key: ParentKey)
    requires Injective(f) && Renamed(f, r1, r2) && AlikeText(s, t, key, f) && PlainText(s, key) && PlainText(t, key)
    ensures Renamed(f, SanitizeText(s, r1, key).0, SanitizeText(t, r2, key).0)
    ensures SanitizeText(s, r1, key).1 == SanitizeText(t, r2, key).1
  {
    if !(IsAtKey(key) && !IsIdKey(key)) {
      if WholeUuid(s) {
        SameIndex(f, r1, r2, s[0].raw);
      } else if !IsIdKey(key) {
        TextRenamed(f, r1, r2, s, t, key);
        var q1, q2 := RegisterText(r1, s), RegisterText(r2, t);
        forall i | 0 <= i < |s| && s[i].Id? ensures AliasOf(q1, s[i].raw) == AliasOf(q2, t[i].raw) {
          IndexRenamed(f, q1, q2, s[i].raw);
        }
        assert SubText(q1, s) == SubText(q2, t);
      } else {
        assert s == t;
      }
    }
  }

  lemma {:induction false} AlikeSanitizes(v: Json, w: Json, r1: Registry, r2: Registry, key: ParentKey, f: Renaming)
    requires Injective(f) && Renamed(f, r1, r2) && Alike(v, w, key, f) && Plain(v, key) && Plain(w, key)
    ensures Renamed(f, Sanitize(v, r1, key).0, Sanitize(w, r2, key).0)
    ensures Sanitize(v, r1, key).1 == Sanitize(w, r2, key).1
    decreases v, 1, 0
  {
    match v
    case Obj(xs) => AlikeEntries(v, w, xs, w.entries, r1, r2, f);
    case Arr(xs) => AlikeItems(v, w, xs, w.items, r1, r2, key, f);
    case Str(s) => AlikeTextSanitizes(f, r1, r2, s, w.text, key);
    case _ =>
  }

  lemma {:induction false} AlikeItems(v: Json, w: Json, xs: seq<Json>, ys: seq<Json>, r1: Registry, r2: Registry,
                                      key: ParentKey, f: Renaming)
    requires |xs| == |ys| && forall i :: 0 <= i < |xs| ==> xs[i] < v && ys[i] < w
    requires Injective(f) && Renamed(f, r1, r2)
    requires forall i :: 0 <= i < |xs| ==> Alike(xs[i], ys[i], key, f) && Plain(xs[i], key) && Plain(ys[i], key)
    ensures Renamed(f, SanitizeItems(v, xs, r1, key).0, SanitizeItems(w, ys, r2, key).0)
    ensures SanitizeItems(v, xs, r1, key).1 == SanitizeItems(w, ys, r2, key).1
    decreases v, 0, |xs|
  {
    if xs != [] {
      var n := |xs| - 1;
      AlikeItems(v, w, xs[..n], ys[..n], r1, r2, key, f);
      AlikeSanitizes(xs[n], ys[n], SanitizeItems(v, xs[..n], r1, key).0, SanitizeItems(w, ys[..n], r2, key).0, key, f);
    }
  }

  lemma {:induction false} AlikeEntries(v: Json, w: Json, xs: seq<(string, Json)>, ys: seq<(string, Json)>,
                                        r1: Registry, r2: Registry, f: Renaming)
    requires |xs| == |ys| && forall i :: 0 <= i < |xs| ==> xs[i].1 < v && ys[i].1 < w
    requires Injective(f) && Renamed(f, r1, r2)
    requires forall i :: 0 <= i < |xs| ==> xs[i].0 == ys[i].0 && Alike(xs[i].1, ys[i].1, Key(xs[i].0), f)
    requires forall i :: 0 <= i < |xs| ==> Plain(xs[i].1, Key(xs[i].0)) && Plain(ys[i].1, Key(ys[i].0))
    ensures Renamed(f, SanitizeEntries(v, xs, r1).0, SanitizeEntries(w, ys, r2).0)
    ensures SanitizeEntries(v, xs, r1).1 == SanitizeEntries(w, ys, r2).1
    decreases v, 0, |xs|
  {
    if xs != [] {
      var n := |xs| - 1;
      AlikeEntries(v, w, xs[..n], ys[..n], r1, r2, f);
      AlikeSanitizes(xs[n].1, ys[n].1, SanitizeEntries(v, xs[..n], r1).0, SanitizeEntries(w, ys[..n], r2).0,
                     Key(xs[n].0), f);
    }
  }

  // ------------------------------------------------------- equal outcomes come from alike trees

  /** Equal sanitised prefixes have registered equally many UUIDs. */
  lemma {:induction false} TextAligned(r1: Registry, r2: Registry, s: seq<Token>, t: seq<Token>, k: nat)
    requires Distinct(r1) && Distinct(r2) && |r1| == |r2| && |s| == |t| && k <= |s|
    requires forall i :: 0 <= i < |s| ==> (s[i].Ch? || s[i].Id? || s[i].Stamp?) && (t[i].Ch? || t[i].Id? || t[i].Stamp?)
    requires SubText(RegisterText(r1, s), s) == SubText(RegisterText(r2, t), t)
    ensures |RegisterText(r1, s[..k])| == |RegisterText(r2, t[..k])|
    ensures RegisterText(r1, s[..k]) <= RegisterText(r1, s) && RegisterText(r2, t[..k]) <= RegisterText(r2, t)
    decreases k
  {
    TextPrefix(r1, s, k);
    TextPrefix(r2, t, k);
    if k > 0 {
      var n := k - 1;
      TextAligned(r1, r2, s, t, n);
      assert s[..k][..n] == s[..n] && t[..k][..n] == t[..n];
      var q1, q2 := RegisterText(r1, s), RegisterText(r2, t);
      assert SubText(q1, s)[n] == SubText(q2, t)[n];
      if s[n].Id? {
        IndexInPrefix(RegisterText(r1, s[..n]), q1, s[n].raw);
        IndexInPrefix(RegisterText(r2, t[..n]), q2, t[n].raw);
      }
    }
  }

  lemma {:induction false} TextPrefix(r: Registry, text: seq<Token>, k: nat)
    requires k <= |text|
    ensures RegisterText(r, text[..k]) <= RegisterText(r, text)
    decreases |text|
  {
    if k < |text| {
      var init := text[..|text| - 1];
      assert init[..k] == text[..k];
      TextPrefix(r, init, k);
    } else {
      assert text[..k] == text;
    }
  }

  /** The shortcut for a whole UUID agrees with substitution inside text. */
  lemma WholeIsGeneral(r: Registry, text: seq<Token>, key: ParentKey)
    requires !IsIdKey(key) && !IsAtKey(key)
    ensures SanitizeText(text, r, key) == (RegisterText(r, text), SubText(RegisterText(r, text), text))
  {
    if WholeUuid(text) {
      var x := text[0].raw;
      var q := Register(r, x);
      assert text == [Id(x)] && text[..0] == [];
      assert RegisterText(r, text) == q;
      IndexStable(r, [x], x);
      assert AliasOf(q, x) == AliasOf(r, x);
      assert SubText(q, text) == [AliasOf(q, x)];
    }
  }

  lemma TextComesFromAlike(r1: Registry, r2: Registry, s: seq<Token>, t: seq<Token>, key: ParentKey)
    requires Distinct(r1) && Distinct(r2) && |r1| == |r2| && PlainText(s, key) && PlainText(t, key)
    requires SanitizeText(s, r1, key).1 == SanitizeText(t, r2, key).1
    ensures |SanitizeText(s, r1, key).0| == |SanitizeText(t, r2, key).0|
    ensures forall f :: Renamed(f, SanitizeText(s, r1, key).0, SanitizeText(t, r2, key).0) ==> AlikeText(s, t, key, f)
  {
    if IsIdKey(key) {
      assert SanitizeText(s, r1, key).1 != [] && SanitizeText(t, r2, key).1 != [] ==>
          SanitizeText(s, r1, key).1[0] == SanitizeText(t, r2, key).1[0];
      if WholeUuid(s) && WholeUuid(t) {
        var x, y := s[0].raw, t[0].raw;
        IndexInPrefix(r1, Register(r1, x), x);
        IndexInPrefix(r2, Register(r2, y), y);
      }
    } else if !IsAtKey(key) {
      WholeIsGeneral(r1, s, key);
      WholeIsGeneral(r2, t, key);
      GeneralText(r1, r2, s, t, key);
    }
  }

  lemma GeneralText(r1: Registry, r2: Registry, s: seq<Token>, t: seq<Token>, key: ParentKey)
    requires Distinct(r1) && Distinct(r2) && |r1| == |r2| && !IsIdKey(key) && PlainText(s, key) && PlainText(t, key)
    requires SubText(RegisterText(r1, s), s) == SubText(RegisterText(r2, t), t)
    ensures |RegisterText(r1, s)| == |RegisterText(r2, t)|
    ensures forall f :: Renamed(f, RegisterText(r1, s), RegisterText(r2, t)) ==> AlikeText(s, t, key, f)
  {
    var q1, q2 := RegisterText(r1, s), RegisterText(r2, t);
    assert |s| == |SubText(q1, s)| == |SubText(q2, t)| == |t|;
    TextAligned(r1, r2, s, t, |s|);
    assert s[..|s|] == s && t[..|t|] == t;
    RegisterTextGrows(r1, s);
    RegisterTextGrows(r2, t);
    forall f | Renamed(f, q1, q2) ensures AlikeText(s, t, key, f) {
      forall i | 0 <= i < |s| ensures AlikeToken(s[i], t[i], key, f) {
        assert SubText(q1, s)[i] == SubText(q2, t)[i];
      }
    }
  }

  lemma {:induction false} EqualComesFromAlike(v: Json, w: Json, r1: Registry, r2: Registry, key: ParentKey)
    requires Distinct(r1) && Distinct(r2) && |r1| == |r2| && Plain(v, key) && Plain(w, key)
    requires Sanitize(v, r1, key).1 == Sanitize(w, r2, key).1
    ensures |Sanitize(v, r1, key).0| == |Sanitize(w, r2, key).0|
    ensures forall f :: Renamed(f, Sanitize(v, r1, key).0, Sanitize(w, r2, key).0) ==> Alike(v, w, key, f)
    decreases v, 1, 0
  {
    match v
    case Obj(xs) => EqualEntries(v, w, xs, w.entries, r1, r2);
    case Arr(xs) => EqualItems(v, w, xs, w.items, r1, r2, key);
    case Str(s) => TextComesFromAlike(r1, r2, s, w.text, key);
    case _ =>
  }

  lemma RenamedPrefix(f: Renaming, r1: Registry, r2: Registry, q1: Registry, q2: Registry)
    requires Renamed(f, q1, q2) && r1 <= q1 && r2 <= q2 && |r1| == |r2|
    ensures Renamed(f, r1, r2)
  {
  }

  lemma {:induction false} ItemsSize(v: Json, xs: seq<Json>, r: Registry, key: ParentKey)
    requires forall i :: 0 <= i < |xs| ==> xs[i] < v
    ensures |SanitizeItems(v, xs, r, key).1| == |xs|
    decreases |xs|
  {
    if xs != [] { ItemsSize(v, xs[..|xs| - 1], r, key); }
  }

  lemma {:induction false} EntriesSize(v: Json, xs: seq<(string, Json)>, r: Registry)
    requires forall i :: 0 <= i < |xs| ==> xs[i].1 < v
    ensures |SanitizeEntries(v, xs, r).1| == |xs|
    decreases |xs|
  {
    if xs != [] { EntriesSize(v, xs[..|xs| - 1], r); }
  }

  lemma {:induction false} EqualItems(v: Json, w: Json, xs: seq<Json>, ys: seq<Json>, r1: Registry, r2: Registry,
                                      key: ParentKey)
    requires (forall i :: 0 <= i < |xs| ==> xs[i] < v) && (forall i :: 0 <= i < |ys| ==> ys[i] < w)
    requires Distinct(r1) && Distinct(r2) && |r1| == |r2|
    requires (forall i :: 0 <= i < |xs| ==> Plain(xs[i], key)) && (forall i :: 0 <= i < |ys| ==> Plain(ys[i], key))
    requires SanitizeItems(v, xs, r1, key).1 == SanitizeItems(w, ys, r2, key).1
    ensures |xs| == |ys| && |SanitizeItems(v, xs, r1, key).0| == |SanitizeItems(w, ys, r2, key).0|
    ensures forall f :: Renamed(f, SanitizeItems(v, xs, r1, key).0, SanitizeItems(w, ys, r2, key).0) ==>
              forall i :: 0 <= i < |xs| ==> Alike(xs[i], ys[i], key, f)
    decreases v, 0, |xs|
  {
    hide Alike;
    ItemsSize(v, xs, r1, key);
    ItemsSize(w, ys, r2, key);
    if xs != [] {
      var n := |xs| - 1;
      var (q1, out1) := SanitizeItems(v, xs[..n], r1, key);
      var (q2, out2) := SanitizeItems(w, ys[..n], r2, key);
      assert out1 == SanitizeItems(v, xs, r1, key).1[..n] && out2 == SanitizeItems(w, ys, r2, key).1[..n];
      EqualItems(v, w, xs[..n], ys[..n], r1, r2, key);
      ItemsGrow(v, xs[..n], r1, key);
      ItemsGrow(w, ys[..n], r2, key);
      EqualComesFromAlike(xs[n], ys[n], q1, q2, key);
      SanitizeGrows(xs[n], q1, key);
      SanitizeGrows(ys[n], q2, key);
      forall f | Renamed(f, SanitizeItems(v, xs, r1, key).0, SanitizeItems(w, ys, r2, key).0)
        ensures forall i :: 0 <= i < |xs| ==> Alike(xs[i], ys[i], key, f)
      {
        RenamedPrefix(f, q1, q2, SanitizeItems(v, xs, r1, key).0, SanitizeItems(w, ys, r2, key).0);
        AllAlike(xs[..n], ys[..n], xs, ys, key, f);
      }
    }
  }

  lemma AllAlike(xs0: seq<Json>, ys0: seq<Json>, xs: seq<Json>, ys: seq<Json>, key: ParentKey, f: Renaming)
    requires |xs| == |ys| > 0 && xs0 == xs[..|xs| - 1] && ys0 == ys[..|xs| - 1]
    requires Alike(xs[|xs| - 1], ys[|xs| - 1], key, f)
    requires forall i :: 0 <= i < |xs0| ==> Alike(xs0[i], ys0[i], key, f)
    ensures forall i :: 0 <= i < |xs| ==> Alike(xs[i], ys[i], key, f)
  {
    hide Alike;
    forall i | 0 <= i < |xs| ensures Alike(xs[i], ys[i], key, f) {
      if i < |xs| - 1 { assert Alike(xs0[i], ys0[i], key, f); }
    }
  }

  lemma {:induction false} EqualEntries(v: Json, w: Json, xs: seq<(string, Json)>, ys: seq<(string, Json)>,
                                        r1: Registry, r2: Registry)
    requires (forall i :: 0 <= i < |xs| ==> xs[i].1 < v) && (forall i :: 0 <= i < |ys| ==> ys[i].1 < w)
    requires Distinct(r1) && Distinct(r2) && |r1| == |r2|
    requires forall i :: 0 <= i < |xs| ==> Plain(xs[i].1, Key(xs[i].0))
    requires forall i :: 0 <= i < |ys| ==> Plain(ys[i].1, Key(ys[i].0))
    requires SanitizeEntries(v, xs, r1).1 == SanitizeEntries(w, ys, r2).1
    ensures |xs| == |ys| && |SanitizeEntries(v, xs, r1).0| == |SanitizeEntries(w, ys, r2).0|
    ensures forall f :: Renamed(f, SanitizeEntries(v, xs, r1).0, SanitizeEntries(w, ys, r2).0) ==>
              forall i :: 0 <= i < |xs| ==> xs[i].0 == ys[i].0 && Alike(xs[i].1, ys[i].1, Key(xs[i].0), f)
    decreases v, 0, |xs|
  {
    hide Alike;
    EntriesSize(v, xs, r1);
    EntriesSize(w, ys, r2);
    if xs != [] {
      var n := |xs| - 1;
      var (q1, out1) := SanitizeEntries(v, xs[..n], r1);
      var (q2, out2) := SanitizeEntries(w, ys[..n], r2);
      assert out1 == SanitizeEntries(v, xs, r1).1[..n] && out2 == SanitizeEntries(w, ys, r2).1[..n];
      assert SanitizeEntries(v, xs, r1).1[n] == SanitizeEntries(w, ys, r2).1[n];
      EqualEntries(v, w, xs[..n], ys[..n], r1, r2);
      EntriesGrow(v, xs[..n], r1);
      EntriesGrow(w, ys[..n], r2);
      EqualComesFromAlike(xs[n].1, ys[n].1, q1, q2, Key(xs[n].0));
      SanitizeGrows(xs[n].1, q1, Key(xs[n].0));
      SanitizeGrows(ys[n].1, q2, Key(xs[n].0));
      forall f | Renamed(f, SanitizeEntries(v, xs, r1).0, SanitizeEntries(w, ys, r2).0)
        ensures forall i :: 0 <= i < |xs| ==> xs[i].0 == ys[i].0 && Alike(xs[i].1, ys[i].1, Key(xs[i].0), f)
      {
        RenamedPrefix(f, q1, q2, SanitizeEntries(v, xs, r1).0, SanitizeEntries(w, ys, r2).0);
        AllEntriesAlike(xs[..n], ys[..n], xs, ys, f);
      }
    }
  }

  lemma AllEntriesAlike(xs0: seq<(string, Json)>, ys0: seq<(string, Json)>, xs: seq<(string, Json)>,
                        ys: seq<(string, Json)>,
                        f: Renaming)
    requires |xs| == |ys| > 0 && xs0 == xs[..|xs| - 1] && ys0 == ys[..|xs| - 1]
    requires xs[|xs| - 1].0 == ys[|xs| - 1].0 && Alike(xs[|xs| - 1].1, ys[|xs| - 1].1, Key(xs[|xs| - 1].0), f)
    requires forall i :: 0 <= i < |xs0| ==> xs0[i].0 == ys0[i].0 && Alike(xs0[i].1, ys0[i].1, Key(xs0[i].0), f)
    ensures forall i :: 0 <= i < |xs| ==> xs[i].0 == ys[i].0 && Alike(xs[i].1, ys[i].1, Key(xs[i].0), f)
  {
    hide Alike;
    forall i | 0 <= i < |xs| ensures xs[i].0 == ys[i].0 && Alike(xs[i].1, ys[i].1, Key(xs[i].0), f) {
      if i < |xs| - 1 { assert xs0[i] == xs[i] && ys0[i] == ys[i]; }
    }
  }

  // ------------------------------------------------------- the canonical form

  function PairUp(r1: Registry, r2: Registry): (f: Renaming)
    requires |r1| == |r2| && Distinct(r1) && Distinct(r2)
    ensures Renamed(f, r1, r2) && Injective(f) && f.Keys == Elems(r1)
  {
    map x | x in r1 :: r2[IndexOf(r1, x)]
  }

  /**
   The sanitised tree is a canonical form: starting from an empty registry, two plain trees
   sanitise to the same tree exactly when a bijective renaming of UUIDs, and the erasing of
   timestamps and `_at` strings, is all that separates them.
   */
  lemma SanitizeIsCanonical(v: Json, w: Json)
    requires Plain(v, NoKey) && Plain(w, NoKey)
    ensures Sanitize(v, [], NoKey).1 == Sanitize(w, [], NoKey).1 <==>
            exists f: Renaming :: Injective(f) && Alike(v, w, NoKey, f)
  {
    if f: Renaming :| Injective(f) && Alike(v, w, NoKey, f) {
      AlikeSanitizes(v, w, [], [], NoKey, f);
    }
    if Sanitize(v, [], NoKey).1 == Sanitize(w, [], NoKey).1 {
      EqualComesFromAlike(v, w, [], [], NoKey);
      SanitizeGrows(v, [], NoKey);
      SanitizeGrows(w, [], NoKey);
      var f := PairUp(Sanitize(v, [], NoKey).0, Sanitize(w, [], NoKey).0);
      assert Alike(v, w, NoKey, f);
    }
  }

  /** The three payloads of one case, sanitised against one shared registry. */
  function BuildCase(snapshot: Json, export_: Json, index: Json): seq<Json> {
    var (r1, a) := Sanitize(snapshot, [], NoKey);
    var (r2, b) := Sanitize(export_, r1, NoKey);
    var (_, c) := Sanitize(index, r2, NoKey);
    [a, b, c]
  }

  /** Sharing the registry relates the payloads of a case by one renaming. */
  lemma CaseIsCanonical(a1: Json, b1: Json, c1: Json, a2: Json, b2: Json, c2: Json)
    requires Plain(a1, NoKey) && Plain(b1, NoKey) && Plain(c1, NoKey)
    requires Plain(a2, NoKey) && Plain(b2, NoKey) && Plain(c2, NoKey)
    ensures BuildCase(a1, b1, c1) == BuildCase(a2, b2, c2) <==>
            exists f: Renaming ::
              Injective(f) && Alike(a1, a2, NoKey, f) && Alike(b1, b2, NoKey, f) && Alike(c1, c2, NoKey, f)
  {
    var v, w := Arr([a1, b1, c1]), Arr([a2, b2, c2]);
    assert Plain(v, NoKey) && Plain(w, NoKey);
    hide Plain, Sanitize, Alike, BuildCase;
    CaseIsArray(a1, b1, c1);
    CaseIsArray(a2, b2, c2);
    SanitizeIsCanonical(v, w);
    forall f: Renaming
      ensures Alike(v, w, NoKey, f) <==> Alike(a1, a2, NoKey, f) && Alike(b1, b2, NoKey, f) && Alike(c1, c2, NoKey, f)
    {
      ArrayAlike(a1, b1, c1, a2, b2, c2, f);
    }
  }

  lemma ArrayAlike(a1: Json, b1: Json, c1: Json, a2: Json, b2: Json, c2: Json, f: Renaming)
    ensures Alike(Arr([a1, b1, c1]), Arr([a2, b2, c2]), NoKey, f) <==>
            Alike(a1, a2, NoKey, f) && Alike(b1, b2, NoKey, f) && Alike(c1, c2, NoKey, f)
  {
    var xs, ys := [a1, b1, c1], [a2, b2, c2];
    assert Alike(Arr(xs), Arr(ys), NoKey, f) <==> forall i :: 0 <= i < 3 ==> Alike(xs[i], ys[i], NoKey, f);
    assert (forall i :: 0 <= i < 3 ==> Alike(xs[i], ys[i], NoKey, f)) ==>
        Alike(xs[0], ys[0], NoKey, f) && Alike(xs[1], ys[1], NoKey, f) && Alike(xs[2], ys[2], NoKey, f);
  }

  lemma ItemsSnoc(v: Json, xs: seq<Json>, x: Json, r: Registry)
    requires x < v && forall i :: 0 <= i < |xs| ==> xs[i] < v
    ensures var (q, out) := SanitizeItems(v, xs, r, NoKey);
            SanitizeItems(v, xs + [x], r, NoKey) == (Sanitize(x, q, NoKey).0, out + [Sanitize(x, q, NoKey).1])
  {
    assert (xs + [x])[..|xs|] == xs;
  }

  lemma NoItems(v: Json, r: Registry)
    ensures SanitizeItems(v, [], r, NoKey) == (r, [])
  {
  }

  lemma ThreeItems(v: Json, a: Json, b: Json, c: Json)
    requires a < v && b < v && c < v
    ensures SanitizeItems(v, [a, b, c], [], NoKey).1 == BuildCase(a, b, c)
  {
    hide Sanitize, SanitizeItems;
    NoItems(v, []);
    ItemsSnoc(v, [], a, []);
    assert [] + [a] == [a];
    ItemsSnoc(v, [a], b, []);
    assert [a] + [b] == [a, b];
    ItemsSnoc(v, [a, b], c, []);
    assert [a, b] + [c] == [a, b, c];
  }

  lemma CaseIsArray(a: Json, b: Json, c: Json)
    ensures Sanitize(Arr([a, b, c]), [], NoKey).1 == Arr(BuildCase(a, b, c))
  {
    hide SanitizeItems, BuildCase;
    var v := Arr([a, b, c]);
    assert v.items[0] == a && v.items[1] == b && v.items[2] == c;
    ThreeItems(v, a, b, c);
  }

  // ------------------------------------------------------- which trees have a canonical form

  /** As read from a snapshot: no alias and no mark. */
  predicate Raw(v: Json)
    decreases v
  {
    match v
    case Obj(xs) => forall i :: 0 <= i < |xs| ==> Raw(xs[i].1)
    case Arr(xs) => forall i :: 0 <= i < |xs| ==> Raw(xs[i])
    case Str(s) => forall i :: 0 <= i < |s| ==> s[i].Ch? || s[i].Id? || s[i].Stamp?
    case _ => true
  }

  lemma {:induction false} AlikeIsPlain(v: Json, w: Json, key: ParentKey, f: Renaming)
    requires Plain(v, key) && Raw(w) && Alike(v, w, key, f)
    ensures Plain(w, key)
    decreases v
  {
    match v
    case Obj(xs) =>
      forall i | 0 <= i < |xs| ensures Plain(w.entries[i].1, Key(w.entries[i].0)) {
        AlikeIsPlain(xs[i].1, w.entries[i].1, Key(xs[i].0), f);
      }
    case Arr(xs) =>
      forall i | 0 <= i < |xs| ensures Plain(w.items[i], key) {
        AlikeIsPlain(xs[i], w.items[i], key, f);
      }
    case Str(s) =>
      assert IsIdKey(key) && !WholeUuid(s) ==> forall i :: 0 <= i < |s| ==> !s[i].Id?;
    case _ =>
  }

  ghost function Uuids(v: Json): set<Uuid>
    decreases v
  {
    match v
    case Obj(xs) => set i, u | 0 <= i < |xs| && u in Uuids(xs[i].1) :: u
    case Arr(xs) => set i, u | 0 <= i < |xs| && u in Uuids(xs[i]) :: u
    case Str(s) => set i | 0 <= i < |s| && s[i].Id? :: s[i].raw
    case _ => {}
  }

  /** Another UUID for each, as the same prefix gives one. */
  function Other(u: Uuid): Uuid {
    ['x'] + u
  }

  /** The tree with another UUID in place of each. */
  ghost function Others(v: Json): Json
    decreases v
  {
    match v
    case Obj(xs) => Obj(seq(|xs|, i requires 0 <= i < |xs| => (xs[i].0, Others(xs[i].1))))
    case Arr(xs) => Arr(seq(|xs|, i requires 0 <= i < |xs| => Others(xs[i])))
    case Str(s) => Str(seq(|s|, i requires 0 <= i < |s| => if s[i].Id? then Id(Other(s[i].raw)) else s[i]))
    case _ => v
  }

  lemma {:induction false} OthersAreAlike(v: Json, key: ParentKey, f: Renaming)
    requires Raw(v) && Uuids(v) <= f.Keys && forall u :: u in f ==> f[u] == Other(u)
    ensures Raw(Others(v)) && Alike(v, Others(v), key, f)
    decreases v
  {
    match v
    case Obj(xs) =>
      forall i | 0 <= i < |xs| ensures Raw(Others(xs[i].1)) && Alike(xs[i].1, Others(xs[i].1), Key(xs[i].0), f) {
        assert forall u :: u in Uuids(xs[i].1) ==> u in Uuids(v);
        OthersAreAlike(xs[i].1, Key(xs[i].0), f);
      }
    case Arr(xs) =>
      forall i | 0 <= i < |xs| ensures Raw(Others(xs[i])) && Alike(xs[i], Others(xs[i]), key, f) {
        assert forall u :: u in Uuids(xs[i]) ==> u in Uuids(v);
        OthersAreAlike(xs[i], key, f);
      }
    case Str(s) =>
      assert forall i :: 0 <= i < |s| && s[i].Id? ==> s[i].raw in Uuids(v);
    case _ =>
  }

  lemma {:induction false} EntryAt(v: Json, xs: seq<(string, Json)>, r: Registry, i: nat) returns (q: Registry)
    requires i < |xs| && forall j :: 0 <= j < |xs| ==> xs[j].1 < v
    ensures |SanitizeEntries(v, xs, r).1| == |xs|
    ensures SanitizeEntries(v, xs, r).1[i].1 == Sanitize(xs[i].1, q, Key(xs[i].0)).1
    decreases |xs|
  {
    hide Sanitize;
    var n := |xs| - 1;
    EntriesSize(v, xs, r);
    EntriesSize(v, xs[..n], r);
    if i < n { q := EntryAt(v, xs[..n], r, i); } else { q := SanitizeEntries(v, xs[..n], r).0; }
  }

  lemma {:induction false} ItemAt(v: Json, xs: seq<Json>, r: Registry, key: ParentKey, i: nat) returns (q: Registry)
    requires i < |xs| && forall j :: 0 <= j < |xs| ==> xs[j] < v
    ensures |SanitizeItems(v, xs, r, key).1| == |xs|
    ensures SanitizeItems(v, xs, r, key).1[i] == Sanitize(xs[i], q, key).1
    decreases |xs|
  {
    hide Sanitize;
    var n := |xs| - 1;
    ItemsSize(v, xs, r, key);
    ItemsSize(v, xs[..n], r, key);
    if i < n { q := ItemAt(v, xs[..n], r, key, i); } else { q := SanitizeItems(v, xs[..n], r, key).0; }
  }

  /** A UUID kept inside an id field tells the two trees apart, whatever has been registered before. */
  lemma {:induction false} KeptUuidsDiffer(v: Json, key: ParentKey, r1: Registry, r2: Registry)
    requires Raw(v) && !Plain(v, key)
    ensures Sanitize(v, r1, key).1 != Sanitize(Others(v), r2, key).1
    decreases v
  {
    match v
    case Obj(xs) =>
      var i :| 0 <= i < |xs| && !Plain(xs[i].1, Key(xs[i].0));
      var w := Others(v);
      var q1 := EntryAt(v, xs, r1, i);
      var q2 := EntryAt(w, w.entries, r2, i);
      KeptUuidsDiffer(xs[i].1, Key(xs[i].0), q1, q2);
    case Arr(xs) =>
      var i :| 0 <= i < |xs| && !Plain(xs[i], key);
      var w := Others(v);
      var q1 := ItemAt(v, xs, r1, key, i);
      var q2 := ItemAt(w, w.items, r2, key, i);
      KeptUuidsDiffer(xs[i], key, q1, q2);
    case Str(s) =>
      var i :| 0 <= i < |s| && s[i].Id?;
      assert Others(v).text[i].raw == Other(s[i].raw);
      assert |Other(s[i].raw)| == |s[i].raw| + 1;
    case _ =>
  }

  /** Of a tree that is not plain, an alike one that sanitises differently. */
  lemma OtherwiseSanitized(v: Json) returns (w: Json, f: Renaming)
    requires Raw(v) && !Plain(v, NoKey)
    ensures Raw(w) && Injective(f) && Alike(v, w, NoKey, f)
    ensures Sanitize(v, [], NoKey).1 != Sanitize(w, [], NoKey).1
  {
    hide Sanitize, Plain, Alike, Raw;
    w, f := Others(v), map u | u in Uuids(v) :: Other(u);
    forall u, x | u in f && x in f && f[u] == f[x] ensures u == x {
      assert Other(u)[1..] == u && Other(x)[1..] == x;
    }
    OthersAreAlike(v, NoKey, f);
    KeptUuidsDiffer(v, NoKey, [], []);
  }

  /**
   A raw tree has a canonical form - every raw tree alike to it sanitises to the same tree -
   exactly when no id field of it holds a UUID inside other text.
   */
  lemma CanonicalIffPlain(v: Json)
    requires Raw(v)
    ensures (forall w, f: Renaming :: Raw(w) && Injective(f) && Alike(v, w, NoKey, f)
               ==> Sanitize(v, [], NoKey).1 == Sanitize(w, [], NoKey).1)
            <==> Plain(v, NoKey)
  {
    hide Sanitize, Plain, Alike, Raw, Injective;
    if Plain(v, NoKey) {
      forall w, f: Renaming | Raw(w) && Injective(f) && Alike(v, w, NoKey, f)
        ensures Sanitize(v, [], NoKey).1 == Sanitize(w, [], NoKey).1
      {
        AlikeIsPlain(v, w, NoKey, f);
        NothingRegistered(f);
        AlikeSanitizes(v, w, [], [], NoKey, f);
      }
    } else {
      var w, f := OtherwiseSanitized(v);
    }
  }

  lemma NothingRegistered(f: Renaming)
    ensures Renamed(f, [], [])
  {
  }

  /** An id field holding text around a UUID: alike trees whose sanitised forms differ. */
  lemma EmbeddedIdIsKept()
    ensures var v, w := Obj([("id", Str([Ch('x'), Id("a")]))]), Obj([("id", Str([Ch('x'), Id("b")]))]);
            && Injective(map["a" := "b"]) && Alike(v, w, NoKey, map["a" := "b"])
            && Sanitize(v, [], NoKey).1 != Sanitize(w, [], NoKey).1
  {
    var v, w := Obj([("id", Str([Ch('x'), Id("a")]))]), Obj([("id", Str([Ch('x'), Id("b")]))]);
    assert IsIdKey(Key("id"));
    assert SanitizeText([Ch('x'), Id("a")], [], Key("id")) == ([], [Ch('x'), Id("a")]);
    assert SanitizeText([Ch('x'), Id("b")], [], Key("id")) == ([], [Ch('x'), Id("b")]);
    assert Sanitize(v, [], NoKey).1.entries[0] == ("id", Str([Ch('x'), Id("a")]));
    assert Sanitize(w, [], NoKey).1.entries[0] == ("id", Str([Ch('x'), Id("b")]));
    assert Alike(v, w, NoKey, map["a" := "b"]);
  }
}
