/** `_remap_value` of `scripts/clone_local_project_session.py`. */
module Remap {
  import opened Names
  import opened Relational

  /** The items of the replacement dictionary, in insertion order. */
  type Items = seq<(Uuid, Uuid)>

  ghost predicate DistinctKeys(rs: Items) {
    forall i, j :: 0 <= i < j < |rs| ==> rs[i].0 != rs[j].0
  }

  /** `replacements.get(u)`, or `u` itself. */
  function Mapped(rs: Items, u: Uuid): Uuid {
    if rs == [] then u else if rs[0].0 == u then rs[0].1 else Mapped(rs[1..], u)
  }

  predicate IsKey(rs: Items, u: Uuid) {
    exists r :: r in rs && r.0 == u
  }

  lemma {:induction false} MappedIs(rs: Items, k: nat)
    requires DistinctKeys(rs) && k < |rs|
    ensures Mapped(rs, rs[k].0) == rs[k].1
  {
    if k > 0 { MappedIs(rs[1..], k - 1); }
  }

  lemma {:induction false} MappedOther(rs: Items, u: Uuid)
    requires !IsKey(rs, u)
    ensures Mapped(rs, u) == u
  {
    if rs != [] {
      assert rs[0] in rs;
      forall r | r in rs[1..] ensures r.0 != u { assert r in rs; }
      MappedOther(rs[1..], u);
    }
  }

  // ---------------------------------------------------- the loop over the items

  function ReplaceId(tokens: seq<Token>, source: Uuid, target: Uuid): seq<Token> {
    seq(|tokens|, i requires 0 <= i < |tokens| => if tokens[i] == Id(source) then Id(target) else tokens[i])
  }

  /** What becomes of one id when the items are applied one after the other. */
  ghost function InTurn(rs: Items, u: Uuid): Uuid {
    if rs == [] then u
    else
      var v := InTurn(rs[..|rs| - 1], u);
      if v == rs[|rs| - 1].0 then rs[|rs| - 1].1 else v
  }

  function OnTokens(tokens: seq<Token>, f: Uuid -> Uuid): seq<Token> {
    seq(|tokens|, i requires 0 <= i < |tokens| => if tokens[i].Id? then Id(f(tokens[i].id)) else tokens[i])
  }

  method RemapText(tokens: seq<Token>, rs: Items) returns (rewritten: seq<Token>)
    ensures rewritten == if |tokens| == 1 && tokens[0].Id? && IsKey(rs, tokens[0].id)
                         then [Id(Mapped(rs, tokens[0].id))]
                         else OnTokens(tokens, (u: Uuid) => InTurn(rs, u))
  {
    if |tokens| == 1 && tokens[0].Id? && IsKey(rs, tokens[0].id) {
      return [Id(Mapped(rs, tokens[0].id))];
    }
    rewritten := tokens;
    for i := 0 to |rs|
      invariant rewritten == OnTokens(tokens, (u: Uuid) => InTurn(rs[..i], u))
    {
      assert rs[..i + 1][..i] == rs[..i];
      if Id(rs[i].0) in rewritten {
        rewritten := ReplaceId(rewritten, rs[i].0, rs[i].1);
      }
    }
    assert rs[..|rs|] == rs;
  }

  /** `_remap_value`: the recursion through dictionaries, lists and tuples. */
  ghost function Remapped(value: Value, rs: Items): Value {
    match value
    case Null => Null
    case Ref(u) => Ref(Mapped(rs, u))
    case Dict(entries) =>
      Dict(seq(|entries|, i requires 0 <= i < |entries| => (entries[i].0, Remapped(entries[i].1, rs))))
    case List(items) => List(seq(|items|, i requires 0 <= i < |items| => Remapped(items[i], rs)))
    case Tuple(members) => Tuple(seq(|members|, i requires 0 <= i < |members| => Remapped(members[i], rs)))
    case Text(tokens) =>
      if |tokens| == 1 && tokens[0].Id? && IsKey(rs, tokens[0].id)
      then Text([Id(Mapped(rs, tokens[0].id))])
      else Text(OnTokens(tokens, (u: Uuid) => InTurn(rs, u)))
    case _ => value
  }

  method RemapValue(value: Value, rs: Items) returns (r: Value)
    ensures r == Remapped(value, rs)
    decreases value
  {
    match value
    case Null => r := Null;
    case Ref(u) => r := Ref(Mapped(rs, u));
    case Dict(entries) =>
      var out: seq<(string, Value)> := [];
      for i := 0 to |entries|
        invariant |out| == i
        invariant forall k :: 0 <= k < i ==> out[k] == (entries[k].0, Remapped(entries[k].1, rs))
      {
        var item := RemapValue(entries[i].1, rs);
        out := out + [(entries[i].0, item)];
      }
      r := Dict(out);
    case List(items) =>
      var out := [];
      for i := 0 to |items|
        invariant |out| == i && forall k :: 0 <= k < i ==> out[k] == Remapped(items[k], rs)
      {
        var item := RemapValue(items[i], rs);
        out := out + [item];
      }
      r := List(out);
    case Tuple(members) =>
      var out := [];
      for i := 0 to |members|
        invariant |out| == i && forall k :: 0 <= k < i ==> out[k] == Remapped(members[k], rs)
      {
        var item := RemapValue(members[i], rs);
        out := out + [item];
      }
      r := Tuple(out);
    case Text(tokens) =>
      var text := RemapText(tokens, rs);
      r := Text(text);
    case _ => r := value;
  }

  // ---------------------------------------------------- the simultaneous substitution

  /** Every id of the value renamed at once. */
  ghost function Rename(value: Value, f: Uuid -> Uuid): Value {
    match value
    case Ref(u) => Ref(f(u))
    case Text(tokens) => Text(OnTokens(tokens, f))
    case Dict(entries) =>
      Dict(seq(|entries|, i requires 0 <= i < |entries| => (entries[i].0, Rename(entries[i].1, f))))
    case List(items) => List(seq(|items|, i requires 0 <= i < |items| => Rename(items[i], f)))
    case Tuple(members) => Tuple(seq(|members|, i requires 0 <= i < |members| => Rename(members[i], f)))
    case _ => value
  }

  /** No item rewrites what an earlier item has put in place. */
  ghost predicate NoChain(rs: Items) {
    forall i, j :: 0 <= i < j < |rs| && rs[i].1 == rs[j].0 ==> rs[j].1 == rs[j].0
  }

  lemma {:induction false} InTurnIsMapped(rs: Items, u: Uuid)
    requires DistinctKeys(rs) && NoChain(rs)
    ensures InTurn(rs, u) == Mapped(rs, u)
  {
    if rs != [] {
      var init, last := rs[..|rs| - 1], rs[|rs| - 1];
      InTurnIsMapped(init, u);
      if k :| 0 <= k < |init| && init[k].0 == u {
        MappedIs(init, k);
        MappedIs(rs, k);
      } else {
        assert !IsKey(init, u);
        MappedOther(init, u);
        if u == last.0 { MappedIs(rs, |rs| - 1); }
        else { assert !IsKey(rs, u); MappedOther(rs, u); }
      }
    }
  }

  lemma {:induction false} RenameByEqual(value: Value, f: Uuid -> Uuid, rs: Items)
    requires forall u :: f(u) == Mapped(rs, u) == InTurn(rs, u)
    ensures Remapped(value, rs) == Rename(value, f)
    decreases value
  {
    match value
    case Dict(entries) =>
      forall i | 0 <= i < |entries| { RenameByEqual(entries[i].1, f, rs); }
    case List(items) =>
      forall i | 0 <= i < |items| { RenameByEqual(items[i], f, rs); }
    case Tuple(members) =>
      forall i | 0 <= i < |members| { RenameByEqual(members[i], f, rs); }
    case Text(tokens) =>
      assert OnTokens(tokens, (u: Uuid) => InTurn(rs, u)) == OnTokens(tokens, f);
    case _ =>
  }

  /**
   `_remap_value` is the simultaneous substitution on every value exactly when no
   replacement feeds a later one.
   */
  lemma RemapIsSimultaneous(rs: Items)
    requires DistinctKeys(rs)
    ensures (forall value :: Remapped(value, rs) == Rename(value, (u: Uuid) => Mapped(rs, u))) <==> NoChain(rs)
  {
    if NoChain(rs) {
      forall u ensures InTurn(rs, u) == Mapped(rs, u) { InTurnIsMapped(rs, u); }
      forall value ensures Remapped(value, rs) == Rename(value, (u: Uuid) => Mapped(rs, u)) {
        RenameByEqual(value, (u: Uuid) => Mapped(rs, u), rs);
      }
    } else {
      var k := LastChained(rs, |rs|);
      MappedIs(rs, k);
      var text := Text([Ch('x'), Id(rs[k].0)]);
      var f := (u: Uuid) => Mapped(rs, u);
      assert Remapped(text, rs).tokens[1] == Id(InTurn(rs, rs[k].0));
      assert Rename(text, f).tokens[1] == Id(Mapped(rs, rs[k].0));
    }
  }

  lemma {:induction false} InTurnStays(rs: Items, u: Uuid, n: nat)
    requires n <= |rs|
    requires forall j :: n <= j < |rs| && InTurn(rs[..n], u) == rs[j].0 ==> rs[j].1 == rs[j].0
    ensures InTurn(rs, u) == InTurn(rs[..n], u)
    decreases |rs|
  {
    if n < |rs| {
      var init := rs[..|rs| - 1];
      assert init[..n] == rs[..n];
      InTurnStays(init, u, n);
    } else {
      assert rs[..n] == rs;
    }
  }

  lemma InTurnHits(rs: Items, k: nat)
    requires DistinctKeys(rs) && k < |rs|
    ensures InTurn(rs[..k + 1], rs[k].0) == rs[k].1
  {
    assert rs[..k][..0] == [] && rs[..k + 1][..k] == rs[..k];
    forall i | 0 <= i < k ensures rs[..k][i].0 != rs[k].0 { assert rs[i].0 != rs[k].0; }
    InTurnStays(rs[..k], rs[k].0, 0);
  }

  /** Item `j` overwrites what item `k` has put in place, and nothing after `j` does. */
  lemma Overwritten(rs: Items, k: nat, j: nat)
    requires DistinctKeys(rs) && k < j < |rs| && rs[k].1 == rs[j].0 && rs[j].1 != rs[j].0
    requires forall i :: j < i < |rs| && rs[j].1 == rs[i].0 ==> rs[i].1 == rs[i].0
    ensures InTurn(rs, rs[k].0) == rs[j].1
  {
    var u := rs[k].0;
    InTurnHits(rs, k);
    assert rs[..j][..k + 1] == rs[..k + 1];
    forall m | k < m < j ensures rs[..j][m].0 != rs[k].1 { assert rs[m].0 != rs[j].0; }
    InTurnStays(rs[..j], u, k + 1);
    assert rs[..j + 1][..j] == rs[..j];
    InTurnStays(rs, u, j + 1);
  }

  /** The last item whose target is rewritten: that rewriting is final. */
  lemma {:induction false} LastChained(rs: Items, n: nat) returns (k: nat)
    requires DistinctKeys(rs) && n <= |rs|
    requires exists i, j :: 0 <= i < j < |rs| && i < n && rs[i].1 == rs[j].0 && rs[j].1 != rs[j].0
    requires forall i, j :: n <= i < j < |rs| && rs[i].1 == rs[j].0 ==> rs[j].1 == rs[j].0
    ensures k < |rs| && InTurn(rs, rs[k].0) != rs[k].1
    decreases n
  {
    k := n - 1;
    if j :| k < j < |rs| && rs[k].1 == rs[j].0 && rs[j].1 != rs[j].0 {
      Overwritten(rs, k, j);
    } else {
      k := LastChained(rs, n - 1);
    }
  }

  // ---------------------------------------------------- one value

  lemma {:induction false} InTurnOther(rs: Items, u: Uuid)
    requires !IsKey(rs, u)
    ensures InTurn(rs, u) == u && Mapped(rs, u) == u
    decreases |rs|
  {
    MappedOther(rs, u);
    if rs != [] {
      var init := rs[..|rs| - 1];
      assert rs[|rs| - 1] in rs && forall r :: r in init ==> r in rs;
      InTurnOther(init, u);
    }
  }

  /** Some text of the value that is not a whole UUID holds `u`. */
  ghost predicate InText(u: Uuid, value: Value) {
    match value
    case Text(tokens) => |tokens| != 1 && Id(u) in tokens
    case Dict(entries) => exists i :: 0 <= i < |entries| && InText(u, entries[i].1)
    case List(items) => exists i :: 0 <= i < |items| && InText(u, items[i])
    case Tuple(members) => exists i :: 0 <= i < |members| && InText(u, members[i])
    case _ => false
  }

  /** The text holds no id that is rewritten more than once. */
  ghost predicate NoneInText(value: Value, rs: Items) {
    forall u :: InTurn(rs, u) != Mapped(rs, u) ==> !InText(u, value)
  }

  /** A value is renamed at once exactly when none of its texts holds an id that is rewritten more than once. */
  lemma {:induction false} RenamedIffNoneInText(value: Value, rs: Items)
    ensures Remapped(value, rs) == Rename(value, (u: Uuid) => Mapped(rs, u)) <==> NoneInText(value, rs)
    decreases value
  {
    var f := (u: Uuid) => Mapped(rs, u);
    match value
    case Dict(entries) =>
      var x, y := Remapped(value, rs).entries, Rename(value, f).entries;
      forall i | 0 <= i < |entries| ensures x[i] == y[i] <==> NoneInText(entries[i].1, rs) {
        RenamedIffNoneInText(entries[i].1, rs);
      }
      AllEqual(x, y);
    case List(items) =>
      var x, y := Remapped(value, rs).items, Rename(value, f).items;
      forall i | 0 <= i < |items| ensures x[i] == y[i] <==> NoneInText(items[i], rs) {
        RenamedIffNoneInText(items[i], rs);
      }
      AllEqual(x, y);
    case Tuple(members) =>
      var x, y := Remapped(value, rs).members, Rename(value, f).members;
      forall i | 0 <= i < |members| ensures x[i] == y[i] <==> NoneInText(members[i], rs) {
        RenamedIffNoneInText(members[i], rs);
      }
      AllEqual(x, y);
    case Text(tokens) =>
      TextIffNoneInText(tokens, rs);
    case _ =>
  }

  lemma AllEqual<T>(x: seq<T>, y: seq<T>)
    requires |x| == |y|
    ensures x == y <==> forall i :: 0 <= i < |x| ==> x[i] == y[i]
  {
  }

  lemma TextIffNoneInText(tokens: seq<Token>, rs: Items)
    ensures Remapped(Text(tokens), rs) == Rename(Text(tokens), (u: Uuid) => Mapped(rs, u)) <==>
            NoneInText(Text(tokens), rs)
  {
    var f, x := (u: Uuid) => Mapped(rs, u), OnTokens(tokens, (u: Uuid) => InTurn(rs, u));
    var y := OnTokens(tokens, f);
    if |tokens| == 1 {
      if tokens[0].Id? && !IsKey(rs, tokens[0].id) { InTurnOther(rs, tokens[0].id); }
    } else {
      forall i | 0 <= i < |tokens|
        ensures x[i] == y[i] <==> (tokens[i].Id? ==> InTurn(rs, tokens[i].id) == Mapped(rs, tokens[i].id))
      {
      }
      assert x == y <==> forall i :: 0 <= i < |tokens| ==> x[i] == y[i];
    }
  }

  // ---------------------------------------------------- the order of the dictionary

  /** No replacement puts in place what another one rewrites. */
  ghost predicate NoTargetIsKey(rs: Items) {
    forall a, b :: a in rs && b in rs && a.1 == b.0 ==> b.1 == b.0
  }

  lemma MappedByMember(rs: Items, r: (Uuid, Uuid))
    requires DistinctKeys(rs) && r in rs
    ensures Mapped(rs, r.0) == r.1
  {
    var k :| 0 <= k < |rs| && rs[k] == r;
    MappedIs(rs, k);
  }

  lemma MappedByAnyOrder(rs: Items, other: Items, u: Uuid)
    requires DistinctKeys(rs) && DistinctKeys(other) && multiset(rs) == multiset(other)
    ensures Mapped(rs, u) == Mapped(other, u)
  {
    assert forall r :: r in rs <==> r in multiset(rs);
    assert forall r :: r in other <==> r in multiset(other);
    if r :| r in rs && r.0 == u {
      MappedByMember(rs, r);
      MappedByMember(other, r);
    } else {
      MappedOther(rs, u);
      MappedOther(other, u);
    }
  }

  lemma {:induction false} KeysOfPermutation(rs: Items, other: Items)
    requires DistinctKeys(rs) && multiset(rs) == multiset(other)
    ensures DistinctKeys(other)
  {
    forall i, j | 0 <= i < j < |other| ensures other[i].0 != other[j].0 {
      assert other[i] in multiset(other) && other[j] in multiset(other);
      assert other[i] in rs && other[j] in rs;
      if other[i].0 == other[j].0 {
        MappedByMember(rs, other[i]);
        MappedByMember(rs, other[j]);
        RepeatedTwice(other, i, j);
        DistinctOnce(rs, other[i]);
      }
    }
  }

  /** The outcome is the same for every order of the dictionary exactly when no target is a key to be rewritten. */
  lemma OrderNeverMatters(rs: Items)
    requires DistinctKeys(rs)
    ensures (forall a: Items, b: Items, value :: multiset(a) == multiset(rs) && multiset(b) == multiset(rs)
               ==> Remapped(value, a) == Remapped(value, b))
            <==> NoTargetIsKey(rs)
  {
    if NoTargetIsKey(rs) {
      forall a: Items, b: Items, value | multiset(a) == multiset(rs) && multiset(b) == multiset(rs)
        ensures Remapped(value, a) == Remapped(value, b)
      {
        SimultaneousInAnyOrder(rs, a, value);
        SimultaneousInAnyOrder(rs, b, value);
      }
    } else {
      var _, _, _ := TwoOrdersDiffer(rs);
    }
  }

  lemma MovedLast(rs: Items, i: nat) returns (other: Items)
    requires i < |rs|
    ensures multiset(other) == multiset(rs) && other != [] && other[|other| - 1] == rs[i]
  {
    assert rs == rs[..i] + [rs[i]] + rs[i + 1..];
    other := rs[..i] + rs[i + 1..] + [rs[i]];
  }

  /** With an item last its target stays; with the item that rewrites its target last, that one's does. */
  lemma TwoOrdersDiffer(rs: Items) returns (x: Items, y: Items, value: Value)
    requires DistinctKeys(rs) && !NoTargetIsKey(rs)
    ensures multiset(x) == multiset(rs) && multiset(y) == multiset(rs)
    ensures Remapped(value, x) != Remapped(value, y)
  {
    var a, b :| a in rs && b in rs && a.1 == b.0 && b.1 != b.0;
    var i :| 0 <= i < |rs| && rs[i] == a;
    var j :| 0 <= j < |rs| && rs[j] == b;
    x := MovedLast(rs, i);
    y := MovedLast(rs, j);
    KeysOfPermutation(rs, x);
    KeysOfPermutation(rs, y);
    InTurnHits(x, |x| - 1);
    assert x[..|x|] == x;
    assert a in multiset(y) && a != b;
    var k :| 0 <= k < |y| && y[k] == a;
    Overwritten(y, k, |y| - 1);
    value := Text([Ch('x'), Id(a.0)]);
    assert Remapped(value, x).tokens[1] == Id(a.1) && Remapped(value, y).tokens[1] == Id(b.1);
  }

  lemma SimultaneousInAnyOrder(rs: Items, other: Items, value: Value)
    requires DistinctKeys(rs) && NoTargetIsKey(rs) && multiset(other) == multiset(rs)
    ensures Remapped(value, other) == Rename(value, (u: Uuid) => Mapped(rs, u))
  {
    KeysOfPermutation(rs, other);
    forall i | 0 <= i < |other| ensures other[i] in rs { assert other[i] in multiset(other); }
    forall u ensures InTurn(other, u) == Mapped(other, u) == Mapped(rs, u) {
      InTurnIsMapped(other, u);
      MappedByAnyOrder(rs, other, u);
    }
    RenameByEqual(value, (u: Uuid) => Mapped(rs, u), other);
  }

  // ---------------------------------------------------- what a renaming keeps

  ghost predicate Occurs(u: Uuid, value: Value) {
    match value
    case Ref(v) => v == u
    case Text(tokens) => Id(u) in tokens
    case Dict(entries) => exists i :: 0 <= i < |entries| && Occurs(u, entries[i].1)
    case List(items) => exists i :: 0 <= i < |items| && Occurs(u, items[i])
    case Tuple(members) => exists i :: 0 <= i < |members| && Occurs(u, members[i])
    case _ => false
  }

  lemma {:induction false} RenameOccurs(value: Value, f: Uuid -> Uuid, w: Uuid)
    ensures Occurs(w, Rename(value, f)) <==> exists u :: Occurs(u, value) && f(u) == w
    decreases value
  {
    var renamed := Rename(value, f);
    match value
    case Dict(entries) =>
      forall i | 0 <= i < |entries| { RenameOccurs(entries[i].1, f, w); }
      if u :| Occurs(u, value) && f(u) == w {
        var i :| 0 <= i < |entries| && Occurs(u, entries[i].1);
        assert Occurs(w, renamed.entries[i].1);
      }
    case List(items) =>
      forall i | 0 <= i < |items| { RenameOccurs(items[i], f, w); }
      if u :| Occurs(u, value) && f(u) == w {
        var i :| 0 <= i < |items| && Occurs(u, items[i]);
        assert Occurs(w, renamed.items[i]);
      }
    case Tuple(members) =>
      forall i | 0 <= i < |members| { RenameOccurs(members[i], f, w); }
      if u :| Occurs(u, value) && f(u) == w {
        var i :| 0 <= i < |members| && Occurs(u, members[i]);
        assert Occurs(w, renamed.members[i]);
      }
    case Text(tokens) =>
      if u :| Occurs(u, value) && f(u) == w {
        var i :| 0 <= i < |tokens| && tokens[i] == Id(u);
        assert renamed.tokens[i] == Id(w);
      }
      if Occurs(w, renamed) {
        var i :| 0 <= i < |tokens| && renamed.tokens[i] == Id(w);
        if tokens[i].Id? { assert Occurs(tokens[i].id, value); }
      }
    case Ref(u) => assert Occurs(u, value);
    case _ =>
  }

  /** Values that mention no source id are unchanged, whatever the replacements. */
  lemma {:induction false} UnmentionedIsKept(value: Value, rs: Items)
    requires forall r :: r in rs ==> !Occurs(r.0, value)
    ensures Remapped(value, rs) == value
    decreases value
  {
    match value
    case Dict(entries) =>
      forall i | 0 <= i < |entries| ensures Remapped(entries[i].1, rs) == entries[i].1 {
        UnmentionedIsKept(entries[i].1, rs);
      }
      assert Remapped(value, rs).entries == entries;
    case List(items) =>
      forall i | 0 <= i < |items| ensures Remapped(items[i], rs) == items[i] { UnmentionedIsKept(items[i], rs); }
      assert Remapped(value, rs).items == items;
    case Tuple(members) =>
      forall i | 0 <= i < |members| ensures Remapped(members[i], rs) == members[i] {
        UnmentionedIsKept(members[i], rs);
      }
      assert Remapped(value, rs).members == members;
    case Text(tokens) =>
      forall i | 0 <= i < |tokens| && tokens[i].Id?
        ensures !IsKey(rs, tokens[i].id) && InTurn(rs, tokens[i].id) == tokens[i].id
      {
        assert Id(tokens[i].id) in tokens;
        InTurnOther(rs, tokens[i].id);
      }
      assert OnTokens(tokens, (u: Uuid) => InTurn(rs, u)) == tokens;
    case Ref(u) => InTurnOther(rs, u);
    case _ =>
  }

  /** Dictionary keys, nesting and lengths are kept: all that is left when every id is blanked to one value. */
  lemma {:induction false} RemapKeepsShape(value: Value, rs: Items, blank: Uuid -> Uuid)
    requires forall u, v :: blank(u) == blank(v)
    ensures Rename(Remapped(value, rs), blank) == Rename(value, blank)
    decreases value
  {
    var r := Remapped(value, rs);
    match value
    case Dict(entries) =>
      forall i | 0 <= i < |entries| { RemapKeepsShape(entries[i].1, rs, blank); }
      assert Rename(r, blank).entries == Rename(value, blank).entries;
    case List(items) =>
      forall i | 0 <= i < |items| { RemapKeepsShape(items[i], rs, blank); }
      assert Rename(r, blank).items == Rename(value, blank).items;
    case Tuple(members) =>
      forall i | 0 <= i < |members| { RemapKeepsShape(members[i], rs, blank); }
      assert Rename(r, blank).members == Rename(value, blank).members;
    case Text(tokens) =>
      assert OnTokens(r.tokens, blank) == OnTokens(tokens, blank);
    case _ =>
  }

  /** No source id survives when no target is one. */
  lemma SourceIdsAreGone(value: Value, rs: Items)
    requires DistinctKeys(rs) && forall a, b :: a in rs && b in rs ==> a.1 != b.0
    ensures forall r :: r in rs ==> !Occurs(r.0, Remapped(value, rs))
  {
    hide Occurs, Rename, Mapped, DistinctKeys;
    var f := (u: Uuid) => Mapped(rs, u);
    SimultaneousInAnyOrder(rs, rs, value);
    forall r | r in rs ensures !Occurs(r.0, Rename(value, f)) {
      RenameOccurs(value, f, r.0);
      forall u ensures f(u) != r.0 {
        if b :| b in rs && b.0 == u { MappedByMember(rs, b); } else { MappedOther(rs, u); }
      }
    }
  }

  /** A renaming that keeps the ids in use apart keeps values apart. */
  lemma {:induction false} RenameKeepsApart(a: Value, b: Value, f: Uuid -> Uuid)
    requires forall u, v :: Occurs(u, a) && Occurs(v, b) && f(u) == f(v) ==> u == v
    requires Rename(a, f) == Rename(b, f)
    ensures a == b
    decreases a
  {
    match a
    case Ref(u) =>
      assert b.Ref? && Occurs(u, a) && Occurs(b.id, b);
    case Text(tokens) =>
      var x, y := OnTokens(tokens, f), OnTokens(b.tokens, f);
      assert x == y && |tokens| == |b.tokens|;
      forall i | 0 <= i < |tokens| ensures tokens[i] == b.tokens[i] {
        assert x[i] == y[i];
        if tokens[i].Id? { assert Occurs(tokens[i].id, a) && Occurs(b.tokens[i].id, b); }
      }
    case Dict(entries) =>
      var x, y := Rename(a, f).entries, Rename(b, f).entries;
      assert |entries| == |b.entries|;
      forall i | 0 <= i < |entries| ensures entries[i] == b.entries[i] {
        assert x[i] == y[i];
        RenameKeepsApart(entries[i].1, b.entries[i].1, f);
      }
    case List(items) =>
      var x, y := Rename(a, f).items, Rename(b, f).items;
      assert |items| == |b.items|;
      forall i | 0 <= i < |items| ensures items[i] == b.items[i] {
        assert x[i] == y[i];
        RenameKeepsApart(items[i], b.items[i], f);
      }
    case Tuple(members) =>
      var x, y := Rename(a, f).members, Rename(b, f).members;
      assert |members| == |b.members|;
      forall i | 0 <= i < |members| ensures members[i] == b.members[i] {
        assert x[i] == y[i];
        RenameKeepsApart(members[i], b.members[i], f);
      }
    case _ =>
  }
}
