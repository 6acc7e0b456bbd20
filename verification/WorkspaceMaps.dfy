/** The `source=target` arguments: `_parse_workspace_maps` of `scripts/sync_local_truth_to_target.py`. */
module WorkspaceMaps {
  import opened Strings

  /** What one argument says. */
  datatype Entry = Blank | Invalid | Pair(source: string, target: string)

  function IndexOf(s: string, c: char): (k: nat)
    ensures k <= |s| && c !in s[..k] && (k < |s| ==> s[k] == c)
  {
    if s == [] || s[0] == c then 0 else
      var k := 1 + IndexOf(s[1..], c);
      assert s[..k] == [s[0]] + s[1..][..k - 1];
      k
  }

  /** Split at the first `=`; both sides stripped, in lower case and not empty. */
  function Parse(raw: string): Entry {
    var item := Strip(raw);
    var k := IndexOf(item, '=');
    if item == "" then Blank
    else if k == |item| then Invalid
    else
      var source, target := Lower(Strip(item[..k])), Lower(Strip(item[k + 1..]));
      if source == "" || target == "" then Invalid else Pair(source, target)
  }

  /** Before the first `=` stands the source and behind it the target, both trimmed and in small letters. */
  ghost predicate Says(raw: string, source: string, target: string) {
    exists item: string, a: string, b: string ::
      TrimsTo(raw, WHITE, item) && item == a + "=" + b && '=' !in a && Side(a, source) && Side(b, target)
  }

  ghost predicate Side(text: string, slug: string) {
    slug != "" && exists x: string :: TrimsTo(text, WHITE, x) && LowersTo(x, slug)
  }

  lemma SideIs(text: string, slug: string)
    ensures Side(text, slug) <==> slug != "" && slug == Lower(Strip(text))
  {
    hide TrimsTo, LowersTo, Lower, Trim;
    TrimTrims(text, WHITE);
    LowerIsUnique(Strip(text), slug);
    if Side(text, slug) {
      var x :| TrimsTo(text, WHITE, x) && LowersTo(x, slug);
      TrimIsUnique(text, WHITE, x, Strip(text));
    }
  }

  /** An argument pairs a source with a target exactly when it says so, and is passed over exactly when it is blank. */
  lemma ParseIs(raw: string, source: string, target: string)
    ensures Parse(raw) == Pair(source, target) <==> Says(raw, source, target)
    ensures Parse(raw).Blank? <==> AllWhite(raw, WHITE)
  {
    var item := Strip(raw);
    var k := IndexOf(item, '=');
    BlankIff(raw);
    TrimTrims(raw, WHITE);
    hide TrimsTo, Lower, Trim, AllWhite, Side;
    if k < |item| {
      assert item == item[..k] + "=" + item[k + 1..];
      SideIs(item[..k], source);
      SideIs(item[k + 1..], target);
    }
    if Says(raw, source, target) {
      var it: string, a: string, b: string :|
        TrimsTo(raw, WHITE, it) && it == a + "=" + b && '=' !in a && Side(a, source) && Side(b, target);
      TrimIsUnique(raw, WHITE, it, item);
      assert item[|a|] == '=' && item[..|a|] == a && item[|a| + 1..] == b;
      FirstIsOne(item, '=', k, |a|);
    }
  }

  lemma FirstIsOne(s: string, c: char, k: nat, m: nat)
    requires k <= |s| && c !in s[..k] && (k < |s| ==> s[k] == c)
    requires m < |s| && c !in s[..m] && s[m] == c
    ensures k == m
  {
    forall x | 0 <= x < k ensures s[x] != c { assert s[..k][x] == s[x]; }
    forall x | 0 <= x < m ensures s[x] != c { assert s[..m][x] == s[x]; }
  }

  /** The first argument that pairs the two, or the number of arguments. */
  function FirstMention(items: seq<string>, source: string, target: string): (i: nat)
    ensures i <= |items|
    ensures i < |items| ==> Parse(items[i]) == Pair(source, target)
    ensures forall j :: 0 <= j < i ==> Parse(items[j]) != Pair(source, target)
  {
    if items == [] || Parse(items[0]) == Pair(source, target) then 0 else
      1 + FirstMention(items[1..], source, target)
  }

  datatype Result = Maps(mapping: map<string, seq<string>>) | Malformed(item: string)

  /** The targets of every source, each once, in the order first mentioned. */
  ghost predicate Collected(items: seq<string>, n: nat, mapping: map<string, seq<string>>) {
    && (forall s, t :: s in mapping && t in mapping[s] <==> FirstMention(items, s, t) < n)
    && (forall s :: s in mapping ==> mapping[s] != [])
    && (forall s, a, b :: s in mapping && 0 <= a < b < |mapping[s]|
                          ==> FirstMention(items, s, mapping[s][a]) < FirstMention(items, s, mapping[s][b]))
  }

  /** What one more argument does to the maps. */
  ghost function Entered(mapping: map<string, seq<string>>, source: string, target: string): map<string, seq<string>>
  {
    if source !in mapping then mapping[source := [target]]
    else if target !in mapping[source] then mapping[source := mapping[source] + [target]]
    else mapping
  }

  lemma OneMoreEntered(items: seq<string>, i: nat, mapping: map<string, seq<string>>, source: string, target: string)
    requires i < |items| && Collected(items, i, mapping) && Parse(items[i]) == Pair(source, target)
    ensures Collected(items, i + 1, Entered(mapping, source, target))
  {
    hide Parse;
  }

  lemma NothingEntered(items: seq<string>, i: nat, mapping: map<string, seq<string>>)
    requires i < |items| && Collected(items, i, mapping) && !Parse(items[i]).Pair?
    ensures Collected(items, i + 1, mapping)
  {
    hide Parse;
  }

  /** The maps, or the first malformed argument. */
  method ParseWorkspaceMaps(items: seq<string>) returns (r: Result)
    ensures r.Maps? ==> Collected(items, |items|, r.mapping)
    ensures r.Maps? ==> forall i :: 0 <= i < |items| ==> !Parse(items[i]).Invalid?
    ensures r.Malformed? ==> exists i :: 0 <= i < |items| && items[i] == r.item && Parse(items[i]).Invalid?
                                         && forall j :: 0 <= j < i ==> !Parse(items[j]).Invalid?
  {
    var mapping: map<string, seq<string>> := map[];
    assert Collected(items, 0, mapping);
    hide Parse, Collected;
    for i := 0 to |items|
      invariant Collected(items, i, mapping)
      invariant forall j :: 0 <= j < i ==> !Parse(items[j]).Invalid?
    {
      match Parse(items[i])
      case Blank => NothingEntered(items, i, mapping);
      case Invalid => return Malformed(items[i]);
      case Pair(source, target) =>
        OneMoreEntered(items, i, mapping, source, target);
        if source !in mapping {
          mapping := mapping[source := [target]];
        } else if target !in mapping[source] {
          mapping := mapping[source := mapping[source] + [target]];
        }
    }
    r := Maps(mapping);
  }
}
