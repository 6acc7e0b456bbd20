/** The traversal of `sanitize_value` against the shared, growing registry dictionary. */
module SanitizerRun {
  import opened Names
  import opened Sanitizer
  import opened SanitizerShape

  class UuidRegistry {
    var aliases: map<Uuid, nat>
    ghost var order: Registry

    ghost predicate Valid()
      reads this
    {
      && Distinct(order) && aliases.Keys == Elems(order)
      && forall raw :: raw in aliases ==> aliases[raw] == IndexOf(order, raw) + 1
    }

    constructor ()
      ensures Valid() && order == []
    {
      aliases, order := map[], [];
    }

    /** `registry[raw] = f"<uuid-{len(registry) + 1}>"` for a new UUID. */
    method AliasUuid(raw: Uuid) returns (t: Token)
      requires Valid()
      modifies this
      ensures Valid() && order == Register(old(order), raw) && t == AliasOf(old(order), raw)
    {
      if raw !in aliases {
        DistinctSize(order);
        assert |aliases| == |aliases.Keys|;
        forall x | x in order ensures IndexOf(order + [raw], x) == IndexOf(order, x) {
          IndexStable(order, [raw], x);
        }
        IndexStable(order, [raw], raw);
        aliases := aliases[raw := |aliases| + 1];
        order := order + [raw];
      }
      t := Alias(aliases[raw]);
    }

    /** The substitution inside text, from left to right. */
    method SubstituteText(text: seq<Token>) returns (out: seq<Token>)
      requires Valid()
      modifies this
      ensures Valid() && order == RegisterText(old(order), text) && out == SubText(order, text)
    {
      hide SubText, AliasOf, Register;
      out := [];
      NoText(order);
      assert text[..0] == [];
      for i := 0 to |text|
        invariant Valid() && order == RegisterText(old(order), text[..i]) && out == SubText(order, text[..i])
      {
        assert text[..i + 1][..i] == text[..i];
        ghost var before := order;
        match text[i]
        case Id(raw) =>
          var t := AliasUuid(raw);
          RegisterTextGrows(old(order), text[..i]);
          SubTextNext(before, text, i, raw);
          out := out + [t];
        case Stamp(_) =>
          SubTextSame(order, text, i);
          out := out + [Mark];
        case t =>
          SubTextSame(order, text, i);
          out := out + [t];
      }
      assert text[..|text|] == text;
    }

    method SanitizeString(text: seq<Token>, key: ParentKey) returns (out: seq<Token>)
      requires Valid()
      modifies this
      ensures Valid() && (order, out) == SanitizeText(text, old(order), key)
    {
      if IsIdKey(key) {
        if WholeUuid(text) {
          var t := AliasUuid(text[0].raw);
          return [t];
        }
        return text;
      }
      if IsAtKey(key) {
        return [Mark];
      }
      if WholeUuid(text) {
        var t := AliasUuid(text[0].raw);
        return [t];
      }
      if |text| == 1 && text[0].Stamp? {
        assert text[..|text| - 1] == [] && RegisterText(order, text) == order;
        assert SubText(order, text) == [Mark];
        return [Mark];
      }
      out := SubstituteText(text);
    }

    method SanitizeValue(value: Json, key: ParentKey) returns (out: Json)
      requires Valid()
      modifies this
      ensures Valid() && (order, out) == Sanitize(value, old(order), key)
      // All is kept but for the UUIDs, numbered in the order they are met, and the timestamps.
      ensures Becomes(value, out, key, old(order) + Met(value, key))
      decreases value
    {
      hide Becomes, Met, Firsts;
      FirstsOfDistinct(order);
      Shape(value, order, key, order + Met(value, key));
      match value
      case Obj(entries) =>
        var result: seq<(string, Json)> := [];
        for i := 0 to |entries|
          invariant Valid() && (order, result) == SanitizeEntries(value, entries[..i], old(order))
        {
          assert entries[..i + 1][..i] == entries[..i];
          var item := SanitizeValue(entries[i].1, Key(entries[i].0));
          result := result + [(entries[i].0, item)];
        }
        assert entries[..|entries|] == entries;
        out := Obj(result);
      case Arr(items) =>
        var result: seq<Json> := [];
        for i := 0 to |items|
          invariant Valid() && (order, result) == SanitizeItems(value, items[..i], old(order), key)
        {
          assert items[..i + 1][..i] == items[..i];
          var item := SanitizeValue(items[i], key);
          result := result + [item];
        }
        assert items[..|items|] == items;
        out := Arr(result);
      case Str(text) =>
        var t := SanitizeString(text, key);
        out := Str(t);
      case _ => out := value;
    }
  }

  lemma SubTextStable(r: Registry, all: Registry, text: seq<Token>)
    requires r <= all && forall i :: 0 <= i < |text| && text[i].Id? ==> text[i].raw in r
    ensures SubText(all, text) == SubText(r, text)
  {
    forall i | 0 <= i < |text| && text[i].Id? ensures AliasOf(all, text[i].raw) == AliasOf(r, text[i].raw) {
      IndexInPrefix(r, all, text[i].raw);
    }
  }

  /** The next token, a UUID, under the registry that holds it. */
  lemma SubTextNext(before: Registry, text: seq<Token>, i: nat, raw: Uuid)
    requires i < |text| && text[i] == Id(raw)
    requires forall j :: 0 <= j < i && text[j].Id? ==> text[j].raw in before
    ensures SubText(Register(before, raw), text[..i + 1]) == SubText(before, text[..i]) + [AliasOf(before, raw)]
  {
    hide AliasOf, IndexOf;
    var after := Register(before, raw);
    SubTextStable(before, after, text[..i]);
    NewAlias(before, raw);
    assert SubText(after, text[..i + 1]) == SubText(after, text[..i]) + [AliasOf(after, raw)];
  }

  lemma NoText(r: Registry)
    ensures SubText(r, []) == []
  {
  }

  lemma SubTextSame(r: Registry, text: seq<Token>, i: nat)
    requires i < |text| && !text[i].Id?
    ensures SubText(r, text[..i + 1]) == SubText(r, text[..i]) + [if text[i].Stamp? then Mark else text[i]]
  {
    hide AliasOf;
  }

  lemma NewAlias(r: Registry, raw: Uuid)
    ensures AliasOf(Register(r, raw), raw) == AliasOf(r, raw)
  {
    IndexStable(r, [raw], raw);
  }

  /** The three payloads of a case go through one registry. */
  method BuildCasePayloads(snapshot: Json, export_: Json, index: Json) returns (out: seq<Json>)
    ensures out == BuildCase(snapshot, export_, index)
    ensures |out| == 3
    ensures var met := Met(snapshot, NoKey) + Met(export_, NoKey) + Met(index, NoKey);
            Becomes(snapshot, out[0], NoKey, met) && Becomes(export_, out[1], NoKey, met)
            && Becomes(index, out[2], NoKey, met)
  {
    hide Becomes, Met;
    var registry := new UuidRegistry();
    var a := registry.SanitizeValue(snapshot, NoKey);
    var b := registry.SanitizeValue(export_, NoKey);
    var c := registry.SanitizeValue(index, NoKey);
    out := [a, b, c];
    CaseShape(snapshot, export_, index);
  }

  lemma CaseShape(a: Json, b: Json, c: Json)
    ensures |BuildCase(a, b, c)| == 3
    ensures var out, met := BuildCase(a, b, c), Met(a, NoKey) + Met(b, NoKey) + Met(c, NoKey);
            Becomes(a, out[0], NoKey, met) && Becomes(b, out[1], NoKey, met) && Becomes(c, out[2], NoKey, met)
  {
    hide Becomes, Met, Sanitize, Firsts;
    var x, y, z := Met(a, NoKey), Met(b, NoKey), Met(c, NoKey);
    assert Firsts([]) == [] by { FirstsOfDistinct([]); }
    assert [] + x == x;
    Shape(a, [], NoKey, x + y + z);
    Shape(b, x, NoKey, x + y + z);
    Shape(c, x + y, NoKey, x + y + z);
  }
}
