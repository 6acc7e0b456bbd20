/** The sync of one table, on target records updated in place, and the workspace map arguments. */
module SyncRun {
  import opened Relational
  import opened Sync

  class TargetRecord {
    const id: Uuid
    var fields: Row

    constructor (r: Record)
      ensures View() == r
    {
      id, fields := r.id, r.fields;
    }

    function View(): Record
      reads this
    {
      Record(id, fields)
    }

    /** `_apply_fields`: the copied fields are overwritten, and the answer is whether any of them differed. */
    method ApplyFields(spec: Spec, s: Record) returns (changed: bool)
      requires Covers(spec, s.fields) && Covers(spec, fields)
      modifies this
      ensures fields == old(fields) + Payload(spec, s.fields)
      ensures changed <==> fields != old(fields)
    {
      changed := false;
      ghost var was := fields;
      for i := 0 to |spec.names|
        invariant fields == was + Pick(spec.names[..i], s.fields)
        invariant changed <==> fields != was
      {
        var name := spec.names[i];
        PickNext(spec.names, i, s.fields, was);
        if fields[name] != s.fields[name] {
          assert fields[name] == was[name];
          fields := fields[name := s.fields[name]];
          changed := true;
          assert fields[name] != was[name];
        } else {
          assert fields == fields[name := s.fields[name]];
        }
      }
      assert spec.names[..|spec.names|] == spec.names;
    }
  }

  lemma PickNext(names: seq<Column>, i: nat, row: Row, was: Row)
    requires i < |names| && forall c :: c in names ==> c in row
    ensures was + Pick(names[..i + 1], row) == (was + Pick(names[..i], row))[names[i] := row[names[i]]]
  {
    assert names[..i + 1] == names[..i] + [names[i]];
  }

  function Views(records: seq<TargetRecord>): (views: seq<Record>)
    reads records
    ensures |views| == |records| && forall i :: 0 <= i < |records| ==> views[i] == records[i].View()
  {
    if records == [] then [] else Views(records[..|records| - 1]) + [records[|records| - 1].View()]
  }

  datatype Summary = Summary(created: nat, updated: nat, same: nat, extras: nat)

  ghost predicate AllDistinct(records: seq<TargetRecord>) {
    forall i, j :: 0 <= i < j < |records| ==> records[i] != records[j]
  }

  /** The lookup dictionary over the loaded records. */
  ghost predicate LooksUp(spec: Spec, stored: seq<Record>, loaded: seq<TargetRecord>, lookup: map<Key, TargetRecord>)
    requires AllCover(spec, stored) && |loaded| == |stored|
  {
    forall key :: match Find(spec, stored, key)
                  case None => key !in lookup
                  case Some(i) => key in lookup && lookup[key] == loaded[i]
  }

  method LoadTarget(spec: Spec, stored: seq<Record>)
    returns (loaded: seq<TargetRecord>, lookup: map<Key, TargetRecord>)
    requires AllCover(spec, stored)
    ensures |loaded| == |stored| && fresh(loaded) && AllDistinct(loaded)
    ensures forall i :: 0 <= i < |loaded| ==> loaded[i].View() == stored[i]
    ensures LooksUp(spec, stored, loaded, lookup)
  {
    hide KeyOf, Covers;
    loaded, lookup := [], map[];
    for i := 0 to |stored|
      invariant |loaded| == i && fresh(loaded) && AllDistinct(loaded)
      invariant forall j :: 0 <= j < i ==> loaded[j].View() == stored[j]
      invariant LooksUp(spec, stored[..i], loaded, lookup)
    {
      assert stored[..i + 1][..i] == stored[..i];
      var record := new TargetRecord(stored[i]);
      loaded := loaded + [record];
      lookup := lookup[KeyOf(spec, stored[i].fields) := record];
    }
    assert stored[..|stored|] == stored;
  }

  /** The session holds what the specification says: the loaded records, and the added ones unless it is a dry run. */
  ghost predicate Holds(rows: seq<Record>, n: nat, loaded: seq<TargetRecord>, added: seq<TargetRecord>, dryRun: bool)
    reads loaded, added
  {
    && |loaded| == n <= |rows|
    && (forall i :: 0 <= i < n ==> loaded[i].View() == rows[i])
    && if dryRun then added == []
       else |added| == |rows| - n && forall i :: 0 <= i < |added| ==> added[i].View() == rows[n + i]
  }

  /** One source row. */
  method SyncRow(spec: Spec, ghost stored: seq<Record>, ghost st: State, s: Record, loaded: seq<TargetRecord>,
                 added: seq<TargetRecord>, lookup: map<Key, TargetRecord>, dryRun: bool)
    returns (more: seq<TargetRecord>, made: bool, changed: bool)
    requires AllCover(spec, stored) && AllCover(spec, st.rows) && Covers(spec, s.fields)
    requires Extends(spec, stored, st.rows) && Holds(st.rows, |stored|, loaded, added, dryRun)
    requires LooksUp(spec, stored, loaded, lookup) && AllDistinct(loaded)
    requires forall k :: 0 <= k < |added| ==> added[k] !in loaded
    modifies set r | r in loaded
    ensures Holds(Step(spec, stored, st, s).rows, |stored|, loaded, more, dryRun)
    ensures |added| <= |more| && more[..|added|] == added && fresh(more[|added|..])
    ensures forall k :: 0 <= k < |more| ==> more[k] !in loaded
    ensures var next := Step(spec, stored, st, s);
            && next.created == st.created + (if made then 1 else 0)
            && next.updated == st.updated + (if !made && changed then 1 else 0)
            && next.same == st.same + (if !made && !changed then 1 else 0)
  {
    hide KeyOf, Covers, Created, Payload;
    var key := KeyOf(spec, s.fields);
    more, made, changed := added, key !in lookup, false;
    if made {
      if !dryRun {
        var record := new TargetRecord(Created(spec, s));
        more := added + [record];
      }
    } else {
      ghost var i := Find(spec, stored, key).value;
      assert lookup[key] == loaded[i] && loaded[i].View() == st.rows[i];
      changed := lookup[key].ApplyFields(spec, s);
    }
  }

  /** One `_sync_*` function. A dry run changes the loaded records too, but commits nothing. */
  method SyncTable(spec: Spec, source: seq<Record>, stored: seq<Record>, dryRun: bool)
    returns (summary: Summary, after: seq<Record>, failed: bool)
    requires AllCover(spec, source) && AllCover(spec, stored)
    ensures var st := Synced(spec, source, stored);
            && summary == Summary(st.created, st.updated, st.same, Extras(|Keys(spec, stored)|, |source|))
            && (failed <==> !dryRun && !UniqueIds(st.rows))
            && after == if dryRun || failed then stored else st.rows
  {
    hide KeyOf, Covers, UniqueIds, Step, Extends, AllDistinct, LooksUp;
    var loaded, lookup := LoadTarget(spec, stored);
    var added: seq<TargetRecord> := [];
    var created, updated, same := 0, 0, 0;
    for i := 0 to |source|
      invariant var st := Synced(spec, source[..i], stored);
                && created == st.created && updated == st.updated && same == st.same
                && Holds(st.rows, |stored|, loaded, added, dryRun)
      invariant fresh(loaded) && fresh(added)
      invariant forall k :: 0 <= k < |added| ==> added[k] !in loaded
    {
      assert source[..i + 1][..i] == source[..i];
      ghost var st := Synced(spec, source[..i], stored);
      SyncedExtends(spec, source[..i], stored);
      var more, made, changed := SyncRow(spec, stored, st, source[i], loaded, added, lookup, dryRun);
      assert more == more[..|added|] + more[|added|..];
      added := more;
      if made { created := created + 1; }
      else if changed { updated := updated + 1; }
      else { same := same + 1; }
    }
    assert source[..|source|] == source;
    LookupSize(spec, stored, loaded, lookup);
    summary := Summary(created, updated, same, Extras(|lookup|, |source|));
    after, failed := stored, false;
    if !dryRun {
      var flushed := Views(loaded + added);
      assert flushed == Synced(spec, source, stored).rows;
      if UniqueIds(flushed) { after := flushed; } else { failed := true; }
    }
  }

  lemma LookupSize(spec: Spec, stored: seq<Record>, loaded: seq<TargetRecord>, lookup: map<Key, TargetRecord>)
    requires AllCover(spec, stored) && |loaded| == |stored| && LooksUp(spec, stored, loaded, lookup)
    ensures |lookup| == |Keys(spec, stored)|
  {
    hide KeyOf, Covers, Keys;
    forall key ensures key in lookup.Keys <==> key in Keys(spec, stored) {
      StoredKeys(spec, stored, key);
    }
    assert lookup.Keys == Keys(spec, stored);
    assert |lookup| == |lookup.Keys|;
  }
}
