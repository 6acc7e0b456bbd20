/** What a sync leaves of each stored record, what it adds and how it counts, column by column. */
module SyncEffects {
  import opened Relational
  import opened Wrappers
  import opened Sync

  /** The rows agree in the columns of the key. */
  ghost predicate SameKey(spec: Spec, a: Row, b: Row)
    requires Covers(spec, a) && Covers(spec, b)
  {
    forall c :: c in spec.keyColumns ==> a[c] == b[c]
  }

  lemma KeyIs(spec: Spec, a: Row, b: Row)
    requires Covers(spec, a) && Covers(spec, b)
    ensures KeyOf(spec, a) == KeyOf(spec, b) <==> SameKey(spec, a, b)
  {
    if KeyOf(spec, a) == KeyOf(spec, b) {
      forall c | c in spec.keyColumns ensures a[c] == b[c] {
        var i :| 0 <= i < |spec.keyColumns| && spec.keyColumns[i] == c;
        assert KeyOf(spec, a)[i] == KeyOf(spec, b)[i];
      }
    }
  }

  /** No stored record has the key of the source row. */
  ghost predicate IsNew(spec: Spec, stored: seq<Record>, s: Record)
    requires Covers(spec, s.fields) && AllCover(spec, stored)
  {
    forall i :: 0 <= i < |stored| ==> !SameKey(spec, stored[i].fields, s.fields)
  }

  /** A new record: the source row's id, its key and copied columns, and defaults for the rest. */
  ghost predicate NewRecord(spec: Spec, s: Record, r: Record)
    requires Covers(spec, s.fields)
  {
    && r.id == s.id
    && (forall c :: c in r.fields <==> c in spec.keyColumns || c in spec.names || c in spec.defaults)
    && (forall c :: c in r.fields ==>
          r.fields[c] == if c in spec.keyColumns || c in spec.names then s.fields[c] else spec.defaults[c])
  }

  /** The copied columns come from the source row, the others stay. */
  ghost predicate Overwritten(spec: Spec, s: Record, before: Record, after: Record)
    requires Covers(spec, s.fields)
  {
    && after.id == before.id && after.fields.Keys == before.fields.Keys
    && (forall c :: c in before.fields ==>
          after.fields[c] == if c in spec.names then s.fields[c] else before.fields[c])
  }

  /** Some copied column of the record differs from the source row's. */
  ghost predicate Differs(spec: Spec, s: Record, r: Record)
    requires Covers(spec, s.fields) && Covers(spec, r.fields)
  {
    exists c :: c in spec.names && r.fields[c] != s.fields[c]
  }

  /** What one more source row does to the records and to the counts. */
  ghost predicate OneRow(spec: Spec, stored: seq<Record>, before: State, s: Record, after: State)
    requires Covers(spec, s.fields) && AllCover(spec, stored) && AllCover(spec, before.rows)
    requires |stored| <= |before.rows|
  {
    if IsNew(spec, stored, s) then
      && |after.rows| == |before.rows| + 1 && after.rows[..|before.rows|] == before.rows
      && NewRecord(spec, s, after.rows[|before.rows|])
      && after.created == before.created + 1 && after.updated == before.updated && after.same == before.same
    else exists i :: LastOfKey(spec, stored, s, i) && OneRecord(spec, before, s, after, i)
  }

  /** The last stored record with the key, which is the one the script looks up. */
  ghost predicate LastOfKey(spec: Spec, stored: seq<Record>, s: Record, i: int)
    requires Covers(spec, s.fields) && AllCover(spec, stored)
  {
    && 0 <= i < |stored| && SameKey(spec, stored[i].fields, s.fields)
    && forall j :: i < j < |stored| ==> !SameKey(spec, stored[j].fields, s.fields)
  }

  ghost predicate OneRecord(spec: Spec, before: State, s: Record, after: State, i: int)
    requires Covers(spec, s.fields) && AllCover(spec, before.rows) && 0 <= i < |before.rows|
  {
    && |after.rows| == |before.rows| && Overwritten(spec, s, before.rows[i], after.rows[i])
    && (forall j :: 0 <= j < |before.rows| && j != i ==> after.rows[j] == before.rows[j])
    && after.created == before.created
    && after.updated == before.updated + (if Differs(spec, s, before.rows[i]) then 1 else 0)
    && after.same == before.same + (if Differs(spec, s, before.rows[i]) then 0 else 1)
  }

  lemma CreatedIsNew(spec: Spec, s: Record)
    requires Covers(spec, s.fields)
    ensures NewRecord(spec, s, Created(spec, s))
  {
  }

  lemma PayloadOverwrites(spec: Spec, s: Record, r: Record)
    requires Covers(spec, s.fields) && Covers(spec, r.fields)
    ensures Overwritten(spec, s, r, r.(fields := r.fields + Payload(spec, s.fields)))
    ensures r.fields + Payload(spec, s.fields) == r.fields <==> !Differs(spec, s, r)
  {
    var after := r.fields + Payload(spec, s.fields);
    if !Differs(spec, s, r) {
      assert forall c :: c in after ==> after[c] == r.fields[c];
    } else {
      var c :| c in spec.names && r.fields[c] != s.fields[c];
      assert after[c] != r.fields[c];
    }
  }

  lemma {:induction false} FoundIff(spec: Spec, stored: seq<Record>, s: Record)
    requires Covers(spec, s.fields) && AllCover(spec, stored)
    ensures var found := Find(spec, stored, KeyOf(spec, s.fields));
            && (found.None? <==> IsNew(spec, stored, s))
            && (found.Some? ==> LastOfKey(spec, stored, s, found.value))
  {
    hide KeyOf, SameKey, Covers;
    if stored != [] {
      FoundIff(spec, stored[..|stored| - 1], s);
      KeyIs(spec, stored[|stored| - 1].fields, s.fields);
    }
  }

  lemma StepEffect(spec: Spec, stored: seq<Record>, st: State, s: Record)
    requires Covers(spec, s.fields) && AllCover(spec, stored) && AllCover(spec, st.rows) && |stored| <= |st.rows|
    ensures OneRow(spec, stored, st, s, Step(spec, stored, st, s))
  {
    hide Created, Payload, KeyOf, Covers, SameKey, NewRecord, Overwritten, Differs, Find, IsNew, LastOfKey;
    FoundIff(spec, stored, s);
    match Find(spec, stored, KeyOf(spec, s.fields))
    case None => CreatedIsNew(spec, s);
    case Some(i) =>
      PayloadOverwrites(spec, s, st.rows[i]);
      assert LastOfKey(spec, stored, s, i) && 0 <= i < |stored|;
  }

  /** Source row by source row, each state follows from the one before, the first one being the table as stored. */
  lemma EachRow(spec: Spec, source: seq<Record>, stored: seq<Record>, n: nat)
    requires AllCover(spec, source) && AllCover(spec, stored) && n < |source|
    ensures AllCover(spec, Synced(spec, source[..n], stored).rows)
    ensures n == 0 ==> Synced(spec, source[..n], stored) == State(stored, 0, 0, 0)
    ensures OneRow(spec, stored, Synced(spec, source[..n], stored), source[n], Synced(spec, source[..n + 1], stored))
  {
    SyncedExtends(spec, source[..n], stored);
    assert source[..n + 1][..n] == source[..n];
    hide Covers, OneRow, Step, Extends;
    StepEffect(spec, stored, Synced(spec, source[..n], stored), source[n]);
  }
}
