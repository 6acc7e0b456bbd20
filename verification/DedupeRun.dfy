/** The deduplication run, on records updated in place. */
module DedupeRun {
  import opened Names
  import opened Strings
  import opened Dedupe
  import DedupeOrder
  import opened Wrappers

  class BacklogRecord {
    const id: string
    const uncertaintyKey: string
    const productMode: string
    const title: string
    const description: string
    const assumedAnswer: string
    const suggestedAnswer: string
    const confidence: real
    var status: string
    var targetStage: string
    var sourceRefs: seq<string>
    var deliverableKeys: seq<string>
    var dependencyKeys: seq<string>
    var payload: map<string, Payload>
    var updatedAt: int
    var supersededAt: Option<int>

    constructor (q: Question)
      ensures View() == q
    {
      id, uncertaintyKey, productMode := q.id, q.uncertaintyKey, q.productMode;
      title, description := q.title, q.description;
      assumedAnswer, suggestedAnswer, confidence := q.assumedAnswer, q.suggestedAnswer, q.confidence;
      status, targetStage := q.status, q.targetStage;
      sourceRefs, deliverableKeys, dependencyKeys := q.sourceRefs, q.deliverableKeys, q.dependencyKeys;
      payload, updatedAt, supersededAt := q.payload, q.updatedAt, q.supersededAt;
    }

    function View(): Question
      reads this
    {
      Question(id, uncertaintyKey, productMode, title, description, assumedAnswer, suggestedAnswer, confidence,
               status, targetStage, sourceRefs, deliverableKeys, dependencyKeys, payload, updatedAt, supersededAt)
    }

    /** `_backlog_signature` reads only what a run never changes. */
    function SignatureText(sig: Signature): (text: string) {
      sig(if description != "" then description else title, uncertaintyKey)
    }

    /** The winner's part: the merged lists and a note of the merged records. */
    method Absorb(signature: string, others: seq<string>, refs: seq<string>, deliverables: seq<string>,
                  dependencies: seq<string>, now: int)
      modifies this
      ensures View() == old(View()).(payload := old(View()).payload["dedupe_signature" := Text(signature)]
                                                                    ["merged_uncertainty_ids" := Texts(others)],
                                     sourceRefs := refs, deliverableKeys := deliverables,
                                     dependencyKeys := dependencies, updatedAt := now)
    {
      sourceRefs, deliverableKeys, dependencyKeys := refs, deliverables, dependencies;
      payload := payload["dedupe_signature" := Text(signature)]["merged_uncertainty_ids" := Texts(others)];
      updatedAt := now;
    }

    /** A duplicate's part: it is closed and points to the winner. */
    method Supersede(signature: string, winnerId: string, now: int)
      modifies this
      ensures View() == Superseded(signature, old(View()), winnerId, now)
    {
      status, targetStage := "superseded", "closed";
      payload := payload["dedupe_signature" := Text(signature)]["superseded_by" := Text(winnerId)]
                        ["superseded_reason" := Text("duplicate_acp_question")];
      supersededAt, updatedAt := Some(now), now;
    }
  }

  function Views(records: seq<BacklogRecord>): (views: seq<Question>)
    reads records
    ensures |views| == |records| && forall i :: 0 <= i < |records| ==> views[i] == records[i].View()
  {
    if records == [] then [] else Views(records[..|records| - 1]) + [records[|records| - 1].View()]
  }

  ghost predicate DistinctRecords(records: seq<BacklogRecord>) {
    forall i, j :: 0 <= i < j < |records| ==> records[i].id != records[j].id
  }

  method MergeUniqueStrings(values: seq<string>) returns (merged: seq<string>)
    ensures merged == MergeUnique(values)
  {
    hide Strip;
    var seen: set<string> := {};
    merged := [];
    for i := 0 to |values|
      invariant merged == MergeUnique(values[..i]) && seen == Elems(merged)
    {
      assert values[..i + 1][..i] == values[..i];
      var text := Strip(values[i]);
      if text != "" && text !in seen {
        seen := seen + {text};
        merged := merged + [text];
      }
    }
    assert values[..|values|] == values;
  }

  method GroupBySignature(records: seq<BacklogRecord>, sig: Signature)
    returns (order: seq<string>, grouped: map<string, seq<BacklogRecord>>)
    ensures Distinct(order) && Elems(order) == grouped.Keys
    ensures forall r :: r in records ==> r.SignatureText(sig) in grouped
    ensures forall s :: s in grouped ==> grouped[s] == Sharing(records, sig, s) != []
  {
    order, grouped := [], map[];
    for i := 0 to |records|
      invariant Distinct(order) && Elems(order) == grouped.Keys
      invariant forall r :: r in records[..i] ==> r.SignatureText(sig) in grouped
      invariant forall s :: s in grouped ==> grouped[s] == Sharing(records[..i], sig, s) != []
      invariant forall s :: s !in grouped ==> Sharing(records[..i], sig, s) == []
    {
      assert records[..i + 1][..i] == records[..i];
      var s := records[i].SignatureText(sig);
      if s !in grouped {
        order := order + [s];
        grouped := grouped[s := []];
      }
      grouped := grouped[s := grouped[s] + [records[i]]];
    }
    assert records[..|records|] == records;
  }

  function Sharing(records: seq<BacklogRecord>, sig: Signature, s: string): seq<BacklogRecord> {
    if records == [] then [] else
      var last := records[|records| - 1];
      var before := Sharing(records[..|records| - 1], sig, s);
      if last.SignatureText(sig) == s then before + [last] else before
  }

  lemma LastIsNew(records: seq<BacklogRecord>)
    requires records != [] && DistinctRecords(records)
    ensures DistinctRecords(records[..|records| - 1])
    ensures forall r :: r in records[..|records| - 1] ==> r.id != records[|records| - 1].id
  {
    forall r | r in records[..|records| - 1] ensures r.id != records[|records| - 1].id {
      var i :| 0 <= i < |records| - 1 && records[i] == r;
    }
  }

  lemma AppendNew(records: seq<BacklogRecord>, r: BacklogRecord)
    requires DistinctRecords(records) && forall x :: x in records ==> x.id != r.id
    ensures DistinctRecords(records + [r])
  {
    forall i | 0 <= i < |records| ensures records[i].id != r.id { assert records[i] in records; }
  }

  lemma {:induction false} SharingIs(records: seq<BacklogRecord>, sig: Signature, s: string)
    ensures forall r :: r in Sharing(records, sig, s) ==> r in records && r.SignatureText(sig) == s
    ensures forall r :: r in records && r.SignatureText(sig) == s ==> r in Sharing(records, sig, s)
  {
    if records != [] {
      var init := records[..|records| - 1];
      assert records == init + [records[|records| - 1]];
      SharingIs(init, sig, s);
    }
  }

  lemma {:induction false} SharingIsDistinct(records: seq<BacklogRecord>, sig: Signature, s: string)
    requires DistinctRecords(records)
    ensures DistinctRecords(Sharing(records, sig, s))
  {
    if records != [] {
      LastIsNew(records);
      SharingIsDistinct(records[..|records| - 1], sig, s);
      SharingIs(records[..|records| - 1], sig, s);
      if Sharing(records, sig, s) != Sharing(records[..|records| - 1], sig, s) {
        AppendNew(Sharing(records[..|records| - 1], sig, s), records[|records| - 1]);
      }
    }
  }

  function Loaded(backlog: seq<BacklogRecord>, mode: string): seq<BacklogRecord>
    reads backlog
  {
    if backlog == [] then [] else
      var last := backlog[|backlog| - 1];
      var before := Loaded(backlog[..|backlog| - 1], mode);
      if Active(last.View(), mode) then before + [last] else before
  }

  lemma {:induction false} LoadedIs(backlog: seq<BacklogRecord>, mode: string)
    ensures forall r :: r in Loaded(backlog, mode) ==> r in backlog && Active(r.View(), mode)
    ensures forall r :: r in backlog && Active(r.View(), mode) ==> r in Loaded(backlog, mode)
  {
    hide Active, BacklogRecord.View;
    if backlog != [] {
      var init := backlog[..|backlog| - 1];
      assert backlog == init + [backlog[|backlog| - 1]];
      LoadedIs(init, mode);
    }
  }

  lemma {:induction false} LoadedIsDistinct(backlog: seq<BacklogRecord>, mode: string)
    requires DistinctRecords(backlog)
    ensures DistinctRecords(Loaded(backlog, mode))
  {
    hide Active, BacklogRecord.View;
    if backlog != [] {
      LastIsNew(backlog);
      LoadedIsDistinct(backlog[..|backlog| - 1], mode);
      LoadedIs(backlog[..|backlog| - 1], mode);
      if Loaded(backlog, mode) != Loaded(backlog[..|backlog| - 1], mode) {
        AppendNew(Loaded(backlog[..|backlog| - 1], mode), backlog[|backlog| - 1]);
      }
    }
  }

  lemma ViewsAppend(records: seq<BacklogRecord>, r: BacklogRecord)
    ensures Views(records + [r]) == Views(records) + [r.View()]
  {
    hide BacklogRecord.View;
    assert (records + [r])[..|records|] == records;
  }

  /** Loading and then grouping gives the groups of the whole backlog. */
  lemma {:induction false} GroupsAreMembers(backlog: seq<BacklogRecord>, mode: string, sig: Signature, s: string)
    ensures Views(Sharing(Loaded(backlog, mode), sig, s)) == Members(Views(backlog), mode, sig, s)
  {
    hide Active;
    if backlog != [] {
      var init, last := backlog[..|backlog| - 1], backlog[|backlog| - 1];
      GroupsAreMembers(init, mode, sig, s);
      assert Views(backlog)[..|backlog| - 1] == Views(init);
      var loaded := Loaded(init, mode);
      assert (loaded + [last])[..|loaded|] == loaded;
      ViewsAppend(Sharing(loaded, sig, s), last);
      assert SignatureOf(sig, last.View()) == last.SignatureText(sig);
    }
  }

  /** `max` keeps the first record of highest rank. */
  method Best(group: seq<Question>) returns (w: nat)
    requires group != []
    ensures w < |group| && w == Winner(group)
  {
    hide BacklogRank, Below;
    w := 0;
    for i := 1 to |group|
      invariant w < i && w == Winner(group[..i])
    {
      assert group[..i + 1][..i] == group[..i];
      if Below(BacklogRank(group[w]), BacklogRank(group[i])) { w := i; }
    }
    assert group[..|group|] == group;
  }

  method ApplyBacklogGroup(signature: string, group: seq<BacklogRecord>, now: int) returns (count: nat)
    requires group != [] && DistinctRecords(group)
    modifies set r | r in group
    ensures forall i :: 0 <= i < |group| ==>
              group[i].View() == Applied(signature, old(Views(group)), old(Views(group))[i], now)
    ensures count == |group| - 1
  {
    hide BacklogRank, Below, MergeUnique, Concat, Strip, Superseded, OtherIds, Views, Winner;
    var views := Views(group);
    var w := Best(views);
    var winner := group[w];
    var refs := MergeUniqueStrings(Concat(SourceRefs(views)));
    var deliverables := MergeUniqueStrings(Concat(DeliverableKeys(views)));
    var dependencies := MergeUniqueStrings(Concat(DependencyKeys(views)));
    winner.Absorb(signature, OtherIds(views, winner.id), refs, deliverables, dependencies, now);
    count := 0;
    for i := 0 to |group|
      invariant count == if w < i then i - 1 else i
      invariant group[w].View() == Merged(signature, views, views[w], now)
      invariant forall j :: 0 <= j < i && j != w ==> group[j].View() == Superseded(signature, views[j], winner.id, now)
      invariant forall j :: i <= j < |group| && j != w ==> group[j].View() == views[j]
    {
      if group[i].id != winner.id {
        group[i].Supersede(signature, winner.id, now);
        count := count + 1;
      }
    }
  }

  /** The groups of the signatures in `finished` are deduplicated, the others are as they were. */
  ghost predicate Progress(backlog: seq<BacklogRecord>, was: seq<Question>, mode: string, sig: Signature,
                           finished: set<string>, now: int)
    reads backlog
  {
    && |was| == |backlog|
    && forall k :: 0 <= k < |backlog| ==>
         backlog[k].View() == if Active(was[k], mode) && SignatureOf(sig, was[k]) in finished
                              then Deduped(was, mode, sig, was[k], now) else was[k]
  }

  /** The records of the backlog in the group of a signature, in the order loaded. */
  ghost predicate IsGroup(backlog: seq<BacklogRecord>, was: seq<Question>, mode: string, sig: Signature,
                          s: string, group: seq<BacklogRecord>)
  {
    && |was| == |backlog| && group != [] && DistinctRecords(group) && (forall r :: r in group ==> r in backlog)
    && (forall k :: 0 <= k < |backlog| ==> (backlog[k] in group <==> InGroup(was[k], mode, sig, s)))
    && |group| == |Members(was, mode, sig, s)|
    && forall j, k :: 0 <= j < |group| && 0 <= k < |backlog| && group[j] == backlog[k]
                      ==> Members(was, mode, sig, s)[j] == was[k]
  }

  lemma GroupUntouched(backlog: seq<BacklogRecord>, was: seq<Question>, mode: string, sig: Signature,
                       finished: set<string>, s: string, group: seq<BacklogRecord>, now: int)
    requires Progress(backlog, was, mode, sig, finished, now) && s !in finished
    requires IsGroup(backlog, was, mode, sig, s, group)
    ensures Views(group) == Members(was, mode, sig, s)
  {
    hide Active, SignatureOf, Members, Deduped, BacklogRecord.View;
    forall j | 0 <= j < |group| ensures group[j].View() == Members(was, mode, sig, s)[j] {
      assert group[j] in group;
      var k :| 0 <= k < |backlog| && backlog[k] == group[j];
    }
  }

  lemma {:induction false} LoadedSize(backlog: seq<BacklogRecord>, mode: string)
    ensures |Loaded(backlog, mode)| == |ActiveIndices(Views(backlog), mode)|
  {
    hide Active, ActiveIndices, BacklogRecord.View, Views;
    if backlog == [] {
      assert Views(backlog) == [];
      NoneActive(mode);
    } else {
      var init, last := backlog[..|backlog| - 1], backlog[|backlog| - 1];
      LoadedSize(init, mode);
      ViewsAppend(init, last);
      assert backlog == init + [last];
      OneMore(Views(init), last.View(), mode);
    }
  }

  lemma SharedIsGroup(backlog: seq<BacklogRecord>, mode: string, sig: Signature, s: string,
                      group: seq<BacklogRecord>)
    requires DistinctRecords(backlog) && group == Sharing(Loaded(backlog, mode), sig, s) != []
    ensures IsGroup(backlog, Views(backlog), mode, sig, s, group)
  {
    hide Active, Loaded, Sharing, Members;
    LoadedIs(backlog, mode);
    LoadedIsDistinct(backlog, mode);
    SharingIs(Loaded(backlog, mode), sig, s);
    SharingIsDistinct(Loaded(backlog, mode), sig, s);
    GroupsAreMembers(backlog, mode, sig, s);
    forall k | 0 <= k < |backlog|
      ensures backlog[k] in group <==> InGroup(Views(backlog)[k], mode, sig, s)
    {
      assert SignatureOf(sig, backlog[k].View()) == backlog[k].SignatureText(sig);
      assert backlog[k] in backlog;
    }
  }

  /** Loads the active records and groups them. */
  method LoadGroups(backlog: seq<BacklogRecord>, mode: string, sig: Signature)
    returns (count: nat, order: seq<string>, grouped: map<string, seq<BacklogRecord>>)
    requires DistinctRecords(backlog)
    ensures count == |ActiveIndices(Views(backlog), mode)|
    ensures Distinct(order) && Elems(order) == grouped.Keys
    ensures forall s :: s in grouped ==> IsGroup(backlog, Views(backlog), mode, sig, s, grouped[s])
    ensures forall q :: q in Views(backlog) && Active(q, mode) ==> SignatureOf(sig, q) in grouped
  {
    hide Active, Loaded, Sharing, Members, IsGroup;
    var records := Loaded(backlog, mode);
    LoadedSize(backlog, mode);
    LoadedIs(backlog, mode);
    count := |records|;
    order, grouped := GroupBySignature(records, sig);
    forall s | s in grouped ensures IsGroup(backlog, Views(backlog), mode, sig, s, grouped[s]) {
      SharedIsGroup(backlog, mode, sig, s, grouped[s]);
    }
    forall q | q in Views(backlog) && Active(q, mode) ensures SignatureOf(sig, q) in grouped {
      var k :| 0 <= k < |backlog| && Views(backlog)[k] == q;
      assert backlog[k] in backlog;
      assert SignatureOf(sig, q) == backlog[k].SignatureText(sig);
    }
  }

  method ApplyNext(backlog: seq<BacklogRecord>, ghost was: seq<Question>, mode: string, sig: Signature,
                   ghost finished: set<string>, s: string, group: seq<BacklogRecord>, now: int)
    returns (count: nat)
    requires Progress(backlog, was, mode, sig, finished, now) && s !in finished
    requires IsGroup(backlog, was, mode, sig, s, group)
    modifies set r | r in group
    ensures Progress(backlog, was, mode, sig, finished + {s}, now)
    ensures count == |group| - 1
  {
    hide Active, SignatureOf, Members, Applied;
    GroupUntouched(backlog, was, mode, sig, finished, s, group, now);
    count := 0;
    if |group| > 1 {
      count := ApplyBacklogGroup(s, group, now);
    }
  }

  method ApplyAll(backlog: seq<BacklogRecord>, ghost was: seq<Question>, mode: string, sig: Signature,
                  order: seq<string>, grouped: map<string, seq<BacklogRecord>>, now: int)
    returns (superseded: nat)
    requires DistinctIds(was) && Views(backlog) == was && Distinct(order) && Elems(order) == grouped.Keys
    requires forall s :: s in grouped ==> IsGroup(backlog, was, mode, sig, s, grouped[s])
    modifies set r | r in backlog
    ensures Progress(backlog, was, mode, sig, grouped.Keys, now)
    ensures |ActiveIndices(was, mode)| == |StillActive(was, mode, sig, grouped.Keys)| + superseded
  {
    hide Active, SignatureOf, Deduped, Members, Keeper, Views;
    superseded := 0;
    assert StillActive(was, mode, sig, {}) == ActiveIndices(was, mode);
    assert Elems(order[..0]) == {};
    for i := 0 to |order|
      invariant Progress(backlog, was, mode, sig, Elems(order[..i]), now)
      invariant |ActiveIndices(was, mode)| == |StillActive(was, mode, sig, Elems(order[..i]))| + superseded
    {
      var s := order[i];
      assert s in Elems(order);
      assert Elems(order[..i + 1]) == Elems(order[..i]) + {s};
      FinishingAGroup(was, mode, sig, Elems(order[..i]), s);
      assert forall r :: r in grouped[s] ==> r in backlog;
      var count := ApplyNext(backlog, was, mode, sig, Elems(order[..i]), s, grouped[s], now);
      superseded := superseded + count;
    }
    assert order[..|order|] == order;
  }

  /** The run: every record ends as `DedupeAll` says, and the count is what the active backlog lost. */
  method Run(backlog: seq<BacklogRecord>, mode: string, sig: Signature, now: int, apply: bool)
    returns (activeBefore: nat, superseded: nat)
    requires DistinctRecords(backlog)
    modifies set r | r in backlog
    ensures Views(backlog) == if apply then DedupeAll(old(Views(backlog)), mode, sig, now) else old(Views(backlog))
    // Record by record: the best of those that ask the same takes the rest in, and they are closed.
    ensures apply ==> DedupeOrder.AllEnd(old(Views(backlog)), mode, sig, Views(backlog), now)
    ensures activeBefore == |ActiveIndices(old(Views(backlog)), mode)|
    ensures activeBefore == |ActiveIndices(Views(backlog), mode)| + superseded
  {
    hide Active, SignatureOf, Deduped, Members, Keeper, IsGroup;
    ghost var was := Views(backlog);
    var order, grouped;
    activeBefore, order, grouped := LoadGroups(backlog, mode, sig);
    superseded := 0;
    if apply {
      superseded := ApplyAll(backlog, was, mode, sig, order, grouped, now);
      AllGroupsFinished(was, mode, sig, grouped.Keys, now);
      assert Views(backlog) == DedupeAll(was, mode, sig, now) by {
        hide DistinctRecords, DistinctIds;
        forall k | 0 <= k < |backlog| ensures backlog[k].View() == Deduped(was, mode, sig, was[k], now) {
          assert was[k] in was;
          InactiveStays(was, mode, sig, was[k], now);
        }
      }
      DedupeOrder.RunEnds(was, mode, sig, now);
    }
  }

  lemma InactiveStays(was: seq<Question>, mode: string, sig: Signature, q: Question, now: int)
    ensures !Active(q, mode) ==> Deduped(was, mode, sig, q, now) == q
  {
  }
}
