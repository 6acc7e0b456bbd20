/** Deduplicating the open questions: `scripts/dedupe_acp_questions.py`, as functions on records. */
module Dedupe {
  import opened Names
  import opened Strings
  import opened Wrappers

  /** `merge_unique_strings`: stripped, without blanks, each string once, in the order first met. */
  function MergeUnique(values: seq<string>): seq<string> {
    if values == [] then [] else
      var before, text := MergeUnique(values[..|values| - 1]), Strip(values[|values| - 1]);
      if text == "" || text in before then before else before + [text]
  }

  /** Nothing but blanks is lost, nothing is invented and nothing is repeated. */
  lemma {:induction false} MergeUniqueIsUnion(values: seq<string>)
    ensures Distinct(MergeUnique(values))
    ensures forall x :: x in MergeUnique(values) <==> x != "" && exists v :: v in values && Strip(v) == x
  {
    if values != [] {
      var init, last := values[..|values| - 1], values[|values| - 1];
      assert values == init + [last];
      MergeUniqueIsUnion(init);
      forall x ensures x in MergeUnique(values) <==> x != "" && exists v :: v in values && Strip(v) == x {
        if x in MergeUnique(values) && x !in MergeUnique(init) { assert last in values; }
        if v :| v in values && Strip(v) == x { assert v in init || v == last; }
      }
    }
  }

  /** In the order first met: of two values the first is mentioned before any mention of the second. */
  lemma {:induction false} MergeUniqueInOrder(values: seq<string>, a: nat, b: nat) returns (p: nat)
    requires a < b < |MergeUnique(values)|
    ensures p < |values| && Strip(values[p]) == MergeUnique(values)[a]
    ensures forall q :: 0 <= q < |values| && Strip(values[q]) == MergeUnique(values)[b] ==> p < q
  {
    hide Strip;
    var init := values[..|values| - 1];
    assert values == init + [values[|values| - 1]];
    var before := MergeUnique(init);
    if b < |before| {
      p := MergeUniqueInOrder(init, a, b);
    } else {
      MergeUniqueIsUnion(init);
      assert before[a] in before;
      var v :| v in init && Strip(v) == before[a];
      p :| 0 <= p < |init| && init[p] == v;
      forall q | 0 <= q < |init| ensures Strip(values[q]) != MergeUnique(values)[b] {
        assert init[q] in init;
      }
    }
  }

  // ------------------------------------------------------- records

  datatype Payload = Text(s: string) | Texts(items: seq<string>) | Other(tag: int)

  datatype Question = Question(
    id: string, uncertaintyKey: string, productMode: string, title: string, description: string,
    assumedAnswer: string, suggestedAnswer: string, confidence: real,
    status: string, targetStage: string,
    sourceRefs: seq<string>, deliverableKeys: seq<string>, dependencyKeys: seq<string>,
    payload: map<string, Payload>, updatedAt: int, supersededAt: Option<int>)

  /** The normalised question text, or the key: an external function of text and fallback. */
  type Signature = (string, string) -> string

  function SignatureOf(sig: Signature, q: Question): string {
    sig(if q.description != "" then q.description else q.title, q.uncertaintyKey)
  }

  const CLOSED_BACKLOG_STATUSES: set<string> := {"dismissed", "superseded"}

  /** The records a run loads: not closed, and of the product mode if one is given. */
  predicate Active(q: Question, mode: string) {
    q.status !in CLOSED_BACKLOG_STATUSES && (Strip(mode) == "" || q.productMode == Strip(mode))
  }

  // ------------------------------------------------------- ranks

  datatype Rank = Rank(priority: int, answered: int, impacted: int, confidence: real, updatedAt: int)

  function Priority(status: string): int {
    if status == "deferred" then 1
    else if status == "dismissed" || status == "superseded" then 2
    else if status == "resolved" then 3
    else 0
  }

  function BacklogRank(q: Question): Rank {
    var answer := if q.assumedAnswer != "" then q.assumedAnswer else q.suggestedAnswer;
    Rank(Priority(Lower(Strip(if q.status != "" then q.status else "open"))), if Strip(answer) != "" then 1 else 0,
         |q.deliverableKeys| + |q.dependencyKeys|, q.confidence, q.updatedAt)
  }

  /** Tuples compare lexicographically. */
  predicate Below(a: Rank, b: Rank) {
    || a.priority < b.priority
    || (a.priority == b.priority &&
        (|| a.answered < b.answered
         || (a.answered == b.answered &&
             (|| a.impacted < b.impacted
              || (a.impacted == b.impacted &&
                  (|| a.confidence < b.confidence
                   || (a.confidence == b.confidence && a.updatedAt < b.updatedAt)))))))
  }

  lemma BelowIsAnOrder(a: Rank, b: Rank, c: Rank)
    ensures !(Below(a, b) && Below(b, a))
    ensures !Below(a, b) && Below(a, c) ==> Below(b, c)
    ensures Below(a, b) && !Below(c, b) ==> Below(a, c)
  {
  }

  /** `max(records, key=_backlog_rank)`: the first record that no other one ranks above. */
  function Winner(group: seq<Question>): (w: nat)
    requires group != []
    ensures w < |group|
  {
    if |group| == 1 then 0 else
      var w := Winner(group[..|group| - 1]);
      if Below(BacklogRank(group[w]), BacklogRank(group[|group| - 1])) then |group| - 1 else w
  }

  lemma {:induction false} WinnerIsFirstOfTheBest(group: seq<Question>)
    requires group != []
    ensures forall i :: 0 <= i < |group| ==> !Below(BacklogRank(group[Winner(group)]), BacklogRank(group[i]))
    ensures forall i :: 0 <= i < Winner(group) ==> Below(BacklogRank(group[i]), BacklogRank(group[Winner(group)]))
  {
    hide BacklogRank, Below;
    var w, last := Winner(group), |group| - 1;
    BelowIsAnOrder(BacklogRank(group[w]), BacklogRank(group[w]), BacklogRank(group[w]));
    if |group| > 1 {
      var init := group[..last];
      var v := Winner(init);
      WinnerIsFirstOfTheBest(init);
      if w == last {
        forall i | 0 <= i < last
          ensures Below(BacklogRank(group[i]), BacklogRank(group[w]))
          ensures !Below(BacklogRank(group[w]), BacklogRank(group[i]))
        {
          BelowIsAnOrder(BacklogRank(init[v]), BacklogRank(init[i]), BacklogRank(group[w]));
          BelowIsAnOrder(BacklogRank(init[v]), BacklogRank(group[w]), BacklogRank(init[i]));
          BelowIsAnOrder(BacklogRank(group[i]), BacklogRank(group[w]), BacklogRank(group[i]));
        }
      }
    }
  }

  /** An answer that was resolved is never superseded by one that was not. */
  lemma ResolvedIsKept(group: seq<Question>, i: nat)
    requires i < |group| && Lower(Strip(group[i].status)) == "resolved"
    ensures Lower(Strip(group[Winner(group)].status)) == "resolved"
  {
    hide Winner, Strip, Lower;
    WinnerIsFirstOfTheBest(group);
    BlankIsOpen();
    assert "resolved"[0] == 'r';
    assert BacklogRank(group[i]).priority == 3;
    assert BacklogRank(group[Winner(group)]).priority == 3;
  }

  lemma BlankIsOpen()
    ensures Lower(Strip("")) == "" && Priority(Lower(Strip("open"))) == 0
  {
    assert Strip("open") == "open" && Lower("open") == "open";
    assert |"open"| == 4;
  }

  // ------------------------------------------------------- one group

  function Concat(lists: seq<seq<string>>): seq<string> {
    if lists == [] then [] else Concat(lists[..|lists| - 1]) + lists[|lists| - 1]
  }

  lemma {:induction false} ConcatHas(lists: seq<seq<string>>)
    ensures forall x :: x in Concat(lists) <==> exists i :: 0 <= i < |lists| && x in lists[i]
  {
    if lists != [] {
      var init := lists[..|lists| - 1];
      ConcatHas(init);
      forall x ensures x in Concat(lists) <==> exists i :: 0 <= i < |lists| && x in lists[i] {
        if i :| 0 <= i < |init| && x in init[i] { assert x in lists[i]; }
        if i :| 0 <= i < |lists| && x in lists[i] && x !in lists[|lists| - 1] { assert x in init[i]; }
      }
    }
  }

  /** Where in the concatenation list `g` starts. */
  ghost function Offset(lists: seq<seq<string>>, g: nat): nat
    requires g <= |lists|
  {
    |Concat(lists[..g])|
  }

  lemma {:induction false} OffsetsGrow(lists: seq<seq<string>>, g: nat, h: nat)
    requires g < h <= |lists|
    ensures Offset(lists, g) + |lists[g]| <= Offset(lists, h)
  {
    assert lists[..h][..h - 1] == lists[..h - 1];
    if g < h - 1 { OffsetsGrow(lists, g, h - 1); }
  }

  lemma {:induction false} ConcatAt(lists: seq<seq<string>>, g: nat, i: nat)
    requires g < |lists| && i < |lists[g]|
    ensures Offset(lists, g) + i < |Concat(lists)| && Concat(lists)[Offset(lists, g) + i] == lists[g][i]
  {
    var init := lists[..|lists| - 1];
    if g < |init| {
      ConcatAt(init, g, i);
      assert init[..g] == lists[..g];
    }
  }

  lemma {:induction false} ConcatFrom(lists: seq<seq<string>>, p: nat) returns (g: nat, i: nat)
    requires p < |Concat(lists)|
    ensures g < |lists| && i < |lists[g]| && p == Offset(lists, g) + i && Concat(lists)[p] == lists[g][i]
  {
    var init := lists[..|lists| - 1];
    if p < |Concat(init)| {
      g, i := ConcatFrom(init, p);
      assert init[..g] == lists[..g];
    } else {
      g, i := |init|, p - |Concat(init)|;
    }
  }

  function SourceRefs(group: seq<Question>): seq<seq<string>> {
    seq(|group|, i requires 0 <= i < |group| => group[i].sourceRefs)
  }

  function DeliverableKeys(group: seq<Question>): seq<seq<string>> {
    seq(|group|, i requires 0 <= i < |group| => group[i].deliverableKeys)
  }

  function DependencyKeys(group: seq<Question>): seq<seq<string>> {
    seq(|group|, i requires 0 <= i < |group| => group[i].dependencyKeys)
  }

  /** The ids of the records other than the winner. */
  function OtherIds(group: seq<Question>, id: string): seq<string> {
    if group == [] then [] else
      var last := group[|group| - 1];
      var before := OtherIds(group[..|group| - 1], id);
      if last.id != id then before + [last.id] else before
  }

  function Merged(signature: string, group: seq<Question>, winner: Question, now: int): Question {
    winner.(payload := winner.payload["dedupe_signature" := Text(signature)]
                                     ["merged_uncertainty_ids" := Texts(OtherIds(group, winner.id))],
            sourceRefs := MergeUnique(Concat(SourceRefs(group))),
            deliverableKeys := MergeUnique(Concat(DeliverableKeys(group))),
            dependencyKeys := MergeUnique(Concat(DependencyKeys(group))),
            updatedAt := now)
  }

  function Superseded(signature: string, q: Question, winnerId: string, now: int): Question {
    q.(payload := q.payload["dedupe_signature" := Text(signature)]["superseded_by" := Text(winnerId)]
                           ["superseded_reason" := Text("duplicate_acp_question")],
       status := "superseded", targetStage := "closed", supersededAt := Some(now), updatedAt := now)
  }

  /** What `_apply_backlog_group` makes of one record of a group. */
  function Applied(signature: string, group: seq<Question>, q: Question, now: int): Question
    requires group != []
  {
    var winner := group[Winner(group)];
    if q.id == winner.id then Merged(signature, group, winner, now) else Superseded(signature, q, winner.id, now)
  }

  ghost predicate DistinctIds(group: seq<Question>) {
    forall i, j :: 0 <= i < j < |group| ==> group[i].id != group[j].id
  }

  /** A value of any of the lists is in their merged union, stripped. */
  lemma MergedHas(lists: seq<seq<string>>, i: nat, x: string)
    requires i < |lists| && x in lists[i] && Strip(x) != ""
    ensures Strip(x) in MergeUnique(Concat(lists))
  {
    hide Strip;
    ConcatHas(lists);
    MergeUniqueIsUnion(Concat(lists));
  }

  /** Nothing a record of the group pointed to is lost: the winner points to it afterwards. */
  lemma NothingIsLost(signature: string, group: seq<Question>, i: nat, x: string, now: int)
    requires i < |group| && Strip(x) != ""
    ensures var kept := Applied(signature, group, group[Winner(group)], now);
            && (x in group[i].sourceRefs ==> Strip(x) in kept.sourceRefs)
            && (x in group[i].deliverableKeys ==> Strip(x) in kept.deliverableKeys)
            && (x in group[i].dependencyKeys ==> Strip(x) in kept.dependencyKeys)
  {
    hide Strip, BacklogRank, Below, MergeUnique, Concat, OtherIds;
    if x in group[i].sourceRefs { MergedHas(SourceRefs(group), i, x); }
    if x in group[i].deliverableKeys { MergedHas(DeliverableKeys(group), i, x); }
    if x in group[i].dependencyKeys { MergedHas(DependencyKeys(group), i, x); }
  }

  // ------------------------------------------------------- the whole backlog

  /** The active records with the signature, in the order loaded. */
  function Members(all: seq<Question>, mode: string, sig: Signature, signature: string): seq<Question> {
    if all == [] then [] else
      var last := all[|all| - 1];
      var before := Members(all[..|all| - 1], mode, sig, signature);
      if Active(last, mode) && SignatureOf(sig, last) == signature then before + [last] else before
  }

  /** What a run makes of one record. */
  function Deduped(all: seq<Question>, mode: string, sig: Signature, q: Question, now: int): Question {
    var signature := SignatureOf(sig, q);
    var group := Members(all, mode, sig, signature);
    if Active(q, mode) && |group| > 1 then Applied(signature, group, q, now) else q
  }

  function DedupeAll(all: seq<Question>, mode: string, sig: Signature, now: int): seq<Question> {
    seq(|all|, i requires 0 <= i < |all| => Deduped(all, mode, sig, all[i], now))
  }

  predicate InGroup(q: Question, mode: string, sig: Signature, signature: string) {
    Active(q, mode) && SignatureOf(sig, q) == signature
  }

  lemma {:induction false} MembersAreTheGroup(all: seq<Question>, mode: string, sig: Signature, signature: string)
    ensures forall q :: q in Members(all, mode, sig, signature) <==> q in all && InGroup(q, mode, sig, signature)
    ensures DistinctIds(all) ==> DistinctIds(Members(all, mode, sig, signature))
  {
    hide Active, SignatureOf;
    if all != [] {
      var init := all[..|all| - 1];
      var last := all[|all| - 1];
      assert all == init + [last];
      MembersAreTheGroup(init, mode, sig, signature);
      if DistinctIds(all) {
        forall q | q in init ensures q.id != last.id {
          var i :| 0 <= i < |init| && init[i] == q;
          assert all[i].id != all[|all| - 1].id;
        }
      }
    }
  }

  /** The record of the group that stays active. */
  ghost predicate Keeper(all: seq<Question>, mode: string, sig: Signature, q: Question) {
    && Active(q, mode)
    && var group := Members(all, mode, sig, SignatureOf(sig, q));
       group != [] && group[Winner(group)].id == q.id
  }

  lemma SupersededIsClosed(signature: string, q: Question, winnerId: string, mode: string, now: int)
    ensures !Active(Superseded(signature, q, winnerId, now), mode)
  {
  }

  /** After a run the active records are the keepers, in the groups they were in. */
  lemma ActiveAfter(all: seq<Question>, mode: string, sig: Signature, i: nat, now: int)
    requires i < |all| && DistinctIds(all)
    ensures Active(Deduped(all, mode, sig, all[i], now), mode) <==> Keeper(all, mode, sig, all[i])
    ensures SignatureOf(sig, Deduped(all, mode, sig, all[i], now)) == SignatureOf(sig, all[i])
    ensures Deduped(all, mode, sig, all[i], now).id == all[i].id
  {
    hide Members, BacklogRank, Below, MergeUnique, Concat, OtherIds;
    var q := all[i];
    var signature := SignatureOf(sig, q);
    var group := Members(all, mode, sig, signature);
    MembersAreTheGroup(all, mode, sig, signature);
    if Active(q, mode) {
      assert q in group;
      var winner := group[Winner(group)];
      assert winner in group;
      if q.id != winner.id {
        assert |group| > 1;
        SupersededIsClosed(signature, q, winner.id, mode, now);
      }
    }
  }

  ghost predicate OneEach(all: seq<Question>, mode: string, sig: Signature) {
    forall i, j :: 0 <= i < j < |all| && Active(all[i], mode) && Active(all[j], mode)
                   ==> SignatureOf(sig, all[i]) != SignatureOf(sig, all[j])
  }

  /** Two records of one group are not both active after a run. */
  lemma OneActivePerSignature(all: seq<Question>, mode: string, sig: Signature, now: int)
    requires DistinctIds(all)
    ensures OneEach(DedupeAll(all, mode, sig, now), mode, sig)
  {
    hide Members, Active, SignatureOf, Deduped;
    var done := DedupeAll(all, mode, sig, now);
    forall i, j | 0 <= i < j < |done| && Active(done[i], mode) && Active(done[j], mode)
      ensures SignatureOf(sig, done[i]) != SignatureOf(sig, done[j])
    {
      ActiveAfter(all, mode, sig, i, now);
      ActiveAfter(all, mode, sig, j, now);
    }
  }

  /** Every group keeps a record, and it is one no other record of the group ranks above. */
  lemma BestIsKept(all: seq<Question>, mode: string, sig: Signature, i: nat, now: int) returns (k: nat)
    requires DistinctIds(all) && i < |all| && Active(all[i], mode)
    ensures k < |all| && Active(all[k], mode) && SignatureOf(sig, all[k]) == SignatureOf(sig, all[i])
    ensures Active(DedupeAll(all, mode, sig, now)[k], mode)
    ensures forall j :: 0 <= j < |all| && Active(all[j], mode) && SignatureOf(sig, all[j]) == SignatureOf(sig, all[i])
                        ==> !Below(BacklogRank(all[k]), BacklogRank(all[j]))
  {
    hide Members, Active, SignatureOf, Deduped, BacklogRank, Below;
    var signature := SignatureOf(sig, all[i]);
    var group := Members(all, mode, sig, signature);
    MembersAreTheGroup(all, mode, sig, signature);
    assert all[i] in group;
    WinnerIsFirstOfTheBest(group);
    var winner := group[Winner(group)];
    assert winner in group;
    k :| 0 <= k < |all| && all[k] == winner;
    ActiveAfter(all, mode, sig, k, now);
    forall j | 0 <= j < |all| && Active(all[j], mode) && SignatureOf(sig, all[j]) == signature
      ensures !Below(BacklogRank(all[k]), BacklogRank(all[j]))
    {
      assert all[j] in group;
    }
  }

  /** A group of several is two active records with one signature. */
  lemma SeveralAreAPair(all: seq<Question>, mode: string, sig: Signature, signature: string)
    requires DistinctIds(all) && |Members(all, mode, sig, signature)| > 1
    ensures !OneEach(all, mode, sig)
  {
    hide Active, SignatureOf, Members;
    var group := Members(all, mode, sig, signature);
    MembersAreTheGroup(all, mode, sig, signature);
    var p, q := group[0], group[1];
    assert p in group && q in group && p.id != q.id;
    var a :| 0 <= a < |all| && all[a] == p;
    var b :| 0 <= b < |all| && all[b] == q;
    assert a < b || b < a;
    assert SignatureOf(sig, all[a]) == SignatureOf(sig, all[b]);
  }

  /** A backlog with one active record per signature is left alone. */
  lemma SettledStays(all: seq<Question>, mode: string, sig: Signature, now: int)
    requires DistinctIds(all) && OneEach(all, mode, sig)
    ensures DedupeAll(all, mode, sig, now) == all
  {
    hide Active, SignatureOf, Members, Applied, OneEach;
    forall i | 0 <= i < |all| ensures Deduped(all, mode, sig, all[i], now) == all[i] {
      var signature := SignatureOf(sig, all[i]);
      if |Members(all, mode, sig, signature)| > 1 { SeveralAreAPair(all, mode, sig, signature); }
    }
  }

  /** A second run, over the same records in whatever order, changes none of them. */
  lemma SecondRunChangesNothing(all: seq<Question>, again: seq<Question>, mode: string, sig: Signature,
                                now: int, later: int)
    requires DistinctIds(all) && DistinctIds(again)
    requires forall q :: q in again ==> q in DedupeAll(all, mode, sig, now)
    ensures DedupeAll(again, mode, sig, later) == again
  {
    hide Active, SignatureOf, Deduped;
    var done := DedupeAll(all, mode, sig, now);
    OneActivePerSignature(all, mode, sig, now);
    forall i, j | 0 <= i < j < |again| && Active(again[i], mode) && Active(again[j], mode)
      ensures SignatureOf(sig, again[i]) != SignatureOf(sig, again[j])
    {
      assert again[i] in done && again[j] in done;
      var a :| 0 <= a < |done| && done[a] == again[i];
      var b :| 0 <= b < |done| && done[b] == again[j];
      assert a < b || b < a;
    }
    SettledStays(again, mode, sig, later);
  }

  // ------------------------------------------------------- counting

  ghost function ActiveIndices(all: seq<Question>, mode: string): set<nat> {
    set k: nat | k < |all| && Active(all[k], mode)
  }

  ghost function GroupIndices(all: seq<Question>, mode: string, sig: Signature, signature: string): set<nat> {
    set k: nat | k < |all| && InGroup(all[k], mode, sig, signature)
  }

  /** The records active once the groups of the given signatures are deduplicated. */
  ghost function StillActive(all: seq<Question>, mode: string, sig: Signature, finished: set<string>): set<nat> {
    set k: nat | k < |all| && Active(all[k], mode)
                 && (SignatureOf(sig, all[k]) in finished ==> Keeper(all, mode, sig, all[k]))
  }

  lemma NoneActive(mode: string)
    ensures ActiveIndices([], mode) == {}
  {
  }

  lemma OneMore(all: seq<Question>, q: Question, mode: string)
    ensures |ActiveIndices(all + [q], mode)| == |ActiveIndices(all, mode)| + if Active(q, mode) then 1 else 0
  {
    hide Active;
    var before := ActiveIndices(all, mode);
    assert ActiveIndices(all + [q], mode) == before + if Active(q, mode) then {|all|} else {};
  }

  lemma {:induction false} GroupSize(all: seq<Question>, mode: string, sig: Signature, signature: string)
    ensures |GroupIndices(all, mode, sig, signature)| == |Members(all, mode, sig, signature)|
  {
    hide Active, SignatureOf;
    if all != [] {
      var init := all[..|all| - 1];
      GroupSize(init, mode, sig, signature);
      var before := GroupIndices(init, mode, sig, signature);
      if InGroup(all[|all| - 1], mode, sig, signature) {
        assert GroupIndices(all, mode, sig, signature) == before + {|all| - 1};
      } else {
        assert GroupIndices(all, mode, sig, signature) == before;
      }
    }
  }

  /** A group has one keeper. */
  lemma OneKeeper(all: seq<Question>, mode: string, sig: Signature, s: string) returns (w: nat)
    requires DistinctIds(all) && Members(all, mode, sig, s) != []
    ensures w in GroupIndices(all, mode, sig, s)
    ensures forall k :: k in GroupIndices(all, mode, sig, s) ==> (Keeper(all, mode, sig, all[k]) <==> k == w)
  {
    hide Active, SignatureOf, Members, BacklogRank, Below, Winner;
    var group := Members(all, mode, sig, s);
    var winner := group[Winner(group)];
    MembersAreTheGroup(all, mode, sig, s);
    assert winner in group;
    w :| w < |all| && all[w] == winner;
    forall k | k in GroupIndices(all, mode, sig, s) && k != w ensures all[k].id != winner.id {
      assert all[k].id != all[w].id;
    }
  }

  /** Finishing a group takes all of it but one record out of the active ones. */
  lemma FinishingAGroup(all: seq<Question>, mode: string, sig: Signature, finished: set<string>, s: string)
    requires DistinctIds(all) && s !in finished && Members(all, mode, sig, s) != []
    ensures |StillActive(all, mode, sig, finished)|
         == |StillActive(all, mode, sig, finished + {s})| + |Members(all, mode, sig, s)| - 1
  {
    hide Active, SignatureOf, Members, Keeper, DistinctIds;
    var members := GroupIndices(all, mode, sig, s);
    GroupSize(all, mode, sig, s);
    var w := OneKeeper(all, mode, sig, s);
    var before, after := StillActive(all, mode, sig, finished), StillActive(all, mode, sig, finished + {s});
    assert after == before - (members - {w});
    assert members <= before;
    assert before == after + (members - {w});
  }

  /** Once every active signature is finished, what is still active is what a run leaves active. */
  lemma AllGroupsFinished(all: seq<Question>, mode: string, sig: Signature, finished: set<string>, now: int)
    requires DistinctIds(all)
    requires forall q :: q in all && Active(q, mode) ==> SignatureOf(sig, q) in finished
    ensures StillActive(all, mode, sig, finished) == ActiveIndices(DedupeAll(all, mode, sig, now), mode)
  {
    hide Active, SignatureOf, Deduped, Members, BacklogRank, Below;
    forall k: nat | k < |all|
      ensures k in StillActive(all, mode, sig, finished) <==> k in ActiveIndices(DedupeAll(all, mode, sig, now), mode)
    {
      ActiveAfter(all, mode, sig, k, now);
      assert all[k] in all;
    }
  }

  // ------------------------------------------------------- the report

  function AppliedGroup(signature: string, group: seq<Question>, now: int): seq<Question> {
    seq(|group|, i requires 0 <= i < |group| => Applied(signature, group, group[i], now))
  }

  lemma SupersededPriority(signature: string, q: Question, winnerId: string, now: int)
    ensures BacklogRank(Superseded(signature, q, winnerId, now)).priority == 2
  {
    var word := "superseded";
    TrimmedAlready(word, WHITE);
    assert Lower(word) == word;
  }

  /** The report ranks the group again after the changes. It names the kept record when that one is resolved;
      when it is open, in progress or deferred the report names a superseded duplicate instead. */
  lemma ReportNamesKeeper(signature: string, group: seq<Question>, now: int)
    requires |group| > 1 && DistinctIds(group)
    ensures var kept := group[Winner(group)];
            var named := AppliedGroup(signature, group, now)[Winner(AppliedGroup(signature, group, now))];
            && (BacklogRank(kept).priority == 3 ==> named.id == kept.id)
            && (BacklogRank(kept).priority < 2 ==> named.id != kept.id && named.status == "superseded")
  {
    hide Priority, Strip, Lower, MergeUnique, Concat, OtherIds;
    var w := Winner(group);
    var kept := group[w];
    var after := AppliedGroup(signature, group, now);
    assert BacklogRank(after[w]).priority == BacklogRank(kept).priority;
    forall i | 0 <= i < |group| && i != w
      ensures after[i].id != kept.id && after[i].status == "superseded" && BacklogRank(after[i]).priority == 2
    {
      assert group[i].id != kept.id;
      SupersededPriority(signature, group[i], kept.id, now);
    }
    WinnerIsFirstOfTheBest(after);
    var other := if w == 0 then 1 else 0;
    assert BacklogRank(after[other]).priority == 2;
  }

  /** A status as the database keeps it: in lower case, without surrounding blanks, and not empty. */
  predicate NormalStatus(status: string) {
    status != "" && Lower(Strip(status)) == status
  }

  /** Of active records with such statuses the report names the kept one exactly when one of them is resolved. */
  lemma ReportIsRightIffResolved(signature: string, group: seq<Question>, mode: string, now: int)
    requires |group| > 1 && DistinctIds(group)
    requires forall q :: q in group ==> Active(q, mode) && NormalStatus(q.status)
    ensures var kept := group[Winner(group)];
            var named := AppliedGroup(signature, group, now)[Winner(AppliedGroup(signature, group, now))];
            named.id == kept.id <==> exists q :: q in group && q.status == "resolved"
  {
    hide Winner, AppliedGroup, Strip, Lower, Below;
    ReportNamesKeeper(signature, group, now);
    var kept := group[Winner(group)];
    assert kept in group;
    assert BacklogRank(kept).priority == Priority(kept.status);
    PriorityOfActive(kept.status);
    if i: nat :| i < |group| && group[i].status == "resolved" {
      assert group[i] in group;
      ResolvedIsKept(group, i);
    }
  }

  lemma PriorityOfActive(status: string)
    requires status !in CLOSED_BACKLOG_STATUSES
    ensures Priority(status) == 3 <==> status == "resolved"
    ensures Priority(status) == 3 || Priority(status) < 2
  {
    assert "resolved"[0] == 'r' && "deferred"[0] == 'd';
    assert |"resolved"| == 8 && |"dismissed"| == 9 && |"superseded"| == 10;
  }
}
