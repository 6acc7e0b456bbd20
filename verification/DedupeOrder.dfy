/** Which record of a group is kept, in words of the records' fields. */
module DedupeOrder {
  import opened Names
  import opened Strings
  import opened Wrappers
  import opened Dedupe

  /** The status, `open` when it is empty, without blanks and in lower case. */
  ghost predicate StatusIs(q: Question, word: string) {
    Lower(Strip(if q.status != "" then q.status else "open")) == word
  }

  // The four classes, the best one first.
  ghost predicate IsResolved(q: Question) { StatusIs(q, "resolved") }
  ghost predicate IsClosed(q: Question) { StatusIs(q, "dismissed") || StatusIs(q, "superseded") }
  ghost predicate IsDeferred(q: Question) { StatusIs(q, "deferred") }
  ghost predicate IsOpen(q: Question) { !IsResolved(q) && !IsClosed(q) && !IsDeferred(q) }

  ghost predicate BetterStatus(a: Question, b: Question) {
    || (IsResolved(a) && !IsResolved(b))
    || (IsClosed(a) && (IsDeferred(b) || IsOpen(b)))
    || (IsDeferred(a) && IsOpen(b))
  }

  /** There is an answer: the assumed one, or else the suggested one, is not blank. */
  ghost predicate Answered(q: Question) {
    Says(if q.assumedAnswer != "" then q.assumedAnswer else q.suggestedAnswer)
  }

  ghost predicate Says(text: string) {
    exists i :: 0 <= i < |text| && text[i] !in WHITE
  }

  ghost function Impact(q: Question): nat {
    |q.deliverableKeys| + |q.dependencyKeys|
  }

  /** `a` is to be kept rather than `b`. */
  ghost predicate Preferred(a: Question, b: Question) {
    if BetterStatus(a, b) || BetterStatus(b, a) then BetterStatus(a, b)
    else if Answered(a) != Answered(b) then Answered(a)
    else if Impact(a) != Impact(b) then Impact(a) > Impact(b)
    else if a.confidence != b.confidence then a.confidence > b.confidence
    else a.updatedAt > b.updatedAt
  }

  lemma StripIsBlank(s: string)
    ensures Strip(s) == "" <==> !Says(s)
  {
    BlankIff(s);
  }

  lemma PriorityIs(q: Question)
    ensures var p := BacklogRank(q).priority;
            && (p == 3 <==> IsResolved(q)) && (p == 2 <==> IsClosed(q)) && (p == 1 <==> IsDeferred(q))
            && (p == 0 <==> IsOpen(q))
  {
    assert |"resolved"| == 8 && |"deferred"| == 8 && |"dismissed"| == 9 && |"superseded"| == 10;
    assert "resolved"[0] == 'r' && "deferred"[0] == 'd';
    hide Strip, Lower;
  }

  lemma RankIs(q: Question)
    ensures BacklogRank(q).answered == (if Answered(q) then 1 else 0)
    ensures BacklogRank(q).impacted == Impact(q) && BacklogRank(q).confidence == q.confidence
    ensures BacklogRank(q).updatedAt == q.updatedAt
  {
    StripIsBlank(if q.assumedAnswer != "" then q.assumedAnswer else q.suggestedAnswer);
    hide Strip, Lower, Priority, Says;
  }

  lemma PreferredIsAbove(a: Question, b: Question)
    ensures Preferred(a, b) <==> Below(BacklogRank(b), BacklogRank(a))
  {
    hide BacklogRank, IsResolved, IsClosed, IsDeferred, Answered, Impact, StatusIs;
    PriorityIs(a);
    PriorityIs(b);
    RankIs(a);
    RankIs(b);
  }

  /** The kept record of a group: none is preferred to it, and it is preferred to all before it. */
  lemma KeptIsPreferred(group: seq<Question>)
    requires group != []
    ensures forall i :: 0 <= i < |group| ==> !Preferred(group[i], group[Winner(group)])
    ensures forall i :: 0 <= i < Winner(group) ==> Preferred(group[Winner(group)], group[i])
  {
    hide Preferred, BacklogRank, Below;
    WinnerIsFirstOfTheBest(group);
    forall i | 0 <= i < |group|
      ensures !Preferred(group[i], group[Winner(group)])
      ensures i < Winner(group) ==> Preferred(group[Winner(group)], group[i])
    {
      PreferredIsAbove(group[i], group[Winner(group)]);
      PreferredIsAbove(group[Winner(group)], group[i]);
    }
  }

  // ------------------------------------------------------- what a run leaves

  /** The run loads the record: it is not closed, and of the product mode if one is given. */
  ghost predicate Loads(q: Question, mode: string) {
    q.status != "dismissed" && q.status != "superseded" && (Strip(mode) == "" || q.productMode == Strip(mode))
  }

  /** Two records ask the same: the signature of description, or else title, with the key to fall back on. */
  ghost predicate AskTheSame(sig: Signature, a: Question, b: Question) {
    sig(if a.description != "" then a.description else a.title, a.uncertaintyKey)
    == sig(if b.description != "" then b.description else b.title, b.uncertaintyKey)
  }

  /** `j` is one of the loaded records that ask what record `i` asks. */
  ghost predicate Beside(all: seq<Question>, mode: string, sig: Signature, i: nat, j: nat)
    requires i < |all|
  {
    j < |all| && Loads(all[j], mode) && AskTheSame(sig, all[i], all[j])
  }

  /** The one of them that is kept. */
  ghost predicate Kept(all: seq<Question>, mode: string, sig: Signature, i: nat, k: nat)
    requires i < |all|
  {
    && Beside(all, mode, sig, i, k)
    && forall j: nat :: Beside(all, mode, sig, i, j) ==>
         !Preferred(all[j], all[k]) && (j < k ==> Preferred(all[k], all[j]))
  }

  lemma LoadsIs(q: Question, mode: string)
    ensures Active(q, mode) <==> Loads(q, mode)
  {
  }

  lemma BesideIs(all: seq<Question>, mode: string, sig: Signature, i: nat, j: nat)
    requires i < |all| && j < |all|
    ensures Beside(all, mode, sig, i, j) <==> InGroup(all[j], mode, sig, SignatureOf(sig, all[i]))
  {
    LoadsIs(all[j], mode);
    hide Loads, Active;
  }

  /** Where in `all` the members of a group stand. */
  ghost predicate StandAt(all: seq<Question>, mode: string, sig: Signature, signature: string, members: seq<Question>,
                          idx: seq<nat>) {
    && Picks(all, idx, members)
    && forall j: nat :: j < |all| ==> (j in idx <==> InGroup(all[j], mode, sig, signature))
  }

  lemma {:induction false} MembersAt(all: seq<Question>, mode: string, sig: Signature, signature: string)
    returns (idx: seq<nat>)
    ensures StandAt(all, mode, sig, signature, Members(all, mode, sig, signature), idx)
  {
    hide InGroup, StandAt;
    if all == [] {
      idx := [];
      NobodyStands(mode, sig, signature);
    } else {
      var init, last := all[..|all| - 1], all[|all| - 1];
      idx := MembersAt(init, mode, sig, signature);
      OneMoreStands(init, mode, sig, signature, Members(init, mode, sig, signature), idx, last);
      InGroupIs(last, mode, sig, signature);
      assert all == init + [last];
      if InGroup(last, mode, sig, signature) { idx := idx + [|init|]; }
    }
  }

  lemma NobodyStands(mode: string, sig: Signature, signature: string)
    ensures StandAt([], mode, sig, signature, [], [])
  {
  }

  lemma OneMoreStands(all: seq<Question>, mode: string, sig: Signature, signature: string, members: seq<Question>,
                      idx: seq<nat>, q: Question)
    requires StandAt(all, mode, sig, signature, members, idx)
    ensures InGroup(q, mode, sig, signature) ==>
      StandAt(all + [q], mode, sig, signature, members + [q], idx + [|all|])
    ensures !InGroup(q, mode, sig, signature) ==> StandAt(all + [q], mode, sig, signature, members, idx)
  {
    hide InGroup, Picks;
    PicksSnoc(all, idx, members, q);
    assert |all| !in idx by { PicksBelow(all, idx, members); }
  }

  lemma PicksBelow(all: seq<Question>, idx: seq<nat>, members: seq<Question>)
    requires Picks(all, idx, members)
    ensures |all| !in idx
  {
  }

  lemma InGroupIs(q: Question, mode: string, sig: Signature, signature: string)
    ensures InGroup(q, mode, sig, signature) <==> Active(q, mode) && SignatureOf(sig, q) == signature
  {
  }

  /** The winner of the group is the one kept. */
  lemma WinnerIsKept(all: seq<Question>, mode: string, sig: Signature, i: nat) returns (k: nat)
    requires i < |all| && Loads(all[i], mode)
    ensures Kept(all, mode, sig, i, k)
    ensures var group := Members(all, mode, sig, SignatureOf(sig, all[i]));
            group != [] && k < |all| && group[Winner(group)] == all[k]
  {
    hide Preferred, Loads, AskTheSame, Active, SignatureOf, Members, Winner;
    var signature := SignatureOf(sig, all[i]);
    var group := Members(all, mode, sig, signature);
    var idx := MembersAt(all, mode, sig, signature);
    LoadsIs(all[i], mode);
    assert InGroup(all[i], mode, sig, signature) && i in idx;
    KeptIsPreferred(group);
    var w := Winner(group);
    k := idx[w];
    BesideIs(all, mode, sig, i, k);
    assert k in idx;
    forall j: nat | Beside(all, mode, sig, i, j)
      ensures !Preferred(all[j], all[k]) && (j < k ==> Preferred(all[k], all[j]))
    {
      BesideIs(all, mode, sig, i, j);
      var x :| 0 <= x < |idx| && idx[x] == j;
    }
  }

  /** The ids of the other records, in the order read. */
  ghost predicate OtherIdsOf(all: seq<Question>, mode: string, sig: Signature, k: nat, ids: seq<string>)
    requires k < |all|
  {
    exists idx: seq<nat> ::
      && Increasing(idx, |all|) && |idx| == |ids| && (forall x :: 0 <= x < |idx| ==> ids[x] == all[idx[x]].id)
      && forall j: nat :: j < |all| ==> (j in idx <==> Beside(all, mode, sig, k, j) && j != k)
  }

  /** Item `i` of record `j` comes before item `y` of record `x`. */
  ghost predicate Earlier(j: nat, i: nat, x: nat, y: nat) {
    j < x || (j == x && i < y)
  }

  /** Item `i` of the list of record `j`, stripped, is `text`. */
  ghost predicate Mentions(all: seq<Question>, mode: string, sig: Signature, k: nat, get: Question -> seq<string>,
                           j: nat, i: nat, text: string)
    requires k < |all|
  {
    Beside(all, mode, sig, k, j) && i < |get(all[j])| && Strip(get(all[j])[i]) == text
  }

  /** The values come in the order first mentioned. */
  ghost predicate InOrderMet(all: seq<Question>, mode: string, sig: Signature, k: nat, get: Question -> seq<string>,
                             out: seq<string>)
    requires k < |all|
  {
    forall a, b :: 0 <= a < b < |out| ==> MetBefore(all, mode, sig, k, get, out[a], out[b])
  }

  ghost predicate MetBefore(all: seq<Question>, mode: string, sig: Signature, k: nat, get: Question -> seq<string>,
                            first: string, second: string)
    requires k < |all|
  {
    exists j: nat, i: nat :: Mentions(all, mode, sig, k, get, j, i, first) &&
      forall x: nat, y: nat :: Mentions(all, mode, sig, k, get, x, y, second) ==> Earlier(j, i, x, y)
  }

  /** Each value of the records, stripped, once and in the order first met; blanks are dropped. */
  ghost predicate UnionOf(all: seq<Question>, mode: string, sig: Signature, k: nat, get: Question -> seq<string>,
                          out: seq<string>)
    requires k < |all|
  {
    && Distinct(out) && InOrderMet(all, mode, sig, k, get, out)
    && forall x :: x in out <==> x != "" && exists j: nat, v ::
         Beside(all, mode, sig, k, j) && v in get(all[j]) && Strip(v) == x
  }

  ghost predicate KeptAs(all: seq<Question>, mode: string, sig: Signature, k: nat, after: Question, now: int)
    requires k < |all|
  {
    && "merged_uncertainty_ids" in after.payload && after.payload["merged_uncertainty_ids"].Texts?
    && OtherIdsOf(all, mode, sig, k, after.payload["merged_uncertainty_ids"].items)
    && UnionOf(all, mode, sig, k, (q: Question) => q.sourceRefs, after.sourceRefs)
    && UnionOf(all, mode, sig, k, (q: Question) => q.deliverableKeys, after.deliverableKeys)
    && UnionOf(all, mode, sig, k, (q: Question) => q.dependencyKeys, after.dependencyKeys)
    && var q := all[k];
       after == q.(payload := q.payload["dedupe_signature" := Text(AskedText(sig, q))]
                                       ["merged_uncertainty_ids" := after.payload["merged_uncertainty_ids"]],
                   sourceRefs := after.sourceRefs, deliverableKeys := after.deliverableKeys,
                   dependencyKeys := after.dependencyKeys, updatedAt := now)
  }

  ghost function AskedText(sig: Signature, q: Question): string {
    sig(if q.description != "" then q.description else q.title, q.uncertaintyKey)
  }

  /** Closed, and pointing to the kept record. */
  ghost predicate SupersededBy(sig: Signature, q: Question, keptId: string, after: Question, now: int) {
    after == q.(payload := q.payload["dedupe_signature" := Text(AskedText(sig, q))]["superseded_by" := Text(keptId)]
                                    ["superseded_reason" := Text("duplicate_acp_question")],
                status := "superseded", targetStage := "closed", supersededAt := Some(now), updatedAt := now)
  }

  /** What record `i` is after a run. */
  ghost predicate Ends(all: seq<Question>, mode: string, sig: Signature, i: nat, after: Question, now: int)
    requires i < |all|
  {
    if !Loads(all[i], mode) || (forall j: nat :: Beside(all, mode, sig, i, j) ==> j == i) then after == all[i]
    else exists k: nat :: Kept(all, mode, sig, i, k) &&
           if k == i then KeptAs(all, mode, sig, i, after, now)
           else SupersededBy(sig, all[i], all[k].id, after, now)
  }

  /** Which of the records have another id. */
  lemma {:induction false} OtherIdsAt(group: seq<Question>, id: string) returns (idx: seq<nat>)
    ensures Increasing(idx, |group|) && |idx| == |OtherIds(group, id)|
    ensures forall x :: 0 <= x < |idx| ==> OtherIds(group, id)[x] == group[idx[x]].id
    ensures forall j: nat :: j < |group| ==> (j in idx <==> group[j].id != id)
  {
    if group == [] {
      idx := [];
    } else {
      idx := OtherIdsAt(group[..|group| - 1], id);
      OnePosition(idx, |group| - 1);
      if group[|group| - 1].id != id { idx := idx + [|group| - 1]; }
    }
  }

  lemma OthersAre(all: seq<Question>, mode: string, sig: Signature, k: nat)
    requires k < |all| && DistinctIds(all) && Loads(all[k], mode)
    ensures OtherIdsOf(all, mode, sig, k, OtherIds(Members(all, mode, sig, SignatureOf(sig, all[k])), all[k].id))
  {
    hide Loads, Active, SignatureOf, Members, OtherIds, AskTheSame;
    var signature := SignatureOf(sig, all[k]);
    var group := Members(all, mode, sig, signature);
    var members := MembersAt(all, mode, sig, signature);
    var others := OtherIdsAt(group, all[k].id);
    var idx := seq(|others|, x requires 0 <= x < |others| => members[others[x]]);
    Composed(members, others, idx, |all|);
    forall j: nat | j < |all| ensures j in idx <==> Beside(all, mode, sig, k, j) && j != k {
      BesideIs(all, mode, sig, k, j);
      SameIdSame(all, j, k);
    }
  }

  /** Positions among positions. */
  lemma Composed(members: seq<nat>, others: seq<nat>, idx: seq<nat>, n: nat)
    requires Increasing(members, n) && Increasing(others, |members|) && |idx| == |others|
    requires forall x :: 0 <= x < |others| ==> idx[x] == members[others[x]]
    ensures Increasing(idx, n)
    ensures forall j: nat :: j in idx <==> exists y: nat :: y in others && members[y] == j
  {
    forall j: nat ensures j in idx <==> exists y: nat :: y in others && members[y] == j {
      if j in idx {
        var x :| 0 <= x < |idx| && idx[x] == j;
        assert others[x] in others;
      }
      if y: nat :| y in others && members[y] == j {
        var x :| 0 <= x < |others| && others[x] == y;
        assert idx[x] == j;
      }
    }
  }

  lemma SameIdSame(all: seq<Question>, i: nat, j: nat)
    requires i < |all| && j < |all| && DistinctIds(all)
    ensures all[i].id == all[j].id <==> i == j
  {
  }

  lemma UnionIs(all: seq<Question>, mode: string, sig: Signature, k: nat, get: Question -> seq<string>,
                lists: seq<seq<string>>)
    requires k < |all|
    requires var group := Members(all, mode, sig, SignatureOf(sig, all[k]));
             |lists| == |group| && forall i :: 0 <= i < |group| ==> lists[i] == get(group[i])
    ensures UnionOf(all, mode, sig, k, get, MergeUnique(Concat(lists)))
  {
    hide Active, SignatureOf, Members, AskTheSame, MergeUnique, Concat, Strip, InOrderMet;
    var signature := SignatureOf(sig, all[k]);
    var group := Members(all, mode, sig, signature);
    var members := MembersAt(all, mode, sig, signature);
    forall j: nat | j < |all| ensures j in members <==> Beside(all, mode, sig, k, j) {
      BesideIs(all, mode, sig, k, j);
    }
    UnionInOrder(all, mode, sig, k, get, lists, members);
    MergeUniqueIsUnion(Concat(lists));
    ConcatHas(lists);
    forall x
      ensures x in MergeUnique(Concat(lists)) <==> x != "" && exists j: nat, v ::
                Beside(all, mode, sig, k, j) && v in get(all[j]) && Strip(v) == x
    {
      if x in MergeUnique(Concat(lists)) {
        var v :| v in Concat(lists) && Strip(v) == x;
        var i :| 0 <= i < |lists| && v in lists[i];
        assert members[i] in members;
        BesideIs(all, mode, sig, k, members[i]);
        assert Beside(all, mode, sig, k, members[i]) && v in get(all[members[i]]);
      }
      if j: nat, v :| x != "" && Beside(all, mode, sig, k, j) && v in get(all[j]) && Strip(v) == x {
        BesideIs(all, mode, sig, k, j);
        var i :| 0 <= i < |members| && members[i] == j;
        assert v in lists[i];
      }
    }
  }

  lemma UnionInOrder(all: seq<Question>, mode: string, sig: Signature, k: nat, get: Question -> seq<string>,
                     lists: seq<seq<string>>, members: seq<nat>)
    requires k < |all| && Increasing(members, |all|) && |members| == |lists|
    requires forall x :: 0 <= x < |lists| ==> lists[x] == get(all[members[x]])
    requires forall j: nat :: j < |all| ==> (j in members <==> Beside(all, mode, sig, k, j))
    ensures InOrderMet(all, mode, sig, k, get, MergeUnique(Concat(lists)))
  {
    hide MergeUnique, Concat, Strip, MetBefore;
    var out := MergeUnique(Concat(lists));
    forall a, b | 0 <= a < b < |out| ensures MetBefore(all, mode, sig, k, get, out[a], out[b]) {
      var p := MergeUniqueInOrder(Concat(lists), a, b);
      FirstMention(all, mode, sig, k, get, lists, members, out[a], out[b], p);
    }
  }

  lemma FirstMention(all: seq<Question>, mode: string, sig: Signature, k: nat, get: Question -> seq<string>,
                     lists: seq<seq<string>>, members: seq<nat>, first: string, second: string, p: nat)
    requires k < |all| && Increasing(members, |all|) && |members| == |lists|
    requires forall x :: 0 <= x < |lists| ==> lists[x] == get(all[members[x]])
    requires forall j: nat :: j < |all| ==> (j in members <==> Beside(all, mode, sig, k, j))
    requires p < |Concat(lists)| && Strip(Concat(lists)[p]) == first
    requires forall q :: 0 <= q < |Concat(lists)| && Strip(Concat(lists)[q]) == second ==> p < q
    ensures MetBefore(all, mode, sig, k, get, first, second)
  {
    hide Concat, Strip, Beside, Offset;
    var g, i := ConcatFrom(lists, p);
    assert members[g] in members;
    assert Mentions(all, mode, sig, k, get, members[g], i, first);
    forall x: nat, y: nat | Mentions(all, mode, sig, k, get, x, y, second) ensures Earlier(members[g], i, x, y) {
      InBacklog(all, mode, sig, k, x);
      var h :| 0 <= h < |members| && members[h] == x;
      ConcatAt(lists, h, y);
      if h < g { OffsetsGrow(lists, h, g); }
    }
  }

  lemma InBacklog(all: seq<Question>, mode: string, sig: Signature, i: nat, j: nat)
    requires i < |all| && Beside(all, mode, sig, i, j)
    ensures j < |all|
  {
  }

  lemma KeeperIsKeptAs(all: seq<Question>, mode: string, sig: Signature, k: nat, now: int)
    requires k < |all| && DistinctIds(all) && Loads(all[k], mode)
    ensures var group := Members(all, mode, sig, SignatureOf(sig, all[k]));
            KeptAs(all, mode, sig, k, Merged(SignatureOf(sig, all[k]), group, all[k], now), now)
  {
    var group := Members(all, mode, sig, SignatureOf(sig, all[k]));
    assert AskedText(sig, all[k]) == SignatureOf(sig, all[k]);
    OthersAre(all, mode, sig, k);
    UnionIs(all, mode, sig, k, (q: Question) => q.sourceRefs, SourceRefs(group));
    UnionIs(all, mode, sig, k, (q: Question) => q.deliverableKeys, DeliverableKeys(group));
    UnionIs(all, mode, sig, k, (q: Question) => q.dependencyKeys, DependencyKeys(group));
    hide Members, MergeUnique, Concat, OtherIds, UnionOf, OtherIdsOf, SignatureOf, AskedText, SourceRefs,
         DeliverableKeys, DependencyKeys;
    assert "merged_uncertainty_ids" != "dedupe_signature";
  }

  /** Alone in its group, or not. */
  lemma AloneIff(all: seq<Question>, mode: string, sig: Signature, i: nat)
    requires i < |all| && Loads(all[i], mode)
    ensures |Members(all, mode, sig, SignatureOf(sig, all[i]))| > 1 <==>
            !(forall j: nat :: Beside(all, mode, sig, i, j) ==> j == i)
  {
    hide Active, SignatureOf, Members, AskTheSame, Loads;
    var idx := MembersAt(all, mode, sig, SignatureOf(sig, all[i]));
    LoadsIs(all[i], mode);
    assert InGroup(all[i], mode, sig, SignatureOf(sig, all[i])) && i in idx;
    if |idx| > 1 {
      var j := if idx[0] == i then idx[1] else idx[0];
      assert j in idx;
      BesideIs(all, mode, sig, i, j);
      assert Beside(all, mode, sig, i, j) && j != i;
    }
    if j: nat :| Beside(all, mode, sig, i, j) && j != i {
      BesideIs(all, mode, sig, i, j);
      assert j in idx;
    }
  }

  /** Every record ends as described. */
  lemma DedupedEnds(all: seq<Question>, mode: string, sig: Signature, i: nat, now: int)
    requires i < |all| && DistinctIds(all)
    ensures Ends(all, mode, sig, i, Deduped(all, mode, sig, all[i], now), now)
  {
    LoadsIs(all[i], mode);
    if Loads(all[i], mode) {
      AloneIff(all, mode, sig, i);
      var k := WinnerIsKept(all, mode, sig, i);
      SameIdSame(all, i, k);
      KeeperIsKeptAs(all, mode, sig, i, now);
      assert AskedText(sig, all[i]) == SignatureOf(sig, all[i]);
    }
    hide Active, SignatureOf, Members, Loads, Kept, KeptAs, Beside, Merged, AskedText, Winner, AskTheSame;
  }

  /** All of them. */
  ghost predicate AllEnd(all: seq<Question>, mode: string, sig: Signature, after: seq<Question>, now: int) {
    |after| == |all| && forall i: nat :: i < |all| ==> Ends(all, mode, sig, i, after[i], now)
  }

  lemma RunEnds(all: seq<Question>, mode: string, sig: Signature, now: int)
    requires DistinctIds(all)
    ensures AllEnd(all, mode, sig, DedupeAll(all, mode, sig, now), now)
  {
    hide Deduped, Ends;
    forall i: nat | i < |all| ensures Ends(all, mode, sig, i, DedupeAll(all, mode, sig, now)[i], now) {
      DedupedEnds(all, mode, sig, i, now);
    }
  }
}
