/** `validate_stage_work_packets` of `scripts/validate_agentic_manifest.py`: the packets of a stage. */
module WorkPackets {
  import opened Names
  import opened Kahn
  import opened ManifestOrder

  datatype WorkPacket = WorkPacket(id: string, dependsOn: seq<string>)

  function Ids(packets: seq<WorkPacket>): seq<string> {
    seq(|packets|, i requires 0 <= i < |packets| => packets[i].id)
  }

  /** The dictionary built from the packets; a later packet replaces an earlier namesake. */
  function Listed(packets: seq<WorkPacket>): DependsOn {
    if packets == [] then map[] else
      var last := packets[|packets| - 1];
      Listed(packets[..|packets| - 1])[last.id := last.dependsOn]
  }

  /** With distinct identifiers the dictionary holds each packet's own list. */
  lemma {:induction false} ListedIsFaithful(packets: seq<WorkPacket>)
    requires Distinct(Ids(packets))
    ensures forall i :: 0 <= i < |packets| ==> DepsOf(Listed(packets), packets[i].id) == packets[i].dependsOn
  {
    if packets != [] {
      var init := packets[..|packets| - 1];
      assert forall i :: 0 <= i < |init| ==> Ids(init)[i] == Ids(packets)[i];
      ListedIsFaithful(init);
      forall i | 0 <= i < |packets|
        ensures DepsOf(Listed(packets), packets[i].id) == packets[i].dependsOn
      {
        if i < |init| {
          assert Ids(packets)[i] != Ids(packets)[|init|];
          assert init[i] == packets[i];
        }
      }
    }
  }

  // ------------------------------------------------------- by packet

  /** Entry `j` of the list of packet `i` names no packet. */
  ghost predicate NamesNone(packets: seq<WorkPacket>, i: int, j: int) {
    && 0 <= i < |packets| && 0 <= j < |packets[i].dependsOn|
    && forall k :: 0 <= k < |packets| ==> packets[k].id != packets[i].dependsOn[j]
  }

  /** It is the first one to do so, packet by packet. */
  ghost predicate FirstToNameNone(packets: seq<WorkPacket>, i: int, j: int) {
    && NamesNone(packets, i, j)
    && forall x, y :: NamesNone(packets, x, y) ==> i < x || (i == x && j <= y)
  }

  ghost predicate ReportsEntry(packets: seq<WorkPacket>, failure: Failure) {
    exists i, j :: FirstToNameNone(packets, i, j)
                   && failure == UnknownDependency(packets[i].dependsOn[j], packets[i].id)
  }

  /** Packets each of which depends on the next, the last one being the first. */
  ghost predicate Circle(packets: seq<WorkPacket>, c: seq<nat>) {
    && |c| > 1 && c[0] == c[|c| - 1] && (forall k :: 0 <= k < |c| ==> c[k] < |packets|)
    && forall k :: 0 <= k < |c| - 1 ==> packets[c[k + 1]].id in packets[c[k]].dependsOn
  }

  ghost predicate KnownAndAcyclic(packets: seq<WorkPacket>) {
    (forall i, j :: !NamesNone(packets, i, j)) && forall c :: !Circle(packets, c)
  }

  /** The ids in an order that puts what a packet depends on before it. */
  ghost predicate Scheduled(packets: seq<WorkPacket>, order: seq<string>) {
    && multiset(order) == multiset(Ids(packets))
    && forall i, k, d ::
         0 <= i < |packets| && 0 <= k < |order| && order[k] == packets[i].id && d in packets[i].dependsOn
         ==> d in order[..k]
  }

  /** The graph of the packets holds what each one declares. */
  lemma GraphIs(packets: seq<WorkPacket>, i: nat)
    requires Distinct(Ids(packets)) && i < |packets|
    ensures packets[i].id in GraphOf(Ids(packets), Listed(packets))
    ensures GraphOf(Ids(packets), Listed(packets))[packets[i].id] == Elems(packets[i].dependsOn)
  {
    ListedIsFaithful(packets);
    assert Ids(packets)[i] == packets[i].id;
  }

  lemma PacketOf(packets: seq<WorkPacket>, id: string) returns (i: nat)
    requires id in Ids(packets)
    ensures i < |packets| && packets[i].id == id
  {
    i :| 0 <= i < |Ids(packets)| && Ids(packets)[i] == id;
  }

  lemma ClosedIff(packets: seq<WorkPacket>)
    requires Distinct(Ids(packets))
    ensures Closed(GraphOf(Ids(packets), Listed(packets))) <==> forall i, j :: !NamesNone(packets, i, j)
  {
    hide Listed;
    var g := GraphOf(Ids(packets), Listed(packets));
    if Closed(g) {
      forall i, j ensures !NamesNone(packets, i, j) {
        if 0 <= i < |packets| && 0 <= j < |packets[i].dependsOn| {
          GraphIs(packets, i);
          var d := packets[i].dependsOn[j];
          assert d in g[packets[i].id] && d in g;
          var k := PacketOf(packets, d);
        }
      }
    }
    if forall i, j :: !NamesNone(packets, i, j) {
      forall n, d | n in g && d in g[n] ensures d in g {
        var i := PacketOf(packets, n);
        GraphIs(packets, i);
        var j :| 0 <= j < |packets[i].dependsOn| && packets[i].dependsOn[j] == d;
        assert !NamesNone(packets, i, j);
        var k :| 0 <= k < |packets| && packets[k].id == d;
        GraphIs(packets, k);
      }
    }
  }

  lemma CircleIsCycle(packets: seq<WorkPacket>, c: seq<nat>)
    requires Distinct(Ids(packets)) && Circle(packets, c)
    ensures !Acyclic(GraphOf(Ids(packets), Listed(packets)))
  {
    var g := GraphOf(Ids(packets), Listed(packets));
    var walk := seq(|c|, k requires 0 <= k < |c| => packets[c[k]].id);
    forall k | 0 <= k < |c|
      ensures walk[k] in g && (k < |c| - 1 ==> walk[k + 1] in g[walk[k]])
    {
      GraphIs(packets, c[k]);
    }
    assert Cycle(g, walk);
  }

  lemma CycleIsCircle(packets: seq<WorkPacket>, walk: seq<string>) returns (c: seq<nat>)
    requires Distinct(Ids(packets)) && Cycle(GraphOf(Ids(packets), Listed(packets)), walk)
    ensures Circle(packets, c)
  {
    var g := GraphOf(Ids(packets), Listed(packets));
    c := Positions(packets, walk);
    assert Ids(packets)[c[0]] == Ids(packets)[c[|c| - 1]];
    forall k | 0 <= k < |c| - 1 ensures packets[c[k + 1]].id in packets[c[k]].dependsOn {
      GraphIs(packets, c[k]);
      assert walk[k + 1] in g[walk[k]];
    }
  }

  lemma {:induction false} Positions(packets: seq<WorkPacket>, walk: seq<string>) returns (c: seq<nat>)
    requires forall k :: 0 <= k < |walk| ==> walk[k] in Ids(packets)
    ensures |c| == |walk| && forall k :: 0 <= k < |c| ==> c[k] < |packets| && packets[c[k]].id == walk[k]
  {
    c := [];
    if walk != [] {
      var init := Positions(packets, walk[..|walk| - 1]);
      var last := PacketOf(packets, walk[|walk| - 1]);
      c := init + [last];
    }
  }

  lemma AcyclicIff(packets: seq<WorkPacket>)
    requires Distinct(Ids(packets))
    ensures Acyclic(GraphOf(Ids(packets), Listed(packets))) <==> forall c :: !Circle(packets, c)
  {
    hide Circle, Cycle;
    var g := GraphOf(Ids(packets), Listed(packets));
    if c :| Circle(packets, c) { CircleIsCycle(packets, c); }
    if walk :| Cycle(g, walk) { var c := CycleIsCircle(packets, walk); }
  }

  lemma ScheduleIs(packets: seq<WorkPacket>, order: seq<string>)
    requires Distinct(Ids(packets)) && IsSchedule(GraphOf(Ids(packets), Listed(packets)), Ids(packets), order)
    ensures Scheduled(packets, order)
  {
    hide Listed;
    forall i, k, d | 0 <= i < |packets| && 0 <= k < |order| && order[k] == packets[i].id && d in packets[i].dependsOn
      ensures d in order[..k]
    {
      GraphIs(packets, i);
    }
  }

  // ------------------------------------------------------- the entry reported

  /** The entries of the lists of the first `i` packets, and the first `j` of the next. */
  ghost function Read(packets: seq<WorkPacket>, i: nat, j: nat): nat
    requires i < |packets| && j <= |packets[i].dependsOn|
  {
    |EdgeList(Ids(packets)[..i], Listed(packets))| + j
  }

  lemma EntryAt(packets: seq<WorkPacket>, i: nat, j: nat)
    requires Distinct(Ids(packets)) && i < |packets| && j < |packets[i].dependsOn|
    ensures var all := EdgeList(Ids(packets), Listed(packets));
            Read(packets, i, j) < |all| && all[Read(packets, i, j)] == (packets[i].dependsOn[j], packets[i].id)
  {
    ListedIsFaithful(packets);
    assert Ids(packets)[i] == packets[i].id;
    ReadSoFar(Ids(packets), Listed(packets), i, j);
  }

  /** Every entry of the list read is an entry of some packet. */
  lemma {:induction false} EntryFrom(packets: seq<WorkPacket>, n: nat, k: nat) returns (i: nat, j: nat)
    requires Distinct(Ids(packets)) && n <= |packets| && k < |EdgeList(Ids(packets)[..n], Listed(packets))|
    ensures i < n && j < |packets[i].dependsOn| && k == Read(packets, i, j)
  {
    ListedIsFaithful(packets);
    assert Ids(packets)[..n][..n - 1] == Ids(packets)[..n - 1];
    assert Ids(packets)[..n][n - 1] == packets[n - 1].id;
    var before := |EdgeList(Ids(packets)[..n - 1], Listed(packets))|;
    if k < before {
      i, j := EntryFrom(packets, n - 1, k);
    } else {
      i, j := n - 1, k - before;
    }
  }

  lemma {:induction false} ReadGrows(packets: seq<WorkPacket>, i: nat, x: nat)
    requires Distinct(Ids(packets)) && i < x < |packets|
    ensures Read(packets, i, |packets[i].dependsOn|) <= Read(packets, x, 0)
  {
    ListedIsFaithful(packets);
    assert Ids(packets)[..x][..x - 1] == Ids(packets)[..x - 1];
    assert Ids(packets)[..x][x - 1] == packets[x - 1].id;
    if i < x - 1 { ReadGrows(packets, i, x - 1); }
  }

  /** What is reported is the first entry that names no packet. */
  lemma ReportedIs(packets: seq<WorkPacket>, r: Outcome) returns (i: nat, j: nat)
    requires Distinct(Ids(packets)) && ReportsUnknown(EdgeList(Ids(packets), Listed(packets)), Ids(packets), r)
    ensures FirstToNameNone(packets, i, j)
    ensures r == Err(UnknownDependency(packets[i].dependsOn[j], packets[i].id))
  {
    hide Listed, EdgeList, Read;
    var all := EdgeList(Ids(packets), Listed(packets));
    var k :| FirstUnknown(all, Ids(packets), k) && r == Err(UnknownDependency(all[k].0, all[k].1));
    assert Ids(packets)[..|packets|] == Ids(packets);
    i, j := EntryFrom(packets, |packets|, k);
    EntryAt(packets, i, j);
    forall x | 0 <= x < |packets| ensures packets[x].id != packets[i].dependsOn[j] {
      assert Ids(packets)[x] in Ids(packets);
    }
    forall x, y | NamesNone(packets, x, y) ensures i < x || (i == x && j <= y) {
      EntryAt(packets, x, y);
      NotListed(packets, packets[x].dependsOn[y]);
      ReadsInOrder(packets, i, j, x, y);
    }
  }

  lemma NotListed(packets: seq<WorkPacket>, d: string)
    requires forall k :: 0 <= k < |packets| ==> packets[k].id != d
    ensures d !in Ids(packets)
  {
  }

  lemma ReadsInOrder(packets: seq<WorkPacket>, i: nat, j: nat, x: nat, y: nat)
    requires Distinct(Ids(packets)) && i < |packets| && j < |packets[i].dependsOn|
    requires x < |packets| && y < |packets[x].dependsOn| && Read(packets, i, j) <= Read(packets, x, y)
    ensures i < x || (i == x && j <= y)
  {
    if x < i { ReadGrows(packets, x, i); }
  }

  lemma ByPacket(packets: seq<WorkPacket>, r: Outcome)
    requires Distinct(Ids(packets))
    requires var g := GraphOf(Ids(packets), Listed(packets));
             && (r.Ok? <==> Closed(g) && Acyclic(g)) && (r.Ok? ==> IsSchedule(g, Ids(packets), r.order))
             && (!Closed(g) ==> ReportsUnknown(EdgeList(Ids(packets), Listed(packets)), Ids(packets), r))
             && (r.Err? && Closed(g) ==> r == Err(HasCycle))
    ensures (r.Ok? <==> KnownAndAcyclic(packets)) && r != Err(DuplicateIds)
    ensures r.Ok? ==> Scheduled(packets, r.order)
    ensures r.Err? && r.failure.UnknownDependency? ==> ReportsEntry(packets, r.failure)
  {
    hide Closed, Acyclic, IsSchedule, ReportsUnknown, Circle, NamesNone, Scheduled, GraphOf, Listed, EdgeList;
    ClosedIff(packets);
    AcyclicIff(packets);
    if r.Ok? { ScheduleIs(packets, r.order); }
    if ReportsUnknown(EdgeList(Ids(packets), Listed(packets)), Ids(packets), r) {
      assert r.failure.UnknownDependency? by { var i, j := ReportedIs(packets, r); }
    }
    if r.Err? && r.failure.UnknownDependency? {
      var i, j := ReportedIs(packets, r);
      assert FirstToNameNone(packets, i, j);
    }
  }

  method ValidateStageWorkPackets(packets: seq<WorkPacket>) returns (r: Outcome)
    ensures !Distinct(Ids(packets)) <==> r == Err(DuplicateIds)
    ensures r.Ok? <==> Distinct(Ids(packets)) && Closed(GraphOf(Ids(packets), Listed(packets)))
                       && Acyclic(GraphOf(Ids(packets), Listed(packets)))
    ensures r.Ok? ==> IsSchedule(GraphOf(Ids(packets), Listed(packets)), Ids(packets), r.order)
    ensures r.Ok? ==> Layered(GraphOf(Ids(packets), Listed(packets)), r.order)
    // With distinct ids an unknown dependency is reported, the first one read, or else there is a cycle.
    ensures Distinct(Ids(packets)) && !Closed(GraphOf(Ids(packets), Listed(packets))) ==>
      ReportsUnknown(EdgeList(Ids(packets), Listed(packets)), Ids(packets), r)
    ensures r.Err? && Distinct(Ids(packets)) && Closed(GraphOf(Ids(packets), Listed(packets))) ==> r == Err(HasCycle)
    ensures r == Err(HasCycle) ==> exists c :: Cycle(GraphOf(Ids(packets), Listed(packets)), c)
    // In words of the packets: what makes it succeed, where each packet stands, and which entry is reported.
    ensures r.Ok? <==> Distinct(Ids(packets)) && KnownAndAcyclic(packets)
    ensures r.Ok? ==> Scheduled(packets, r.order)
    ensures r.Err? && r.failure.UnknownDependency? ==> ReportsEntry(packets, r.failure)
  {
    hide Distinct, Closed, Acyclic, IsSchedule, Layered, ReportsUnknown, KnownAndAcyclic, Scheduled, FirstToNameNone;
    var ids := Ids(packets);
    DistinctSize(ids);
    if |ids| != |set x | x in ids| {
      return Err(DuplicateIds);
    }
    r := TopologicalOrder(ids, Listed(packets));
    ByPacket(packets, r);
  }
}
