/** The stage and work-packet orderer of `scripts/validate_agentic_manifest.py`. */
module ManifestOrder {
  import opened Names
  import opened Kahn

  datatype Failure = UnknownDependency(dependency: string, node: string) | HasCycle | DuplicateIds
  datatype Outcome = Ok(order: seq<string>) | Err(failure: Failure)

  type DependsOn = map<string, seq<string>>

  /** `dependencies.get(node, [])` */
  function DepsOf(dependencies: DependsOn, node: string): seq<string> {
    if node in dependencies then dependencies[node] else []
  }

  ghost function GraphOf(nodes: seq<string>, dependencies: DependsOn): Graph {
    map n | n in nodes :: Elems(DepsOf(dependencies, n))
  }

  // An edge is a pair (dependency, node), one for each entry of a `depends_on` list.
  type Edge = (string, string)

  ghost function Entries(deps: seq<string>, node: string): (r: seq<Edge>)
    ensures |r| == |deps| && forall k :: 0 <= k < |deps| ==> r[k] == (deps[k], node)
  {
    if deps == [] then [] else Entries(deps[..|deps| - 1], node) + [(deps[|deps| - 1], node)]
  }

  /** The entries of all `depends_on` lists, in reading order. */
  ghost function EdgeList(nodes: seq<string>, dependencies: DependsOn): seq<Edge> {
    if nodes == [] then [] else
      var node := nodes[|nodes| - 1];
      EdgeList(nodes[..|nodes| - 1], dependencies) + Entries(DepsOf(dependencies, node), node)
  }

  /** How many entries still hold `c` back when the nodes of `done` are finished. */
  ghost function Pending(edges: seq<Edge>, c: string, done: set<string>): nat {
    if edges == [] then 0 else
      var e := edges[|edges| - 1];
      Pending(edges[..|edges| - 1], c, done) + if e.1 == c && e.0 !in done then 1 else 0
  }

  /** The nodes held back by `d`, once for each entry. */
  ghost function Followers(edges: seq<Edge>, d: string): seq<string> {
    if edges == [] then [] else
      var e := edges[|edges| - 1];
      Followers(edges[..|edges| - 1], d) + if e.0 == d then [e.1] else []
  }

  /** Finishing `d` releases each node once for each of its entries for `d`. */
  lemma {:induction false} Release(edges: seq<Edge>, d: string, c: string, done: set<string>)
    requires d !in done
    ensures Pending(edges, c, done) == Pending(edges, c, done + {d}) + multiset(Followers(edges, d))[c]
  {
    if edges != [] {
      Release(edges[..|edges| - 1], d, c, done);
    }
  }

  lemma {:induction false} PendingZero(edges: seq<Edge>, c: string, done: set<string>)
    ensures Pending(edges, c, done) == 0 <==> forall d :: (d, c) in edges ==> d in done
  {
    if edges != [] {
      var init, e := edges[..|edges| - 1], edges[|edges| - 1];
      PendingZero(init, c, done);
      assert edges == init + [e];
      assert forall x :: x in edges <==> x in init || x == e;
    }
  }

  lemma {:induction false} FollowersAre(edges: seq<Edge>, d: string)
    ensures forall c :: c in Followers(edges, d) <==> (d, c) in edges
  {
    if edges != [] {
      var init, e := edges[..|edges| - 1], edges[|edges| - 1];
      FollowersAre(init, d);
      assert edges == init + [e];
      assert forall x :: x in edges <==> x in init || x == e;
    }
  }

  /** The edge list holds exactly the dependencies of the graph. */
  ghost predicate EdgesOf(edges: seq<Edge>, g: Graph) {
    forall d, c :: (d, c) in edges <==> c in g && d in g[c]
  }

  function Get(reverse: map<string, seq<string>>, d: string): seq<string> {
    if d in reverse then reverse[d] else []
  }

  /** The indegree table and the table of followers, as filled from `edges`. */
  ghost predicate Tables(edges: seq<Edge>, nodes: seq<string>, indegree: map<string, int>,
                         reverse: map<string, seq<string>>) {
    && indegree.Keys == Elems(nodes)
    && (forall e :: e in edges ==> e.0 in nodes)
    && (forall c :: c in indegree ==> indegree[c] == Pending(edges, c, {}))
    && (forall d :: Get(reverse, d) == Followers(edges, d))
  }

  lemma Snoc(edges: seq<Edge>, e: Edge, x: string)
    ensures Pending(edges + [e], x, {}) == Pending(edges, x, {}) + if e.1 == x then 1 else 0
    ensures Followers(edges + [e], x) == Followers(edges, x) + if e.0 == x then [e.1] else []
  {
    assert (edges + [e])[..|edges|] == edges;
  }

  lemma AddEdge(edges: seq<Edge>, e: Edge, nodes: seq<string>, indegree: map<string, int>,
                reverse: map<string, seq<string>>)
    requires Tables(edges, nodes, indegree, reverse) && e.0 in nodes && e.1 in nodes
    ensures Tables(edges + [e], nodes, indegree[e.1 := indegree[e.1] + 1], reverse[e.0 := Get(reverse, e.0) + [e.1]])
  {
    hide Pending, Followers;
    var indegree' := indegree[e.1 := indegree[e.1] + 1];
    var reverse' := reverse[e.0 := Get(reverse, e.0) + [e.1]];
    forall c | c in indegree' ensures indegree'[c] == Pending(edges + [e], c, {}) {
      Snoc(edges, e, c);
      assert indegree[c] == Pending(edges, c, {});
    }
    forall d ensures Get(reverse', d) == Followers(edges + [e], d) {
      Snoc(edges, e, d);
      assert Get(reverse, d) == Followers(edges, d);
    }
    assert indegree'.Keys == indegree.Keys;
  }

  /** The first entry, in reading order, whose dependency is no node. */
  ghost predicate FirstUnknown(edges: seq<Edge>, nodes: seq<string>, k: int) {
    0 <= k < |edges| && edges[k].0 !in nodes && forall i :: 0 <= i < k ==> edges[i].0 in nodes
  }

  ghost predicate ReportsUnknown(edges: seq<Edge>, nodes: seq<string>, r: Outcome) {
    exists k :: FirstUnknown(edges, nodes, k) && r == Err(UnknownDependency(edges[k].0, edges[k].1))
  }

  lemma {:induction false} ReadSoFar(nodes: seq<string>, dependencies: DependsOn, i: nat, j: nat)
    requires i < |nodes| && j < |DepsOf(dependencies, nodes[i])|
    ensures var all, read := EdgeList(nodes, dependencies),
                             EdgeList(nodes[..i], dependencies)
                             + Entries(DepsOf(dependencies, nodes[i])[..j], nodes[i]);
            |read| < |all| && read <= all && all[|read|] == (DepsOf(dependencies, nodes[i])[j], nodes[i])
    decreases |nodes|
  {
    hide Entries;
    var init := nodes[..|nodes| - 1];
    if i < |init| {
      assert init[..i] == nodes[..i];
      ReadSoFar(init, dependencies, i, j);
    } else {
      ReadLast(DepsOf(dependencies, nodes[i]), nodes[i], j);
    }
  }

  lemma {:induction false} ReadLast(deps: seq<string>, node: string, j: nat)
    requires j < |deps|
    ensures Entries(deps[..j], node) <= Entries(deps, node)
  {
  }

  lemma {:induction false} EdgeListIsGraph(nodes: seq<string>, dependencies: DependsOn)
    ensures EdgesOf(EdgeList(nodes, dependencies), GraphOf(nodes, dependencies))
  {
    if nodes != [] {
      var init, node := nodes[..|nodes| - 1], nodes[|nodes| - 1];
      var new_ := Entries(DepsOf(dependencies, node), node);
      EdgeListIsGraph(init, dependencies);
      assert nodes == init + [node];
      forall d, c ensures (d, c) in new_ <==> c == node && d in DepsOf(dependencies, node) {
        if c == node && d in DepsOf(dependencies, node) {
          var k :| 0 <= k < |new_| && DepsOf(dependencies, node)[k] == d;
          assert new_[k] == (d, c);
        }
      }
    }
  }

  lemma NoEdges(nodes: seq<string>)
    ensures Tables([], nodes, map n | n in nodes :: 0, map[])
  {
  }

  /** The inner loop: the entries of one node, up to one that names no node. */
  method ReadEntries(node: string, deps: seq<string>, nodes: seq<string>, ghost edges: seq<Edge>,
                     indegree0: map<string, int>, reverse0: map<string, seq<string>>)
    returns (j: nat, indegree: map<string, int>, reverse: map<string, seq<string>>)
    requires Tables(edges, nodes, indegree0, reverse0) && node in nodes
    ensures j <= |deps| && Tables(edges + Entries(deps[..j], node), nodes, indegree, reverse)
    ensures j < |deps| ==> deps[j] !in nodes
  {
    hide Pending, Followers;
    indegree, reverse, j := indegree0, reverse0, 0;
    ghost var read := edges;
    while j < |deps|
      invariant j <= |deps| && read == edges + Entries(deps[..j], node)
      invariant Tables(read, nodes, indegree, reverse)
    {
      var dependency := deps[j];
      if dependency !in indegree { return; }
      AddEdge(read, (dependency, node), nodes, indegree, reverse);
      assert deps[..j + 1][..j] == deps[..j];
      read := read + [(dependency, node)];
      indegree := indegree[node := indegree[node] + 1];
      reverse := reverse[dependency := Get(reverse, dependency) + [node]];
      j := j + 1;
    }
  }

  method FillTables(nodes: seq<string>, dependencies: DependsOn)
    returns (r: Outcome, indegree: map<string, int>, reverse: map<string, seq<string>>)
    ensures r.Ok? ==> Tables(EdgeList(nodes, dependencies), nodes, indegree, reverse)
    ensures r.Err? ==> ReportsUnknown(EdgeList(nodes, dependencies), nodes, r)
  {
    hide Pending, Followers;
    NoEdges(nodes);
    indegree := map n | n in nodes :: 0;
    reverse := map[];
    for i := 0 to |nodes|
      invariant Tables(EdgeList(nodes[..i], dependencies), nodes, indegree, reverse)
    {
      var node := nodes[i];
      var deps := DepsOf(dependencies, node);
      ghost var edges := EdgeList(nodes[..i], dependencies);
      var j;
      j, indegree, reverse := ReadEntries(node, deps, nodes, edges, indegree, reverse);
      if j < |deps| {
        ReadSoFar(nodes, dependencies, i, j);
        FirstUnread(nodes, dependencies, edges + Entries(deps[..j], node), (deps[j], node));
        return Err(UnknownDependency(deps[j], node)), indegree, reverse;
      }
      assert deps[..j] == deps;
      assert nodes[..i + 1][..i] == nodes[..i];
    }
    assert nodes[..|nodes|] == nodes;
    r := Ok([]);
  }

  lemma FirstUnread(nodes: seq<string>, dependencies: DependsOn, edges: seq<Edge>, e: Edge)
    requires edges <= EdgeList(nodes, dependencies) && |edges| < |EdgeList(nodes, dependencies)|
    requires EdgeList(nodes, dependencies)[|edges|] == e && e.0 !in nodes
    requires forall x :: x in edges ==> x.0 in nodes
    ensures FirstUnknown(EdgeList(nodes, dependencies), nodes, |edges|)
  {
    var all := EdgeList(nodes, dependencies);
    forall i | 0 <= i < |edges| ensures all[i].0 in nodes {
      assert all[i] == edges[i];
    }
  }

  /** The queue invariant of the main loop: what holds a node back is what is unfinished. */
  ghost predicate Counts(edges: seq<Edge>, g: Graph, indegree: map<string, int>, done: set<string>) {
    indegree.Keys == g.Keys && forall c :: c in g ==> indegree[c] == Pending(edges, c, done)
  }

  lemma CountsZero(edges: seq<Edge>, g: Graph, indegree: map<string, int>, done: set<string>)
    requires EdgesOf(edges, g) && Counts(edges, g, indegree, done)
    ensures forall c :: c in g ==> (indegree[c] == 0 <==> g[c] <= done)
  {
    forall c | c in g ensures indegree[c] == 0 <==> g[c] <= done {
      PendingZero(edges, c, done);
      assert forall d :: (d, c) in edges <==> d in g[c];
    }
  }

  lemma PrefixCount(s: seq<string>, i: nat)
    requires i < |s|
    ensures multiset(s[..i + 1]) == multiset(s[..i])[s[i] := multiset(s[..i])[s[i]] + 1]
    ensures multiset(s[..i])[s[i]] < multiset(s)[s[i]]
    ensures forall x :: x in s[..i + 1] <==> x in s[..i] || x == s[i]
  {
    assert s[..i + 1] == s[..i] + [s[i]];
    assert s == s[..i + 1] + s[i + 1..];
  }

  /**
   The inner loop: count each follower down, sorted and with repetitions; a follower is
   unlocked by its last repetition.
   */
  method CountDown(followers: seq<string>, indegree0: map<string, int>)
    returns (indegree: map<string, int>, unlocked: seq<string>)
    requires Nondecreasing(followers)
    requires forall c :: c in followers ==> c in indegree0 && indegree0[c] >= multiset(followers)[c]
    ensures indegree.Keys == indegree0.Keys && Sorted(unlocked)
    ensures forall c :: c in indegree ==> indegree[c] == indegree0[c] - multiset(followers)[c]
    ensures forall c :: c in unlocked <==> c in followers && c in indegree && indegree[c] == 0
  {
    indegree, unlocked := indegree0, [];
    for i := 0 to |followers|
      invariant indegree.Keys == indegree0.Keys && Sorted(unlocked)
      invariant forall c :: c in indegree ==> indegree[c] == indegree0[c] - multiset(followers[..i])[c]
      invariant forall c :: c in unlocked <==> c in followers[..i] && indegree[c] == 0
    {
      var follower := followers[i];
      PrefixCount(followers, i);
      assert forall k :: 0 <= k < |unlocked| ==> unlocked[k] in unlocked;
      indegree := indegree[follower := indegree[follower] - 1];
      if indegree[follower] == 0 {
        unlocked := unlocked + [follower];
      }
    }
    assert followers[..|followers|] == followers;
  }

  lemma CanCountDown(edges: seq<Edge>, g: Graph, done: set<string>, current: string, followers: seq<string>,
                     before: map<string, int>)
    requires EdgesOf(edges, g) && Counts(edges, g, before, done) && current !in done
    requires multiset(followers) == multiset(Followers(edges, current))
    ensures forall c :: c in followers <==> c in g && current in g[c]
    ensures forall c :: c in followers ==> before[c] >= multiset(followers)[c]
  {
    hide Pending, Followers;
    FollowersAre(edges, current);
    forall c ensures c in followers <==> c in g && current in g[c] {
      assert c in followers <==> c in multiset(followers);
      assert c in Followers(edges, current) <==> c in multiset(followers);
      assert (current, c) in edges <==> c in g && current in g[c];
    }
    forall c | c in followers ensures before[c] >= multiset(followers)[c] {
      Release(edges, current, c, done);
    }
  }

  /** Counting down the followers of `current` accounts for `current` being finished. */
  lemma Counted(edges: seq<Edge>, g: Graph, done: set<string>, current: string, followers: seq<string>,
                before: map<string, int>, after: map<string, int>, unlocked: seq<string>)
    requires EdgesOf(edges, g) && Counts(edges, g, before, done) && current !in done
    requires multiset(followers) == multiset(Followers(edges, current)) && after.Keys == g.Keys
    requires forall c :: c in after ==> after[c] == before[c] - multiset(followers)[c]
    requires forall c :: c in unlocked <==> c in followers && c in after && after[c] == 0
    ensures Counts(edges, g, after, done + {current})
    ensures Elems(unlocked) == Unlocked(g, done + {current}, current)
  {
    hide Pending, Followers;
    CanCountDown(edges, g, done, current, followers, before);
    forall c | c in g ensures after[c] == Pending(edges, c, done + {current}) {
      Release(edges, current, c, done);
    }
    CountsZero(edges, g, after, done + {current});
  }

  /** The main loop computes the order of the Kahn specification. */
  method Drain(ghost edges: seq<Edge>, ghost g: Graph, indegree0: map<string, int>, reverse: map<string, seq<string>>)
    returns (ordered: seq<string>)
    requires EdgesOf(edges, g) && Counts(edges, g, indegree0, {})
    requires forall d :: Get(reverse, d) == Followers(edges, d)
    ensures ordered == Order(g)
  {
    hide Pending, Followers, Run, Invariant, EdgesOf;
    var indegree := indegree0;
    var roots := set n | n in indegree && indegree[n] == 0;
    CountsZero(edges, g, indegree, {});
    assert roots == Ready(g, {});
    Start(g);
    var queue := SortSet(roots);
    ordered := [];
    assert Elems(ordered) == {};
    while queue != []
      invariant Invariant(g, ordered, queue) && Run(g, ordered, queue) == Order(g)
      invariant Counts(edges, g, indegree, Elems(ordered))
      decreases |g| - |ordered|
    {
      var current := queue[0];
      ghost var done := Elems(ordered);
      NextIsNew(g, ordered, queue);
      var followers := SortList(Get(reverse, current));
      CanCountDown(edges, g, done, current, followers, indegree);
      var released, unlocked := CountDown(followers, indegree);
      Counted(edges, g, done, current, followers, indegree, released, unlocked);
      indegree := released;
      RunStep(g, ordered, queue, unlocked);
      ordered, queue := ordered + [current], queue[1..] + unlocked;
    }
    RunEnds(g, ordered);
  }

  /** An ordering of the nodes in which nothing precedes a dependency of its own. */
  ghost predicate IsSchedule(g: Graph, nodes: seq<string>, order: seq<string>) {
    multiset(order) == multiset(nodes) && DepsFirst(g, order)
  }

  method TopologicalOrder(nodes: seq<string>, dependencies: DependsOn) returns (r: Outcome)
    // It succeeds exactly on distinct nodes with known and acyclic dependencies.
    ensures r.Ok? <==> Distinct(nodes) && Closed(GraphOf(nodes, dependencies)) && Acyclic(GraphOf(nodes, dependencies))
    ensures r.Ok? ==> r.order == Order(GraphOf(nodes, dependencies))
    ensures r.Ok? ==> IsSchedule(GraphOf(nodes, dependencies), nodes, r.order)
    ensures r.Ok? ==> Layered(GraphOf(nodes, dependencies), r.order)
    // An unknown dependency is reported first, and it is the first one in reading order.
    ensures !Closed(GraphOf(nodes, dependencies)) ==> ReportsUnknown(EdgeList(nodes, dependencies), nodes, r)
    // Otherwise a failure on distinct nodes comes with a cycle.
    ensures r == Err(HasCycle) && Distinct(nodes) ==> exists c :: Cycle(GraphOf(nodes, dependencies), c)
    ensures r.Err? && Closed(GraphOf(nodes, dependencies)) ==> r == Err(HasCycle)
  {
    hide Acyclic, Layered, FirstUnknown;
    ghost var g := GraphOf(nodes, dependencies);
    ghost var edges := EdgeList(nodes, dependencies);
    EdgeListIsGraph(nodes, dependencies);
    var filled, indegree, reverse := FillTables(nodes, dependencies);
    if filled.Err? {
      UnknownNotClosed(nodes, dependencies, filled);
      return filled;
    }
    KnownIsClosed(edges, nodes, dependencies);
    var ordered := Drain(edges, g, indegree, reverse);
    WrapUp(nodes, g);
    r := if |ordered| == |nodes| then Ok(ordered) else Err(HasCycle);
  }

  lemma UnknownNotClosed(nodes: seq<string>, dependencies: DependsOn, r: Outcome)
    requires ReportsUnknown(EdgeList(nodes, dependencies), nodes, r)
    ensures !Closed(GraphOf(nodes, dependencies)) && r.Err? && r.failure.UnknownDependency?
  {
    var edges := EdgeList(nodes, dependencies);
    EdgeListIsGraph(nodes, dependencies);
    var k :| FirstUnknown(edges, nodes, k) && r == Err(UnknownDependency(edges[k].0, edges[k].1));
    var d, n := edges[k].0, edges[k].1;
    assert edges[k] == (d, n) && (d, n) in edges;
    assert d in GraphOf(nodes, dependencies)[n] && d !in GraphOf(nodes, dependencies);
  }

  lemma KnownIsClosed(edges: seq<Edge>, nodes: seq<string>, dependencies: DependsOn)
    requires EdgesOf(edges, GraphOf(nodes, dependencies)) && forall e :: e in edges ==> e.0 in nodes
    ensures Closed(GraphOf(nodes, dependencies))
  {
    var g := GraphOf(nodes, dependencies);
    forall n, d | n in g && d in g[n] ensures d in g { assert (d, n) in edges; }
  }

  /** Counting the ordered nodes detects repeated identifiers and cycles alike. */
  lemma WrapUp(nodes: seq<string>, g: Graph)
    requires Closed(g) && g.Keys == Elems(nodes)
    ensures |Order(g)| == |nodes| <==> Distinct(nodes) && Acyclic(g)
    ensures |Order(g)| == |nodes| ==> IsSchedule(g, nodes, Order(g)) && Layered(g, Order(g))
    ensures !Acyclic(g) ==> exists c :: Cycle(g, c)
  {
    DistinctSize(nodes);
    OrderComplete(g);
    OrderFacts(g);
    OrderIsLayered(g);
    DistinctSize(Order(g));
    SubsetSize(Elems(Order(g)), Elems(nodes));
    if |Order(g)| == |nodes| { SamePermutation(Order(g), nodes); }
  }

  /** One node, listed twice and depending on nothing, is reported as a cycle. */
  method RepeatedNode() returns (r: Outcome)
    ensures r == Err(HasCycle)
    ensures Closed(GraphOf(["a", "a"], map[])) && Acyclic(GraphOf(["a", "a"], map[]))
  {
    var nodes: seq<string>, dependencies: DependsOn := ["a", "a"], map[];
    ghost var g := GraphOf(nodes, dependencies);
    assert nodes[0] == nodes[1] && !Distinct(nodes);
    assert g.Keys == {"a"} && g["a"] == {};
    NoEdgesNoCycle(g);
    r := TopologicalOrder(nodes, dependencies);
  }

  lemma NoEdgesNoCycle(g: Graph)
    requires forall n :: n in g ==> g[n] == {}
    ensures Closed(g) && Acyclic(g)
  {
    assert forall c :: Walk(g, c) && |c| > 1 ==> c[0 + 1] in g[c[0]];
  }
}
