/**
 Kahn's algorithm on a dependency graph, as a function: the reference that both
 orderers of the repository are proved to compute.  `g[n]` is what `n` depends on.
 */
module Kahn {
  import opened Names

  type Graph = map<string, set<string>>

  /** Every dependency is itself a node. */
  ghost predicate Closed(g: Graph) {
    forall n, d :: n in g && d in g[n] ==> d in g
  }

  /** The nodes whose dependencies all lie in `done`. */
  function Ready(g: Graph, done: set<string>): set<string> {
    set n | n in g && g[n] <= done
  }

  /** The nodes that become ready by the completion of `n`, the last of `done`. */
  function Unlocked(g: Graph, done: set<string>, n: string): set<string> {
    set c | c in g && n in g[c] && g[c] <= done
  }

  ghost predicate DepsFirst(g: Graph, s: seq<string>) {
    forall i :: 0 <= i < |s| ==> s[i] in g && forall d :: d in g[s[i]] ==> d in s[..i]
  }

  /** Between steps, the finished and the waiting nodes are exactly the ready ones. */
  ghost predicate Invariant(g: Graph, done: seq<string>, queue: seq<string>) {
    && Distinct(done + queue)
    && Elems(done + queue) == Ready(g, Elems(done))
    && DepsFirst(g, done)
  }

  lemma StepReady(g: Graph, done: set<string>, n: string)
    requires n in Ready(g, done) && n !in done
    ensures Ready(g, done + {n}) == Ready(g, done) + Unlocked(g, done + {n}, n)
    ensures Ready(g, done) !! Unlocked(g, done + {n}, n)
  {
  }

  lemma MoveHead(done: seq<string>, queue: seq<string>, newly: seq<string>)
    requires queue != []
    ensures (done + queue) + newly == (done + [queue[0]]) + (queue[1..] + newly)
    ensures queue[0] in Elems(done + queue)
  {
    assert (done + queue)[|done|] == queue[0];
  }

  lemma HeadIsNew(done: seq<string>, queue: seq<string>)
    requires Distinct(done + queue) && queue != []
    ensures queue[0] !in done && |done + [queue[0]]| == |Elems(done + [queue[0]])|
  {
    var s := done + [queue[0]];
    assert done + queue == s + queue[1..];
    DistinctPrefix(s, queue[1..]);
    DistinctSize(s);
    forall i | 0 <= i < |done| ensures done[i] != queue[0] {
      assert s[i] == done[i] && s[|done|] == queue[0];
    }
  }

  /** One step keeps the invariant. */
  lemma Step(g: Graph, done: seq<string>, queue: seq<string>)
    requires Invariant(g, done, queue) && queue != []
    ensures Invariant(g, done + [queue[0]],
                      queue[1..] + SortSet(Unlocked(g, Elems(done + [queue[0]]), queue[0])))
    ensures |done| < |g|
  {
    var n := queue[0];
    var newly := SortSet(Unlocked(g, Elems(done + [n]), n));
    HeadIsNew(done, queue);
    MoveHead(done, queue, newly);
    assert Elems(done + [n]) == Elems(done) + {n};
    StepReady(g, Elems(done), n);
    AppendDisjoint(done + queue, newly);
    StepDepsFirst(g, done, n);
    SubsetSize(Elems(done + [n]), g.Keys);
  }

  lemma AppendDisjoint(a: seq<string>, b: seq<string>)
    requires Distinct(a) && Sorted(b) && Elems(a) !! Elems(b)
    ensures Distinct(a + b) && Elems(a + b) == Elems(a) + Elems(b)
  {
    forall c | c in b ensures c !in a {
      assert c in Elems(b);
      assert c !in Elems(a);
    }
    DistinctAppend(a, b);
  }

  lemma StepDepsFirst(g: Graph, done: seq<string>, n: string)
    requires DepsFirst(g, done) && n in g && g[n] <= Elems(done)
    ensures DepsFirst(g, done + [n])
  {
    var s := done + [n];
    forall i | 0 <= i < |s| ensures s[i] in g && forall d :: d in g[s[i]] ==> d in s[..i] {
      if i < |done| { assert s[..i] == done[..i]; } else { assert s[..i] == done; }
    }
  }

  lemma DistinctAppend(a: seq<string>, b: seq<string>)
    requires Distinct(a) && Sorted(b) && forall c :: c in b ==> c !in a
    ensures Distinct(a + b)
  {
    forall i, j | 0 <= i < j < |b| ensures b[i] != b[j] {
      Trichotomy(b[i], b[j]);
    }
    forall i, j | 0 <= i < j < |a + b| ensures (a + b)[i] != (a + b)[j] {
      if i < |a| <= j { assert b[j - |a|] in b; }
    }
  }

  lemma DistinctPrefix<T>(a: seq<T>, b: seq<T>)
    requires Distinct(a + b)
    ensures Distinct(a)
  {
    forall i, j | 0 <= i < j < |a| ensures a[i] != a[j] {
      assert (a + b)[i] == a[i] && (a + b)[j] == a[j];
    }
  }

  /** The completed order reached from a state of the queue. */
  ghost function Run(g: Graph, done: seq<string>, queue: seq<string>): seq<string>
    requires Invariant(g, done, queue)
    decreases |g| - |done|
  {
    if queue == [] then done else
      Step(g, done, queue);
      var done' := done + [queue[0]];
      Run(g, done', queue[1..] + SortSet(Unlocked(g, Elems(done'), queue[0])))
  }

  lemma Start(g: Graph)
    ensures Invariant(g, [], SortSet(Ready(g, {})))
  {
    var q := SortSet(Ready(g, {}));
    assert [] + q == q;
    DistinctAppend([], q);
  }

  ghost function Order(g: Graph): seq<string> {
    Start(g);
    Run(g, [], SortSet(Ready(g, {})))
  }

  /** What a loop that computes the order has to establish about one round. */
  lemma RunStep(g: Graph, done: seq<string>, queue: seq<string>, unlocked: seq<string>)
    requires Invariant(g, done, queue) && queue != []
    requires Sorted(unlocked) && Elems(unlocked) == Unlocked(g, Elems(done) + {queue[0]}, queue[0])
    ensures Elems(done + [queue[0]]) == Elems(done) + {queue[0]} && queue[0] !in Elems(done)
    ensures Invariant(g, done + [queue[0]], queue[1..] + unlocked) && |done| < |g|
    ensures Run(g, done + [queue[0]], queue[1..] + unlocked) == Run(g, done, queue)
  {
    Step(g, done, queue);
    HeadIsNew(done, queue);
    assert Elems(done + [queue[0]]) == Elems(done) + {queue[0]};
    SortedUnique(unlocked, SortSet(Unlocked(g, Elems(done + [queue[0]]), queue[0])));
  }

  lemma NextIsNew(g: Graph, done: seq<string>, queue: seq<string>)
    requires Invariant(g, done, queue) && queue != []
    ensures queue[0] !in Elems(done)
  {
    HeadIsNew(done, queue);
  }

  lemma RunEnds(g: Graph, done: seq<string>)
    requires Invariant(g, done, [])
    ensures Run(g, done, []) == done
  {
  }

  lemma {:induction false} RunInvariant(g: Graph, done: seq<string>, queue: seq<string>)
    requires Invariant(g, done, queue)
    ensures Invariant(g, Run(g, done, queue), [])
    decreases |g| - |done|
  {
    if queue != [] {
      Step(g, done, queue);
      var done' := done + [queue[0]];
      RunInvariant(g, done', queue[1..] + SortSet(Unlocked(g, Elems(done'), queue[0])));
    }
  }

  lemma OrderInvariant(g: Graph)
    ensures Invariant(g, Order(g), [])
  {
    Start(g);
    RunInvariant(g, [], SortSet(Ready(g, {})));
  }

  /** The order lists distinct nodes, dependencies first; what it leaves out is blocked. */
  lemma OrderFacts(g: Graph)
    ensures Distinct(Order(g)) && DepsFirst(g, Order(g))
    ensures Elems(Order(g)) == Ready(g, Elems(Order(g)))
  {
    OrderInvariant(g);
    assert Order(g) + [] == Order(g);
  }

  // ---------------------------------------------------------------- cycles

  /** A chain of dependencies: each node depends on the next one. */
  ghost predicate Walk(g: Graph, p: seq<string>) {
    && p != []
    && (forall i :: 0 <= i < |p| ==> p[i] in g)
    && (forall i :: 0 <= i < |p| - 1 ==> p[i + 1] in g[p[i]])
  }

  ghost predicate Cycle(g: Graph, c: seq<string>) {
    Walk(g, c) && |c| > 1 && c[0] == c[|c| - 1]
  }

  ghost predicate Acyclic(g: Graph) {
    forall c :: !Cycle(g, c)
  }

  /** Some chain of dependencies from `n` runs into a cycle. */
  ghost predicate ReachesCycle(g: Graph, n: string) {
    exists p, c :: Walk(g, p) && p[0] == n && Cycle(g, c) && c[0] == p[|p| - 1]
  }

  /** In an order with dependencies first, a walk only ever goes to earlier positions. */
  lemma {:induction false} WalkDescends(g: Graph, s: seq<string>, p: seq<string>, k: nat, j: nat) returns (m: nat)
    requires DepsFirst(g, s) && Walk(g, p) && k < |s| && s[k] == p[0] && j < |p|
    ensures m + j <= k && s[m] == p[j]
    decreases j
  {
    if j == 0 {
      m := k;
    } else {
      var b := WalkDescends(g, s, p, k, j - 1);
      assert p[j - 1 + 1] in g[s[b]];
      m :| 0 <= m < b && s[..b][m] == p[j];
    }
  }

  lemma OrderedNotCyclic(g: Graph, s: seq<string>, p: seq<string>, c: seq<string>)
    requires DepsFirst(g, s) && Distinct(s) && Walk(g, p) && p[0] in s
    requires c != [] && c[0] == p[|p| - 1]
    ensures !Cycle(g, c)
  {
    if Cycle(g, c) {
      var k :| 0 <= k < |s| && s[k] == p[0];
      var m := WalkDescends(g, s, p, k, |p| - 1);
      var _ := WalkDescends(g, s, c, m, |c| - 1);
    }
  }

  /** From a node that was never reached one can walk among such nodes for ever. */
  lemma {:induction false} StuckWalk(g: Graph, s: seq<string>, n: string, k: nat) returns (p: seq<string>)
    requires Closed(g) && Invariant(g, s, []) && n in g && n !in s
    ensures Walk(g, p) && |p| == k + 1 && p[0] == n
    decreases k
  {
    if k == 0 {
      p := [n];
    } else {
      assert s + [] == s;
      assert n !in Elems(s);
      var d :| d in g[n] && d !in Elems(s);
      var q := StuckWalk(g, s, d, k - 1);
      p := [n] + q;
    }
  }

  lemma Pigeonhole(p: seq<string>, s: set<string>) returns (i: nat, j: nat)
    requires (forall x :: x in p ==> x in s) && |p| > |s|
    ensures i < j < |p| && p[i] == p[j]
  {
    DistinctSize(p);
    SubsetSize(Elems(p), s);
    i, j :| 0 <= i < j < |p| && p[i] == p[j];
  }

  /** From a node that is never emitted a cycle can be reached. */
  lemma StuckReachesCycle(g: Graph, s: seq<string>, n: string)
    requires Closed(g) && Invariant(g, s, []) && n in g && n !in s
    ensures ReachesCycle(g, n)
  {
    hide Invariant;
    var p := StuckWalk(g, s, n, |g|);
    var i, j := Pigeonhole(p, g.Keys);
    assert Walk(g, p[..i + 1]);
    assert Cycle(g, p[i..j + 1]);
  }

  /** The order lists exactly the nodes from which no dependency cycle is reachable. */
  lemma OrderIsCycleFree(g: Graph)
    requires Closed(g)
    ensures forall n :: n in g ==> (n in Order(g) <==> !ReachesCycle(g, n))
  {
    var s := Order(g);
    OrderInvariant(g);
    OrderFacts(g);
    hide Order, Invariant, Closed;
    forall n | n in g ensures n in s <==> !ReachesCycle(g, n) {
      if n in s && ReachesCycle(g, n) {
        var p, c :| Walk(g, p) && p[0] == n && Cycle(g, c) && c[0] == p[|p| - 1];
        OrderedNotCyclic(g, s, p, c);
      }
      if n !in s { StuckReachesCycle(g, s, n); }
    }
  }

  lemma CycleIsReached(g: Graph, c: seq<string>)
    requires Cycle(g, c)
    ensures c[0] in g && ReachesCycle(g, c[0])
  {
    assert Walk(g, [c[0]]);
  }

  /** Nothing is left over exactly when the graph has no cycle. */
  lemma OrderComplete(g: Graph)
    requires Closed(g)
    ensures |Order(g)| <= |g|
    ensures |Order(g)| == |g| <==> Acyclic(g)
    ensures Acyclic(g) ==> Elems(Order(g)) == g.Keys
  {
    var s := Order(g);
    OrderFacts(g);
    OrderIsCycleFree(g);
    DistinctSize(s);
    SubsetSize(Elems(s), g.Keys);
    if c :| Cycle(g, c) {
      CycleIsReached(g, c);
      assert c[0] !in Elems(s);
    } else {
      forall n | n in g ensures n in Elems(s) {
        assert !ReachesCycle(g, n);
      }
      assert Elems(s) == g.Keys;
    }
  }

  // ---------------------------------------------------------------- layers

  /** The nodes none of whose dependency chains has more than `k` links. */
  ghost function UpTo(g: Graph, k: int): set<string>
    decreases if k < 0 then 0 else k + 1
  {
    if k < 0 then {} else Ready(g, UpTo(g, k - 1))
  }

  /** `UpTo` is about the length of dependency chains. */
  lemma {:induction false} UpToBoundsWalks(g: Graph, k: int, n: string)
    requires Closed(g) && n in g && k >= -1
    ensures n in UpTo(g, k) <==> forall p :: Walk(g, p) && p[0] == n ==> |p| <= k + 1
    decreases k + 1
  {
    if k < 0 {
      assert Walk(g, [n]);
    } else if n in UpTo(g, k) {
      forall p | Walk(g, p) && p[0] == n ensures |p| <= k + 1 {
        if |p| > 1 {
          assert p[0 + 1] in g[p[0]];
          UpToBoundsWalks(g, k - 1, p[1]);
          assert Walk(g, p[1..]);
        }
      }
    } else {
      var d :| d in g[n] && d !in UpTo(g, k - 1);
      UpToBoundsWalks(g, k - 1, d);
      var q :| Walk(g, q) && q[0] == d && |q| > k;
      assert Walk(g, [n] + q);
    }
  }

  lemma {:induction false} UpToGrows(g: Graph, k: int)
    ensures UpTo(g, k - 1) <= UpTo(g, k)
    decreases if k < 0 then 0 else k + 1
  {
    if k >= 0 { UpToGrows(g, k - 1); }
  }

  /** No node is preceded by one with a longer dependency chain. */
  ghost predicate Layered(g: Graph, s: seq<string>) {
    forall i, j, k :: 0 <= i < j < |s| && s[j] in UpTo(g, k) ==> s[i] in UpTo(g, k)
  }

  /**
   At most two adjacent layers wait: the finished nodes have depth up to `d`, the waiting
   ones are first those of depth `d` and then those of depth `d + 1`, and no node of depth
   up to `d` is anywhere else.
   */
  ghost predicate TwoLayers(g: Graph, done: seq<string>, a: seq<string>, b: seq<string>, d: int) {
    && d >= -1
    && Elems(done) <= UpTo(g, d) <= Elems(done + a)
    && (forall n :: n in a ==> n in UpTo(g, d) - UpTo(g, d - 1))
    && (forall n :: n in b ==> n in UpTo(g, d + 1) - UpTo(g, d))
    && Layered(g, done)
  }

  lemma {:induction false} UpToMonotone(g: Graph, j: int, k: int)
    requires j <= k
    ensures UpTo(g, j) <= UpTo(g, k)
    decreases k - j
  {
    if j < k { UpToGrows(g, k); UpToMonotone(g, j, k - 1); }
  }

  lemma {:induction false} RunIsLayered(g: Graph, done: seq<string>, a: seq<string>, b: seq<string>, d: int)
    requires Invariant(g, done, a + b) && TwoLayers(g, done, a, b, d)
    ensures Layered(g, Run(g, done, a + b))
    decreases |g| - |done|, if a == [] then 1 else 0
  {
    if a == [] {
      assert a + b == b && done + a == done;
      if b != [] {
        assert b + [] == b;
        NextLayer(g, done, b, d);
        RunIsLayered(g, done, b, [], d + 1);
      }
    } else {
      var n := a[0];
      var done' := done + [n];
      var newly := SortSet(Unlocked(g, Elems(done'), n));
      Step(g, done, a + b);
      assert (a + b)[1..] + newly == a[1..] + (b + newly);
      TakeFromLayer(g, done, a, b, d);
      RunIsLayered(g, done', a[1..], b + newly, d);
    }
  }

  /** When a layer is finished, the next one is exactly what waits. */
  lemma NextLayer(g: Graph, done: seq<string>, b: seq<string>, d: int)
    requires Invariant(g, done, b) && TwoLayers(g, done, [], b, d)
    ensures TwoLayers(g, done, b, [], d + 1)
  {
    assert done + [] == done;
    UpToGrows(g, d + 1);
    assert Elems(done) == UpTo(g, d);
    assert UpTo(g, d + 1) == Elems(done + b);
  }

  lemma TakeFromLayer(g: Graph, done: seq<string>, a: seq<string>, b: seq<string>, d: int)
    requires Invariant(g, done, a + b) && TwoLayers(g, done, a, b, d) && a != []
    ensures TwoLayers(g, done + [a[0]], a[1..], b + SortSet(Unlocked(g, Elems(done + [a[0]]), a[0])), d)
  {
    var n := a[0];
    var done' := done + [n];
    assert n in a;
    assert done' + a[1..] == done + a;
    assert Elems(done') == Elems(done) + {n};
    UpToGrows(g, d);
    var newly := SortSet(Unlocked(g, Elems(done'), n));
    forall c | c in newly ensures c in UpTo(g, d + 1) - UpTo(g, d) {
      assert c in Elems(newly);
    }
    forall x | x in a[1..] ensures x in UpTo(g, d) - UpTo(g, d - 1) { assert x in a; }
    LayeredSnoc(g, done, n, d);
  }

  lemma LayeredSnoc(g: Graph, done: seq<string>, n: string, d: int)
    requires Layered(g, done) && Elems(done) <= UpTo(g, d) && n !in UpTo(g, d - 1)
    ensures Layered(g, done + [n])
  {
    var s := done + [n];
    forall i, j, k | 0 <= i < j < |s| && s[j] in UpTo(g, k) ensures s[i] in UpTo(g, k) {
      if j == |done| {
        if k < d { UpToMonotone(g, k, d - 1); } else { UpToMonotone(g, d, k); }
        assert s[i] in Elems(done);
      }
    }
  }

  /** The FIFO queue yields the nodes in nondecreasing order of their longest chain. */
  lemma OrderIsLayered(g: Graph)
    ensures Layered(g, Order(g))
  {
    Start(g);
    var q := SortSet(Ready(g, {}));
    assert [] + q == q && q + [] == q;
    assert UpTo(g, -1) == {} && UpTo(g, 0) == Elems(q);
    assert TwoLayers(g, [], q, [], 0);
    RunIsLayered(g, [], q, [], 0);
  }
}
