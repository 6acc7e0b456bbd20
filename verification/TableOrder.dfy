/**
 The table orderers of `scripts/clone_local_project_session.py` and
 `scripts/run_react_runtime_clone_comparison.py`.
 */
module TableOrder {
  import opened Names
  import opened Kahn
  import opened Relational
  import ManifestOrder

  /** The tables of `names`, other than `t`, that the keys of `t` reference. */
  ghost function Parents(fks: set<ForeignKey>, t: Table, names: set<Table>): set<Table> {
    set fk | fk in fks && fk.parent != t && fk.parent in names :: fk.parent
  }

  /** What each table of `names` references inside `names`, itself apart. */
  ghost function FkGraph(schema: Schema, names: set<Table>): Graph
    requires names <= schema.Keys
  {
    map t | t in names :: Parents(schema[t].fks, t, names)
  }

  /** The Kahn order, followed by what it leaves out. */
  ghost function FullOrder(g: Graph): seq<Table> {
    Order(g) + SortSet(g.Keys - Elems(Order(g)))
  }

  /** The edges are recorded in both directions, and only among `names`. */
  ghost predicate Recorded(g: Graph, dependencies: map<Table, set<Table>>, dependents: map<Table, set<Table>>) {
    && dependencies == g && dependents.Keys == g.Keys
    && forall t, c :: t in g ==> (c in dependents[t] <==> c in g && t in g[c])
  }

  method RecordEdges(schema: Schema, names: set<Table>)
    returns (dependencies: map<Table, set<Table>>, dependents: map<Table, set<Table>>)
    requires names <= schema.Keys
    ensures Recorded(FkGraph(schema, names), dependencies, dependents)
  {
    dependencies := map t | t in names :: {};
    dependents := map t | t in names :: {};
    var todo := names;
    while todo != {}
      invariant todo <= names && dependencies.Keys == names
      invariant Recorded(dependencies, dependencies, dependents)
      invariant forall t :: t in names ==> dependencies[t] == if t in todo then {} else FkGraph(schema, names)[t]
      decreases todo
    {
      var t :| t in todo;
      dependencies, dependents := RecordTable(names, t, schema[t].fks, dependencies, dependents);
      todo := todo - {t};
    }
    assert dependencies == FkGraph(schema, names);
  }

  method RecordTable(names: set<Table>, t: Table, fks: set<ForeignKey>,
                     dependencies0: map<Table, set<Table>>, dependents0: map<Table, set<Table>>)
    returns (dependencies: map<Table, set<Table>>, dependents: map<Table, set<Table>>)
    requires t in names && dependencies0.Keys == names && dependencies0[t] == {}
    requires Recorded(dependencies0, dependencies0, dependents0)
    ensures Recorded(dependencies, dependencies, dependents)
    ensures dependencies == dependencies0[t := Parents(fks, t, names)]
  {
    dependencies, dependents := dependencies0, dependents0;
    var todo := fks;
    ghost var seen: set<ForeignKey> := {};
    assert Parents(seen, t, names) == {};
    while todo != {}
      invariant seen + todo == fks && Recorded(dependencies, dependencies, dependents)
      invariant dependencies == dependencies0[t := Parents(seen, t, names)]
      decreases todo
    {
      var fk :| fk in todo;
      var parent := fk.parent;
      assert Parents(seen + {fk}, t, names) ==
             Parents(seen, t, names) + if parent != t && parent in names then {parent} else {};
      if parent != t && parent in names {
        dependencies := dependencies[t := dependencies[t] + {parent}];
        dependents := dependents[parent := dependents[parent] + {t}];
      } else {
        assert Parents(seen + {fk}, t, names) == Parents(seen, t, names);
      }
      seen, todo := seen + {fk}, todo - {fk};
    }
    assert seen == fks;
  }

  /** The inner loop: discard `name` from its dependents in sorted order. */
  method Discard(name: Table, children: seq<Table>, dependencies0: map<Table, set<Table>>)
    returns (dependencies: map<Table, set<Table>>, unlocked: seq<Table>)
    requires Sorted(children) && forall c :: c in children ==> c in dependencies0
    ensures dependencies.Keys == dependencies0.Keys && Sorted(unlocked)
    ensures forall c :: c in dependencies ==>
      dependencies[c] == if c in children then dependencies0[c] - {name} else dependencies0[c]
    ensures forall c :: c in unlocked <==> c in children && c in dependencies && dependencies[c] == {}
  {
    dependencies, unlocked := dependencies0, [];
    for i := 0 to |children|
      invariant dependencies.Keys == dependencies0.Keys && Sorted(unlocked)
      invariant forall c :: c in dependencies ==>
        dependencies[c] == if c in children[..i] then dependencies0[c] - {name} else dependencies0[c]
      invariant forall c :: c in unlocked <==> c in children[..i] && c in dependencies && dependencies[c] == {}
    {
      var child := children[i];
      assert children[..i + 1] == children[..i] + [child];
      assert child !in children[..i] by { Trichotomy(child, child); }
      assert forall k :: 0 <= k < |unlocked| ==> unlocked[k] in unlocked;
      dependencies := dependencies[child := dependencies[child] - {name}];
      if dependencies[child] == {} {
        unlocked := unlocked + [child];
      }
    }
    assert children[..|children|] == children;
  }

  /** What is still waited for: the dependencies that are not yet ordered. */
  ghost predicate Waiting(g: Graph, dependencies: map<Table, set<Table>>, done: set<Table>) {
    dependencies.Keys == g.Keys && forall c :: c in g ==> dependencies[c] == g[c] - done
  }

  lemma Discarded(g: Graph, done: set<Table>, name: Table, children: seq<Table>,
                  before: map<Table, set<Table>>, after: map<Table, set<Table>>, unlocked: seq<Table>)
    requires Waiting(g, before, done) && after.Keys == g.Keys
    requires forall c :: c in children <==> c in g && name in g[c]
    requires forall c :: c in after ==> after[c] == if c in children then before[c] - {name} else before[c]
    requires forall c :: c in unlocked <==> c in children && c in after && after[c] == {}
    ensures Waiting(g, after, done + {name})
    ensures Elems(unlocked) == Unlocked(g, done + {name}, name)
  {
    forall c | c in g ensures after[c] == g[c] - (done + {name}) {
      assert before[c] == g[c] - done;
    }
  }

  method Drain(ghost g: Graph, dependencies0: map<Table, set<Table>>, dependents: map<Table, set<Table>>)
    returns (ordered: seq<Table>)
    requires Recorded(g, dependencies0, dependents)
    ensures ordered == Order(g)
  {
    hide Run, Invariant, Recorded;
    var dependencies := dependencies0;
    var roots := set t | t in dependencies && dependencies[t] == {};
    Roots(g, dependencies, dependents, roots);
    Start(g);
    var ready := SortSet(roots);
    ordered := [];
    assert Elems(ordered) == {};
    while ready != []
      invariant Invariant(g, ordered, ready) && Run(g, ordered, ready) == Order(g)
      invariant Waiting(g, dependencies, Elems(ordered))
      decreases |g| - |ordered|
    {
      var name := ready[0];
      InQueue(g, ordered, ready);
      Children(g, dependencies0, dependents, name);
      var children := SortSet(dependents[name]);
      var discarded, unlocked := Discard(name, children, dependencies);
      Discarded(g, Elems(ordered), name, children, dependencies, discarded, unlocked);
      dependencies := discarded;
      RunStep(g, ordered, ready, unlocked);
      ordered, ready := ordered + [name], ready[1..] + unlocked;
    }
    RunEnds(g, ordered);
  }

  lemma Roots(g: Graph, dependencies: map<Table, set<Table>>, dependents: map<Table, set<Table>>, roots: set<Table>)
    requires Recorded(g, dependencies, dependents)
    requires roots == set t | t in dependencies && dependencies[t] == {}
    ensures roots == Ready(g, {}) && Waiting(g, dependencies, {})
  {
  }

  lemma Children(g: Graph, dependencies: map<Table, set<Table>>, dependents: map<Table, set<Table>>, name: Table)
    requires Recorded(g, dependencies, dependents) && name in g
    ensures name in dependents
    ensures forall c :: c in SortSet(dependents[name]) <==> c in g && name in g[c]
  {
  }

  method TopologicalOrder(schema: Schema, names: set<Table>) returns (ordered: seq<Table>)
    requires names <= schema.Keys
    ensures ordered == FullOrder(FkGraph(schema, names))
    ensures OrderedByKeys(schema, names, ordered)
  {
    hide Order, OrderedByKeys;
    FullOrderByKeys(schema, names);
    ghost var g := FkGraph(schema, names);
    assert g.Keys == names;
    var dependencies, dependents := RecordEdges(schema, names);
    ordered := Drain(g, dependencies, dependents);
    FullOrderFacts(g);
    if |ordered| != |names| {
      ordered := ordered + SortSet(names - set x | x in ordered);
    } else {
      DistinctSize(ordered);
      SubsetSize(Elems(ordered), names);
      assert g.Keys - Elems(Order(g)) == {};
    }
  }

  lemma InQueue(g: Graph, done: seq<Table>, queue: seq<Table>)
    requires Invariant(g, done, queue) && queue != []
    ensures queue[0] in g
  {
    assert (done + queue)[|done|] in Elems(done + queue);
  }

  /** Cyclic or not, every table is listed exactly once. */
  lemma FullOrderFacts(g: Graph)
    ensures Distinct(FullOrder(g)) && Elems(FullOrder(g)) == g.Keys && |FullOrder(g)| == |g|
    ensures Distinct(Order(g)) && Elems(Order(g)) <= g.Keys
  {
    hide Order;
    OrderFacts(g);
    Completed(Order(g), SortSet(g.Keys - Elems(Order(g))), g.Keys);
    assert |g| == |g.Keys|;
  }

  /** A list of distinct tables, followed by those of the set it leaves out. */
  lemma Completed(first: seq<Table>, rest: seq<Table>, names: set<Table>)
    requires Distinct(first) && Elems(first) <= names && Sorted(rest) && Elems(rest) == names - Elems(first)
    ensures Distinct(first + rest) && Elems(first + rest) == names && |first + rest| == |names|
  {
    hide Distinct, Sorted, Elems;
    AppendDisjoint(first, rest);
    DistinctSize(first + rest);
  }

  /**
   Whatever cycles there are, the list starts with exactly the tables from which no cycle of
   foreign keys is reachable, each after the tables it references.
   */
  lemma PrefixIsCycleFree(schema: Schema, names: set<Table>)
    requires names <= schema.Keys
    ensures Order(FkGraph(schema, names)) <= FullOrder(FkGraph(schema, names))
    ensures DepsFirst(FkGraph(schema, names), Order(FkGraph(schema, names)))
    ensures forall t :: t in names ==>
      (t in Order(FkGraph(schema, names)) <==> !ReachesCycle(FkGraph(schema, names), t))
  {
    OrderFacts(FkGraph(schema, names));
    OrderIsCycleFree(FkGraph(schema, names));
  }

  // ------------------------------------------------------- sessions first

  function Without(s: seq<Table>, t: Table): (r: seq<Table>)
    ensures forall x :: x in r <==> x in s && x != t
  {
    if s == [] then [] else
      Without(s[..|s| - 1], t) + if s[|s| - 1] == t then [] else [s[|s| - 1]]
  }

  /** `ordered.remove("sessions"); ordered.insert(0, "sessions")` */
  function SessionsFirst(s: seq<Table>): seq<Table> {
    if "sessions" in s then ["sessions"] + Without(s, "sessions") else s
  }

  method CloneOrder(schema: Schema, names: set<Table>) returns (ordered: seq<Table>)
    requires names <= schema.Keys
    ensures ordered == SessionsFirst(FullOrder(FkGraph(schema, names)))
    ensures SessionsThenByKeys(schema, names, ordered)
  {
    hide FullOrder, SessionsFirst, OrderedByKeys, MovedToFront;
    ordered := TopologicalOrder(schema, names);
    FullOrderFacts(FkGraph(schema, names));
    SessionsMove(ordered);
    ordered := SessionsFirst(ordered);
  }

  lemma {:induction false} WithoutSize(s: seq<Table>, t: Table)
    requires Distinct(s)
    ensures Distinct(Without(s, t)) && |Without(s, t)| == if t in s then |s| - 1 else |s|
  {
    if s != [] {
      var init, last := s[..|s| - 1], s[|s| - 1];
      WithoutSize(init, t);
      assert s == init + [last];
      assert last !in init by {
        forall i | 0 <= i < |init| ensures init[i] != last { assert s[i] != s[|init|]; }
      }
      assert last !in Without(init, t);
    }
  }

  /** The list handed to the cloner is a permutation of the tables, cyclic or not. */
  lemma CloneOrderIsPermutation(g: Graph)
    ensures multiset(SessionsFirst(FullOrder(g))) == multiset(g.Keys)
  {
    hide FullOrder;
    var s := FullOrder(g);
    FullOrderFacts(g);
    WithoutSize(s, "sessions");
    DistinctCounts(s);
    assert Elems(SessionsFirst(s)) == Elems(s);
    SamePermutation(s, SessionsFirst(s));
  }

  /** Removing `t` from the list keeps each prefix but for `t`. */
  lemma {:induction false} WithoutKeepsOrder(g: Graph, s: seq<Table>, t: Table)
    requires DepsFirst(g, s) && t in g && g[t] == {}
    ensures DepsFirst(g, [t] + Without(s, t))
  {
    if s == [] {
    } else {
      var init, last := s[..|s| - 1], s[|s| - 1];
      assert DepsFirst(g, init) by {
        forall i | 0 <= i < |init| ensures init[i] in g && forall d :: d in g[init[i]] ==> d in init[..i] {
          assert init[..i] == s[..i];
        }
      }
      WithoutKeepsOrder(g, init, t);
      if last == t {
        assert Without(s, t) == Without(init, t);
      } else {
        assert s[..|init|] == init;
        assert g[last] <= Elems([t] + Without(init, t));
        StepDepsFirst(g, [t] + Without(init, t), last);
        assert [t] + Without(s, t) == ([t] + Without(init, t)) + [last];
      }
    }
  }

  /**
   Moving `sessions` to the front keeps the ordered part of the list valid exactly when
   `sessions` references no table of the set.
   */
  lemma SessionsFirstIsValid(g: Graph)
    requires "sessions" in g && "sessions" in Order(g)
    ensures DepsFirst(g, SessionsFirst(Order(g))) <==> g["sessions"] == {}
  {
    hide Order, Without;
    OrderFacts(g);
    var s := Order(g);
    if g["sessions"] == {} { WithoutKeepsOrder(g, s, "sessions"); }
    if d :| d in g["sessions"] {
      var r := SessionsFirst(s);
      assert r[0] == "sessions" && r[..0] == [];
    }
  }

  /** What the cycle blocks still comes last, in alphabetical order. */
  lemma BlockedComesLast(g: Graph)
    requires "sessions" in Order(g)
    ensures SessionsFirst(FullOrder(g)) == SessionsFirst(Order(g)) + SortSet(g.Keys - Elems(Order(g)))
  {
    hide Order;
    var s, rest := Order(g), SortSet(g.Keys - Elems(Order(g)));
    assert "sessions" in Elems(s) && "sessions" !in Elems(rest);
    WithoutAppend(s, rest, "sessions");
  }

  lemma {:induction false} WithoutAppend(a: seq<Table>, b: seq<Table>, t: Table)
    requires t !in b
    ensures Without(a + b, t) == Without(a, t) + b
  {
    if b == [] {
      assert a + b == a;
    } else {
      var init := b[..|b| - 1];
      assert (a + b)[..|a + b| - 1] == a + init;
      WithoutAppend(a, init, t);
    }
  }

  /** A table all of whose parents have been emitted has been emitted. */
  lemma ReadyIsEmitted(g: Graph, t: Table)
    requires t in g && g[t] <= Elems(Order(g))
    ensures t in Order(g)
  {
    hide Order;
    OrderFacts(g);
    assert t in Ready(g, Elems(Order(g)));
  }

  /**
   With cycles among the tables, and none of them a parent of `sessions`: first `sessions`, then
   the other tables from which no cycle is reachable, parents before children, then the rest.
   */
  lemma CyclicCloneOrder(schema: Schema, names: set<Table>)
    requires names <= schema.Keys && "sessions" in names && FkGraph(schema, names)["sessions"] == {}
    ensures var g := FkGraph(schema, names);
            var r, n := SessionsFirst(FullOrder(g)), |Order(g)|;
            && n <= |r| && r[..n] != [] && r[0] == "sessions" && DepsFirst(g, r[..n])
            && forall t :: t in names ==> (t in r[..n] <==> !ReachesCycle(g, t))
  {
    var g := FkGraph(schema, names);
    assert g.Keys == names;
    PrefixIsCycleFree(schema, names);
    hide Order, FullOrder, SessionsFirst, Without, ReachesCycle, FkGraph, DepsFirst;
    ReadyIsEmitted(g, "sessions");
    SessionsFirstIsValid(g);
    CyclicPrefix(g);
  }

  /** The ordered part, with `sessions` in front, comes first. */
  lemma CyclicPrefix(g: Graph)
    requires "sessions" in Order(g)
    ensures var r, n := SessionsFirst(FullOrder(g)), |Order(g)|;
            && 0 < n <= |r| && r[0] == "sessions" && r[..n] == SessionsFirst(Order(g))
            && forall t :: t in r[..n] <==> t in Order(g)
  {
    hide Order, Without;
    BlockedComesLast(g);
    FullOrderFacts(g);
    WithoutSize(Order(g), "sessions");
  }

  /** Sessions with a parent: the order was valid, and moving them to the front breaks it. */
  lemma SessionsWithAParent()
    ensures var g: Graph := map["sessions" := {"workspaces"}, "workspaces" := {}];
            DepsFirst(g, Order(g)) && "sessions" in Order(g) && !DepsFirst(g, SessionsFirst(Order(g)))
  {
    var g: Graph := map["sessions" := {"workspaces"}, "workspaces" := {}];
    assert |"sessions"| != |"workspaces"|;
    OrderFacts(g);
    hide Order;
    ReadyIsEmitted(g, "workspaces");
    assert g["sessions"] == {"workspaces"} <= Elems(Order(g));
    ReadyIsEmitted(g, "sessions");
    SessionsFirstIsValid(g);
  }

  // ------------------------------------------------------- in words of the foreign keys

  /** A foreign key of `t` names the other table `p`. */
  ghost predicate KeyTo(schema: Schema, t: Table, p: Table) {
    t in schema && p != t && exists fk :: fk in schema[t].fks && fk.parent == p
  }

  /** Tables of the set, each with a foreign key to the next. */
  ghost predicate KeyChain(schema: Schema, names: set<Table>, c: seq<Table>) {
    && c != [] && (forall i :: 0 <= i < |c| ==> c[i] in names)
    && forall i :: 0 <= i < |c| - 1 ==> KeyTo(schema, c[i], c[i + 1])
  }

  /** A chain of foreign keys leads from `t` to a table that is on a circle of them. */
  ghost predicate LeadsToCircle(schema: Schema, names: set<Table>, t: Table) {
    exists p, c :: IntoCircle(schema, names, t, p, c)
  }

  ghost predicate IntoCircle(schema: Schema, names: set<Table>, t: Table, p: seq<Table>, c: seq<Table>) {
    && KeyChain(schema, names, p) && p[0] == t && KeyChain(schema, names, c)
    && |c| > 1 && c[0] == c[|c| - 1] && c[0] == p[|p| - 1]
  }

  /** The first `n` tables are those that lead to no circle, parents first; the rest is in alphabetical order. */
  ghost predicate ParentsFirstUpTo(schema: Schema, names: set<Table>, ordered: seq<Table>, n: nat) {
    && n <= |ordered| && Distinct(ordered) && Elems(ordered) == names
    && (forall t :: t in names ==> (t in ordered[..n] <==> !LeadsToCircle(schema, names, t)))
    && (forall i, p :: 0 <= i < n && p in names && KeyTo(schema, ordered[i], p) ==> p in ordered[..i])
    && Sorted(ordered[n..])
  }

  ghost predicate OrderedByKeys(schema: Schema, names: set<Table>, ordered: seq<Table>) {
    exists n :: ParentsFirstUpTo(schema, names, ordered, n)
  }

  /** `sessions`, if it is there, is taken out and put in front. */
  ghost predicate MovedToFront(before: seq<Table>, after: seq<Table>) {
    if "sessions" in before
    then exists k :: 0 <= k < |before| && before[k] == "sessions"
                     && after == ["sessions"] + before[..k] + before[k + 1..]
    else after == before
  }

  ghost predicate SessionsThenByKeys(schema: Schema, names: set<Table>, ordered: seq<Table>) {
    exists before :: OrderedByKeys(schema, names, before) && MovedToFront(before, ordered)
  }

  lemma EdgeIs(schema: Schema, names: set<Table>, t: Table, p: Table)
    requires names <= schema.Keys && t in names
    ensures p in FkGraph(schema, names)[t] <==> p in names && KeyTo(schema, t, p)
  {
  }

  lemma ChainIs(schema: Schema, names: set<Table>, c: seq<Table>)
    requires names <= schema.Keys
    ensures Walk(FkGraph(schema, names), c) <==> KeyChain(schema, names, c)
  {
    hide KeyTo;
    var g := FkGraph(schema, names);
    assert g.Keys == names;
    if forall i :: 0 <= i < |c| ==> c[i] in names {
      forall i | 0 <= i < |c| - 1 ensures c[i + 1] in g[c[i]] <==> KeyTo(schema, c[i], c[i + 1]) {
        EdgeIs(schema, names, c[i], c[i + 1]);
      }
    }
  }

  lemma CircleIs(schema: Schema, names: set<Table>, t: Table)
    requires names <= schema.Keys
    ensures ReachesCycle(FkGraph(schema, names), t) <==> LeadsToCircle(schema, names, t)
  {
    hide Walk, KeyChain, FkGraph;
    var g := FkGraph(schema, names);
    forall c ensures Walk(g, c) <==> KeyChain(schema, names, c) { ChainIs(schema, names, c); }
    forall c ensures Walk(g, c) ==> c != [] { WalksAreNotEmpty(g, c); }
    if ReachesCycle(g, t) {
      var p, c :| Walk(g, p) && p != [] && p[0] == t && Cycle(g, c) && c[0] == p[|p| - 1];
      assert IntoCircle(schema, names, t, p, c);
    }
    if LeadsToCircle(schema, names, t) {
      var p, c :| IntoCircle(schema, names, t, p, c);
      assert Walk(g, p) && Cycle(g, c);
    }
  }

  lemma WalksAreNotEmpty(g: Graph, c: seq<Table>)
    ensures Walk(g, c) ==> c != []
  {
  }

  lemma PrefixByKeys(schema: Schema, names: set<Table>, s: seq<Table>, i: nat, p: Table)
    requires names <= schema.Keys && DepsFirst(FkGraph(schema, names), s)
    requires i < |s| && p in names && KeyTo(schema, s[i], p)
    ensures p in s[..i]
  {
    hide KeyTo, FkGraph;
    assert s[i] in names by { GraphKeys(schema, names); }
    EdgeIs(schema, names, s[i], p);
  }

  lemma GraphKeys(schema: Schema, names: set<Table>)
    requires names <= schema.Keys
    ensures FkGraph(schema, names).Keys == names
  {
  }

  lemma FirstThenRest(schema: Schema, names: set<Table>, first: seq<Table>, rest: seq<Table>)
    requires Distinct(first + rest) && Elems(first + rest) == names && Sorted(rest)
    requires forall t :: t in names ==> (t in first <==> !LeadsToCircle(schema, names, t))
    requires forall i, p :: 0 <= i < |first| && p in names && KeyTo(schema, first[i], p) ==> p in first[..i]
    ensures OrderedByKeys(schema, names, first + rest)
  {
    hide LeadsToCircle, KeyTo;
    var s, n := first + rest, |first|;
    assert s[..n] == first && s[n..] == rest;
    assert forall i :: 0 <= i < n ==> s[i] == first[i] && s[..i] == first[..i];
    assert ParentsFirstUpTo(schema, names, s, n);
  }

  /** The order in words of the foreign keys. */
  lemma FullOrderByKeys(schema: Schema, names: set<Table>)
    requires names <= schema.Keys
    ensures OrderedByKeys(schema, names, FullOrder(FkGraph(schema, names)))
  {
    var g := FkGraph(schema, names);
    GraphKeys(schema, names);
    PrefixIsCycleFree(schema, names);
    FullOrderFacts(g);
    hide Order, ReachesCycle, LeadsToCircle, FkGraph, KeyTo, DepsFirst, OrderedByKeys;
    var first, rest := Order(g), SortSet(g.Keys - Elems(Order(g)));
    forall t | t in names ensures t in first <==> !LeadsToCircle(schema, names, t) {
      CircleIs(schema, names, t);
    }
    forall i, p | 0 <= i < |first| && p in names && KeyTo(schema, first[i], p) ensures p in first[..i] {
      PrefixByKeys(schema, names, first, i, p);
    }
    FirstThenRest(schema, names, first, rest);
  }

  lemma {:induction false} WithoutAbsent(s: seq<Table>, t: Table)
    requires t !in s
    ensures Without(s, t) == s
  {
    if s != [] { WithoutAbsent(s[..|s| - 1], t); }
  }

  lemma WithoutOne(a: seq<Table>, t: Table, b: seq<Table>)
    requires t !in a && t !in b
    ensures Without(a + [t] + b, t) == a + b
  {
    WithoutLast(a, t);
    WithoutAbsent(a, t);
    hide Without;
    WithoutAppend(a + [t], b, t);
  }

  lemma WithoutLast(a: seq<Table>, t: Table)
    ensures Without(a + [t], t) == Without(a, t)
  {
    assert (a + [t])[..|a|] == a;
  }

  lemma OnceOnly(s: seq<Table>, k: nat)
    requires Distinct(s) && k < |s|
    ensures s == s[..k] + [s[k]] + s[k + 1..] && s[k] !in s[..k] && s[k] !in s[k + 1..]
  {
    var a, b := s[..k], s[k + 1..];
    forall i | 0 <= i < |a| ensures a[i] != s[k] { assert a[i] == s[i]; }
    forall i | 0 <= i < |b| ensures b[i] != s[k] { assert b[i] == s[k + 1 + i]; }
  }

  lemma SessionsMove(s: seq<Table>)
    requires Distinct(s)
    ensures MovedToFront(s, SessionsFirst(s))
  {
    if "sessions" in s {
      var k :| 0 <= k < |s| && s[k] == "sessions";
      hide Without, Distinct;
      OnceOnly(s, k);
      WithoutOne(s[..k], "sessions", s[k + 1..]);
      assert ["sessions"] + (s[..k] + s[k + 1..]) == ["sessions"] + s[..k] + s[k + 1..];
    }
  }

  // ------------------------------------------------------- agreement

  /** The foreign keys of the schema say what the `depends_on` lists say. */
  ghost predicate SameEdges(schema: Schema, nodes: seq<string>, dependencies: ManifestOrder.DependsOn) {
    && Elems(nodes) <= schema.Keys
    && forall n, p :: n in nodes ==>
      ((exists fk :: fk in schema[n].fks && fk.parent == p) <==> p in ManifestOrder.DepsOf(dependencies, n))
  }

  lemma SameGraph(schema: Schema, nodes: seq<string>, dependencies: ManifestOrder.DependsOn)
    requires SameEdges(schema, nodes, dependencies)
    requires Closed(ManifestOrder.GraphOf(nodes, dependencies))
    requires forall n :: n in nodes ==> n !in ManifestOrder.DepsOf(dependencies, n)
    ensures FkGraph(schema, Elems(nodes)) == ManifestOrder.GraphOf(nodes, dependencies)
  {
    var g := ManifestOrder.GraphOf(nodes, dependencies);
    var h := FkGraph(schema, Elems(nodes));
    forall n | n in nodes ensures h[n] == g[n] {
      forall p ensures p in h[n] <==> p in g[n] {
        if p in g[n] {
          var fk :| fk in schema[n].fks && fk.parent == p;
        }
        if p in h[n] {
          var fk :| fk in schema[n].fks && fk.parent == p;
        }
      }
    }
  }

  /**
   Counting indegrees and discarding from sets yield one and the same sequence on every
   acyclic graph, however often a `depends_on` list repeats an entry.
   */
  method OrderersAgree(schema: Schema, nodes: seq<string>, dependencies: ManifestOrder.DependsOn)
    returns (counted: ManifestOrder.Outcome, discarded: seq<Table>)
    requires Distinct(nodes) && SameEdges(schema, nodes, dependencies)
    requires Closed(ManifestOrder.GraphOf(nodes, dependencies)) && Acyclic(ManifestOrder.GraphOf(nodes, dependencies))
    ensures counted == ManifestOrder.Ok(discarded)
  {
    hide Order, Run;
    ghost var g := ManifestOrder.GraphOf(nodes, dependencies);
    forall n | n in nodes ensures n !in ManifestOrder.DepsOf(dependencies, n) {
      assert !Cycle(g, [n, n]);
    }
    SameGraph(schema, nodes, dependencies);
    OrderComplete(g);
    counted := ManifestOrder.TopologicalOrder(nodes, dependencies);
    discarded := TopologicalOrder(schema, set n | n in nodes);
    assert g.Keys - Elems(Order(g)) == {};
    assert FullOrder(g) == Order(g);
  }
}
