/** Names in code-point order, and Python's `sorted` on collections of them. */
module Names {

  /** The elements of a sequence, as a set. */
  ghost function Elems<T>(s: seq<T>): set<T> {
    set x | x in s
  }

  ghost predicate Distinct<T>(s: seq<T>) {
    forall i, j :: 0 <= i < j < |s| ==> s[i] != s[j]
  }

  /** A distinct sequence is as long as its set of elements. */
  lemma {:induction false} DistinctSize<T>(s: seq<T>)
    ensures |Elems(s)| <= |s|
    ensures Distinct(s) <==> |Elems(s)| == |s|
  {
    if s != [] {
      var t := s[..|s| - 1];
      DistinctSize(t);
      assert s == t + [s[|s| - 1]];
      assert Elems(s) == Elems(t) + {s[|s| - 1]};
      if s[|s| - 1] in t {
        assert Elems(s) == Elems(t);
      } else if Distinct(t) {
        assert Distinct(s);
      } else {
        assert exists i, j :: 0 <= i < j < |t| && s[i] == t[i] == t[j] == s[j];
      }
    }
  }

  lemma {:induction false} DistinctCounts<T>(s: seq<T>)
    requires Distinct(s)
    ensures multiset(s) == multiset(Elems(s))
  {
    if s != [] {
      var t, x := s[..|s| - 1], s[|s| - 1];
      DistinctCounts(t);
      assert s == t + [x];
      assert Elems(s) == Elems(t) + {x};
    }
  }

  lemma DistinctOnce<T>(s: seq<T>, x: T)
    requires Distinct(s)
    ensures multiset(s)[x] <= 1
  {
    DistinctCounts(s);
  }

  lemma RepeatedTwice<T>(s: seq<T>, i: nat, j: nat)
    requires i < j < |s| && s[i] == s[j]
    ensures multiset(s)[s[i]] >= 2
  {
    assert s == s[..i] + [s[i]] + s[i + 1..j] + [s[j]] + s[j + 1..];
  }

  /** Equally long enumerations of one set, one of them distinct, are permutations. */
  lemma SamePermutation<T>(a: seq<T>, b: seq<T>)
    requires |a| == |b| && Distinct(a) && Elems(a) == Elems(b)
    ensures Distinct(b) && multiset(a) == multiset(b)
  {
    DistinctSize(a);
    DistinctSize(b);
    DistinctCounts(a);
    DistinctCounts(b);
  }

  lemma SubsetSize<T>(a: set<T>, b: set<T>)
    requires a <= b
    ensures |a| <= |b|
    ensures |a| == |b| ==> a == b
  {
    assert b == a + (b - a);
  }

  /** Strict lexicographic order, as Python compares `str`. */
  predicate Less(a: string, b: string) {
    b != [] && (a == [] || a[0] < b[0] || (a[0] == b[0] && Less(a[1..], b[1..])))
  }

  lemma {:induction false} Trichotomy(a: string, b: string)
    ensures !Less(a, a)
    ensures Less(a, b) || a == b || Less(b, a)
    ensures !(Less(a, b) && Less(b, a))
  {
    if a != [] {
      Trichotomy(a[1..], if b == [] then [] else b[1..]);
      if b != [] && a[0] == b[0] && a[1..] == b[1..] {
        assert a == [a[0]] + a[1..] && b == [b[0]] + b[1..];
      }
    }
  }

  /** A text comes before another when it is a proper prefix of it, or has the smaller character where they differ. */
  lemma {:induction false} LessIs(a: string, b: string)
    ensures Less(a, b) <==> exists k :: 0 <= k <= |a| && k < |b| && a[..k] == b[..k] && (k == |a| || a[k] < b[k])
  {
    if b != [] {
      assert a[..0] == b[..0];
      if a != [] && a[0] == b[0] {
        LessIs(a[1..], b[1..]);
        if Less(a, b) {
          var k :| 0 <= k <= |a[1..]| && k < |b[1..]| && a[1..][..k] == b[1..][..k]
                   && (k == |a[1..]| || a[1..][k] < b[1..][k]);
          assert a[..k + 1] == [a[0]] + a[1..][..k] && b[..k + 1] == [b[0]] + b[1..][..k];
        }
        if k :| 0 <= k <= |a| && k < |b| && a[..k] == b[..k] && (k == |a| || a[k] < b[k]) {
          assert k > 0;
          assert a[1..][..k - 1] == a[..k][1..] && b[1..][..k - 1] == b[..k][1..];
        }
      } else if k :| 0 <= k <= |a| && k < |b| && a[..k] == b[..k] && (k == |a| || a[k] < b[k]) {
        if k > 0 { assert a[..k][0] == b[..k][0]; }
      }
    }
  }

  lemma {:induction false} Transitive(a: string, b: string, c: string)
    requires Less(a, b) && Less(b, c)
    ensures Less(a, c)
  {
    if a != [] && a[0] == b[0] == c[0] {
      Transitive(a[1..], b[1..], c[1..]);
    }
  }

  ghost predicate Sorted(s: seq<string>) {
    forall i, j :: 0 <= i < j < |s| ==> Less(s[i], s[j])
  }

  /** Two strictly sorted sequences of the same elements are the same sequence. */
  lemma {:induction false} SortedUnique(a: seq<string>, b: seq<string>)
    requires Sorted(a) && Sorted(b) && Elems(a) == Elems(b)
    ensures a == b
  {
    assert a != [] ==> a[0] in Elems(b);
    assert b != [] ==> b[0] in Elems(a);
    if a != [] {
      HeadIsLeast(a, b);
      HeadIsLeast(b, a);
      Trichotomy(a[0], b[0]);
      TailElems(a);
      TailElems(b);
      SortedUnique(a[1..], b[1..]);
      assert a == [a[0]] + a[1..] && b == [b[0]] + b[1..];
    }
  }

  lemma HeadIsLeast(a: seq<string>, b: seq<string>)
    requires Sorted(a) && a != [] && b != [] && Elems(a) == Elems(b)
    ensures a[0] == b[0] || Less(a[0], b[0])
  {
    assert b[0] in Elems(a);
  }

  lemma TailElems(a: seq<string>)
    requires Sorted(a) && a != []
    ensures Sorted(a[1..]) && Elems(a[1..]) == Elems(a) - {a[0]}
  {
    forall x | x in a[1..] ensures x != a[0] {
      Trichotomy(a[0], a[0]);
    }
    assert a == [a[0]] + a[1..];
  }

  lemma {:induction false} LeastExists(s: set<string>) returns (m: string)
    requires s != {}
    ensures m in s && forall y :: y in s ==> y == m || Less(m, y)
  {
    var x :| x in s;
    if s == {x} {
      m := x;
    } else {
      var k := LeastExists(s - {x});
      Trichotomy(x, k);
      m := if Less(x, k) then x else k;
      forall y | y in s && y != m ensures Less(m, y) {
        if m == x && y != k { Transitive(x, k, y); }
      }
    }
  }

  lemma LeastUnique(s: set<string>)
    requires s != {}
    ensures exists m :: m in s && forall y :: y in s ==> y == m || Less(m, y)
    ensures forall x, z :: x in s && z in s && Less(x, z) ==> !Less(z, x)
  {
    var m := LeastExists(s);
    forall x, z | x in s && z in s && Less(x, z) ensures !Less(z, x) {
      Trichotomy(x, z);
    }
  }

  function Least(s: set<string>): (m: string)
    requires s != {}
    ensures m in s && forall y :: y in s ==> y == m || Less(m, y)
  {
    LeastUnique(s);
    var m :| m in s && forall y :: y in s ==> y == m || Less(m, y);
    m
  }

  /** `sorted(s)` of a set. */
  function SortSet(s: set<string>): (r: seq<string>)
    ensures Sorted(r) && Elems(r) == s && |r| == |s|
    ensures forall x :: x in r <==> x in s
  {
    if s == {} then [] else
      var m := Least(s);
      [m] + SortSet(s - {m})
  }

  ghost predicate Nondecreasing(s: seq<string>) {
    forall i, j :: 0 <= i < j < |s| ==> s[i] == s[j] || Less(s[i], s[j])
  }

  /** `sorted(xs)` of a list, repeated entries kept. */
  function SortList(xs: seq<string>): (r: seq<string>)
    ensures multiset(r) == multiset(xs) && Nondecreasing(r)
  {
    if xs == [] then [] else
      assert xs == xs[..|xs| - 1] + [xs[|xs| - 1]];
      Insert(SortList(xs[..|xs| - 1]), xs[|xs| - 1])
  }

  function Insert(s: seq<string>, x: string): (r: seq<string>)
    requires Nondecreasing(s)
    ensures multiset(r) == multiset(s) + multiset{x} && Nondecreasing(r)
  {
    if s == [] then [x]
    else if x == s[0] || Less(x, s[0]) then
      InsertFront(s, x);
      [x] + s
    else
      InsertBack(s, x);
      [s[0]] + Insert(s[1..], x)
  }

  lemma InsertFront(s: seq<string>, x: string)
    requires s != [] && (x == s[0] || Less(x, s[0])) && Nondecreasing(s)
    ensures Nondecreasing([x] + s)
  {
    forall j | 0 <= j < |s| ensures x == s[j] || Less(x, s[j]) {
      if 0 < j && Less(x, s[0]) && Less(s[0], s[j]) { Transitive(x, s[0], s[j]); }
    }
  }

  lemma InsertBack(s: seq<string>, x: string)
    requires s != [] && x != s[0] && !Less(x, s[0]) && Nondecreasing(s)
    ensures Nondecreasing(s[1..]) && s == [s[0]] + s[1..]
    ensures forall t: seq<string> :: multiset(t) == multiset(s[1..]) + multiset{x} && Nondecreasing(t)
                                ==> Nondecreasing([s[0]] + t)
  {
    Trichotomy(x, s[0]);
    forall t: seq<string> | multiset(t) == multiset(s[1..]) + multiset{x} && Nondecreasing(t)
      ensures Nondecreasing([s[0]] + t)
    {
      forall j | 0 <= j < |t| ensures s[0] == t[j] || Less(s[0], t[j]) {
        assert t[j] in multiset(t);
        if t[j] != x { assert t[j] in s[1..]; }
      }
    }
  }

  // ------------------------------------------------------- filters

  /** Positions below `n`, in increasing order. */
  ghost predicate Increasing(idx: seq<nat>, n: nat) {
    && (forall x :: 0 <= x < |idx| ==> idx[x] < n)
    && (forall x, y :: 0 <= x < y < |idx| ==> idx[x] < idx[y])
  }

  lemma OnePosition(idx: seq<nat>, n: nat)
    requires Increasing(idx, n)
    ensures Increasing(idx, n + 1) && Increasing(idx + [n], n + 1) && n !in idx
  {
  }

  /** `out` are the elements of `s` at the positions. */
  ghost predicate Picks<T>(s: seq<T>, idx: seq<nat>, out: seq<T>) {
    Increasing(idx, |s|) && |idx| == |out| && forall x :: 0 <= x < |idx| ==> out[x] == s[idx[x]]
  }

  /** The positions are those of the elements to be kept. */
  ghost predicate Chosen<T>(s: seq<T>, idx: seq<nat>, keep: T -> bool) {
    forall i: nat :: i < |s| ==> (i in idx <==> keep(s[i]))
  }

  /** `out` are the elements of `s` to be kept, each as often as it occurs and in the order of `s`. */
  ghost predicate IsFilter<T>(s: seq<T>, out: seq<T>, keep: T -> bool) {
    exists idx: seq<nat> :: Picks(s, idx, out) && Chosen(s, idx, keep)
  }

  lemma NothingFiltered<T>(keep: T -> bool)
    ensures IsFilter([], [], keep)
  {
    var s: seq<T>, idx: seq<nat> := [], [];
    assert Picks(s, idx, s) && Chosen(s, idx, keep);
  }

  lemma FilterSnoc<T>(s: seq<T>, out: seq<T>, keep: T -> bool, x: T)
    requires IsFilter(s, out, keep)
    ensures IsFilter(s + [x], out + if keep(x) then [x] else [], keep)
  {
    var idx: seq<nat> :| Picks(s, idx, out) && Chosen(s, idx, keep);
    PicksSnoc(s, idx, out, x);
    ChosenSnoc(s, idx, out, keep, x);
    hide Picks, Chosen;
    if keep(x) {
      assert Picks(s + [x], idx + [|s|], out + [x]);
    } else {
      assert out + [] == out;
      assert Picks(s + [x], idx, out);
    }
  }

  lemma PicksSnoc<T>(s: seq<T>, idx: seq<nat>, out: seq<T>, x: T)
    requires Picks(s, idx, out)
    ensures Picks(s + [x], idx, out) && Picks(s + [x], idx + [|s|], out + [x])
  {
    OnePosition(idx, |s|);
  }

  lemma ChosenSnoc<T>(s: seq<T>, idx: seq<nat>, out: seq<T>, keep: T -> bool, x: T)
    requires Picks(s, idx, out) && Chosen(s, idx, keep)
    ensures keep(x) ==> Chosen(s + [x], idx + [|s|], keep)
    ensures !keep(x) ==> Chosen(s + [x], idx, keep)
  {
    OnePosition(idx, |s|);
    forall i: nat | i < |s + [x]|
      ensures keep(x) ==> (i in idx + [|s|] <==> keep((s + [x])[i]))
      ensures !keep(x) ==> (i in idx <==> keep((s + [x])[i]))
    {
    }
  }
}
