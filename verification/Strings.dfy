/** Python's `str.strip` and `str.lower`, for the ASCII characters. */
module Strings {
  const WHITE: set<char> := {' ', '\t', '\n', '\r'}

  function TrimLeft<T(==)>(s: seq<T>, white: set<T>): seq<T> {
    if s != [] && s[0] in white then TrimLeft(s[1..], white) else s
  }

  function TrimRight<T(==)>(s: seq<T>, white: set<T>): seq<T> {
    if s != [] && s[|s| - 1] in white then TrimRight(s[..|s| - 1], white) else s
  }

  function Trim<T(==)>(s: seq<T>, white: set<T>): seq<T> {
    TrimRight(TrimLeft(s, white), white)
  }

  function Strip(s: string): string {
    Trim(s, WHITE)
  }

  function Lower(s: string): string {
    seq(|s|, i requires 0 <= i < |s| => if 'A' <= s[i] <= 'Z' then (s[i] as int + 32) as char else s[i])
  }

  predicate EndsWith(s: string, suffix: string) {
    |s| >= |suffix| && s[|s| - |suffix|..] == suffix
  }

  /** A text is the only suffix of its own length. */
  lemma LongSuffix(s: string, tail: string)
    requires |s| <= |tail| && s != tail
    ensures !EndsWith(s, tail)
  {
  }

  lemma EndsWithIs(s: string, tail: string)
    ensures EndsWith(s, tail) <==> exists p: string :: s == p + tail
  {
    if EndsWith(s, tail) { assert s == s[..|s| - |tail|] + tail; }
  }

  // ------------------------------------------------------- what strip and lower are

  /** `core` is `s` without the white space at either end. */
  ghost predicate TrimsTo<T>(s: seq<T>, white: set<T>, core: seq<T>) {
    exists i, j :: TrimAt(s, white, i, j) && core == s[i..j]
  }

  ghost predicate TrimAt<T>(s: seq<T>, white: set<T>, i: int, j: int) {
    && 0 <= i <= j <= |s| && AllWhite(s[..i], white) && AllWhite(s[j..], white)
    && (i < j ==> s[i] !in white && s[j - 1] !in white)
  }

  ghost predicate AllWhite<T>(s: seq<T>, white: set<T>) {
    forall i :: 0 <= i < |s| ==> s[i] in white
  }

  lemma {:induction false} LeftTrims<T>(s: seq<T>, white: set<T>) returns (i: nat)
    ensures i <= |s| && TrimLeft(s, white) == s[i..] && AllWhite(s[..i], white)
    ensures TrimLeft(s, white) != [] ==> TrimLeft(s, white)[0] !in white
  {
    i := 0;
    if s != [] && s[0] in white {
      var k := LeftTrims(s[1..], white);
      i := k + 1;
      WhiteCons(s, white, k);
      assert s[1..][k..] == s[i..];
    }
  }

  lemma WhiteCons<T>(s: seq<T>, white: set<T>, k: nat)
    requires k < |s| && s[0] in white && AllWhite(s[1..][..k], white)
    ensures AllWhite(s[..k + 1], white)
  {
    forall x | 0 <= x < k + 1 ensures s[x] in white {
      if x > 0 { assert s[1..][..k][x - 1] == s[x]; }
    }
  }

  lemma WhiteSnoc<T>(s: seq<T>, white: set<T>, j: nat)
    requires j < |s| && s[|s| - 1] in white && AllWhite(s[..|s| - 1][j..], white)
    ensures AllWhite(s[j..], white)
  {
    forall x | j <= x < |s| ensures s[x] in white {
      if x < |s| - 1 { assert s[..|s| - 1][j..][x - j] == s[x]; }
    }
  }

  lemma {:induction false} RightTrims<T>(s: seq<T>, white: set<T>) returns (j: nat)
    ensures j <= |s| && TrimRight(s, white) == s[..j] && AllWhite(s[j..], white)
    ensures TrimRight(s, white) != [] ==> TrimRight(s, white)[|TrimRight(s, white)| - 1] !in white
  {
    j := |s|;
    if s != [] && s[|s| - 1] in white {
      var init := s[..|s| - 1];
      j := RightTrims(init, white);
      WhiteSnoc(s, white, j);
      assert init[..j] == s[..j];
    } else {
      assert s[..j] == s;
    }
  }

  lemma TrimTrims<T>(s: seq<T>, white: set<T>)
    ensures TrimsTo(s, white, Trim(s, white))
  {
    var i := LeftTrims(s, white);
    var rest := TrimLeft(s, white);
    var j := RightTrims(rest, white);
    assert rest[..j] == s[i..i + j] && rest[j..] == s[i + j..];
    assert TrimAt(s, white, i, i + j);
  }

  /** There is one way to trim a text. */
  lemma TrimIsUnique<T>(s: seq<T>, white: set<T>, a: seq<T>, b: seq<T>)
    requires TrimsTo(s, white, a) && TrimsTo(s, white, b)
    ensures a == b
  {
    var i, j :| TrimAt(s, white, i, j) && a == s[i..j];
    var k, l :| TrimAt(s, white, k, l) && b == s[k..l];
    TrimInside(s, white, i, j, k, l);
    TrimInside(s, white, k, l, i, j);
  }

  /** What is not white lies inside. */
  lemma TrimInside<T>(s: seq<T>, white: set<T>, i: int, j: int, k: int, l: int)
    requires TrimAt(s, white, i, j) && TrimAt(s, white, k, l)
    ensures i < j ==> k <= i && j <= l
  {
    WhiteOutside(s, white, k, l);
  }

  lemma WhiteOutside<T>(s: seq<T>, white: set<T>, i: nat, j: nat)
    requires i <= j <= |s| && AllWhite(s[..i], white) && AllWhite(s[j..], white)
    ensures forall x :: 0 <= x < |s| && (x < i || j <= x) ==> s[x] in white
  {
    forall x | 0 <= x < |s| && (x < i || j <= x) ensures s[x] in white {
      if x < i { assert s[..i][x] == s[x]; } else { assert s[j..][x - j] == s[x]; }
    }
  }

  lemma TrimmedAlready<T>(s: seq<T>, white: set<T>)
    requires s != [] && s[0] !in white && s[|s| - 1] !in white
    ensures TrimsTo(s, white, s) && Trim(s, white) == s
  {
    assert s == s[0..|s|] && s[..0] == [] && s[|s|..] == [];
    assert TrimAt(s, white, 0, |s|);
  }

  lemma BlankIff(s: string)
    ensures Strip(s) == "" <==> AllWhite(s, WHITE)
  {
    TrimTrims(s, WHITE);
    if AllWhite(s, WHITE) {
      assert "" == s[0..0] && s[..0] == [] && s[0..] == s && TrimAt(s, WHITE, 0, 0);
      TrimIsUnique(s, WHITE, Strip(s), "");
    } else if Strip(s) == "" {
      var i, j :| TrimAt(s, WHITE, i, j) && "" == s[i..j];
      WhiteOutside(s, WHITE, i, j);
    }
  }

  const CAPITALS := "ABCDEFGHIJKLMNOPQRSTUVWXYZ"
  const SMALL := "abcdefghijklmnopqrstuvwxyz"

  /** `t` has the small letter for each capital of `s`, and all else as it is. */
  ghost predicate LowersTo(s: string, t: string) {
    |t| == |s| && forall i :: 0 <= i < |s| ==>
      && (s[i] !in CAPITALS ==> t[i] == s[i])
      && forall k :: 0 <= k < 26 && s[i] == CAPITALS[k] ==> t[i] == SMALL[k]
  }

  lemma Alphabet()
    ensures |CAPITALS| == 26 == |SMALL|
    ensures forall k :: 0 <= k < 26 ==> CAPITALS[k] as int == 65 + k && SMALL[k] as int == 97 + k
  {
  }

  lemma CapitalsAre(c: char)
    ensures c in CAPITALS <==> 'A' <= c <= 'Z'
  {
    Alphabet();
    if 'A' <= c <= 'Z' { assert CAPITALS[c as int - 65] == c; }
  }

  lemma LowerLowers(s: string)
    ensures LowersTo(s, Lower(s))
  {
    Alphabet();
    hide CAPITALS, SMALL;
    forall i | 0 <= i < |s| ensures s[i] !in CAPITALS ==> Lower(s)[i] == s[i] {
      CapitalsAre(s[i]);
    }
  }

  lemma LowerIsUnique(s: string, t: string)
    ensures LowersTo(s, t) <==> t == Lower(s)
  {
    LowerLowers(s);
    Alphabet();
    hide CAPITALS, SMALL, Lower;
    if LowersTo(s, t) {
      forall i | 0 <= i < |s| ensures t[i] == Lower(s)[i] {
        if s[i] in CAPITALS {
          var k :| 0 <= k < 26 && CAPITALS[k] == s[i];
        }
      }
    }
  }
}
