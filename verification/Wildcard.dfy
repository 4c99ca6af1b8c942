/**
 * pattern_match.  Strings are sequences of non-zero characters; `up` is the upper-case fold of
 * get_achar.
 */
module Wildcard {

  const ANY_ONE: nat := 0x3F    // ?
  const ANY_RUN: nat := 0x2A    // *
  const INFINITE: nat := 0x100  // bit 8 of skip: a * was in the term
  const FIND_RECURS: nat := 4

  predicate IsWild(c: nat) { c == ANY_ONE || c == ANY_RUN }

  ghost predicate AllWild(w: seq<nat>) {
    forall i :: 0 <= i < |w| ==> IsWild(w[i])
  }

  /** The wildcard relation: ? is one character, * any run, other characters are compared folded. */
  ghost predicate Matches(up: nat -> nat, p: seq<nat>, n: seq<nat>) {
    if p == [] then n == []
    else if p[0] == ANY_RUN then exists k: nat :: k <= |n| && Matches(up, p[1..], n[k..])
    else n != [] && (p[0] == ANY_ONE || up(p[0]) == up(n[0])) && Matches(up, p[1..], n[1..])
  }

  /** The name matches p after q characters, or after at least q if `star`. */
  ghost predicate Reaches(up: nat -> nat, p: seq<nat>, n: seq<nat>, q: nat, star: bool) {
    exists k: nat :: q <= k <= |n| && (star || k == q) && Matches(up, p, n[k..])
  }

  /** Number of ? in w. */
  function Singles(w: seq<nat>): nat {
    if w == [] then 0 else Singles(w[..|w| - 1]) + if w[|w| - 1] == ANY_ONE then 1 else 0
  }

  function HasRun(w: seq<nat>): bool { ANY_RUN in w }

  /** Number of maximal groups of wildcards. */
  function Groups(p: seq<nat>): nat {
    if p == [] then 0
    else Groups(p[1..]) + if IsWild(p[0]) && !(|p| > 1 && IsWild(p[1])) then 1 else 0
  }

  /** Length of the group of wildcards at the start of p. */
  function GroupLen(p: seq<nat>): (m: nat)
    ensures m <= |p| && AllWild(p[..m]) && (m < |p| ==> !IsWild(p[m])) && (p != [] && IsWild(p[0]) ==> m > 0)
  {
    if p == [] || !IsWild(p[0]) then 0
    else
      var m := GroupLen(p[1..]);
      assert p[..1 + m] == [p[0]] + p[1..][..m];
      1 + m
  }

  /** Fewer than 256 ? in every group. */
  ghost predicate SmallGroups(p: seq<nat>)
    decreases |p|
  {
    if p == [] then true
    else if !IsWild(p[0]) then SmallGroups(p[1..])
    else var m := GroupLen(p); Singles(p[..m]) < 256 && SmallGroups(p[m..])
  }

  lemma {:induction false} SinglesFront(w: seq<nat>)
    requires w != []
    ensures Singles(w) == (if w[0] == ANY_ONE then 1 else 0) + Singles(w[1..])
  {
    var n := |w| - 1;
    if n > 0 {
      SinglesFront(w[..n]);
      assert w[..n][1..] == w[1..][..n - 1];
      assert w[1..][n - 1] == w[n];
    } else {
      assert Singles(w[..0]) == 0 && Singles(w[1..]) == 0;
    }
  }

  /** A group of wildcards is as many ? as it has, and a * if it has one, in any order. */
  lemma {:induction false} GroupMeaning(up: nat -> nat, w: seq<nat>, p: seq<nat>, n: seq<nat>)
    requires AllWild(w)
    ensures Matches(up, w + p, n) <==> Reaches(up, p, n, Singles(w), HasRun(w))
    decreases |w|
  {
    if w == [] {
      assert w + p == p && n[0..] == n;
    } else {
      var v := w[1..];
      assert (w + p)[1..] == v + p && (w + p)[0] == w[0];
      SinglesFront(w);
      if w[0] == ANY_ONE {
        assert HasRun(v) == HasRun(w);
        if n != [] {
          GroupMeaning(up, v, p, n[1..]);
          ReachesNext(up, p, n, Singles(v), HasRun(v));
        }
      } else {
        GroupOfRun(up, w, p, n);
      }
    }
  }

  lemma {:induction false} ReachesNext(up: nat -> nat, p: seq<nat>, n: seq<nat>, q: nat, star: bool)
    requires n != []
    ensures Reaches(up, p, n[1..], q, star) <==> Reaches(up, p, n, q + 1, star)
  {
    if Reaches(up, p, n[1..], q, star) {
      var k: nat :| q <= k <= |n[1..]| && (star || k == q) && Matches(up, p, n[1..][k..]);
      assert n[1..][k..] == n[k + 1..];
    }
    if Reaches(up, p, n, q + 1, star) {
      var k: nat :| q + 1 <= k <= |n| && (star || k == q + 1) && Matches(up, p, n[k..]);
      assert n[1..][k - 1..] == n[k..];
    }
  }

  lemma {:induction false} GroupOfRun(up: nat -> nat, w: seq<nat>, p: seq<nat>, n: seq<nat>)
    requires AllWild(w) && w != [] && w[0] == ANY_RUN && Singles(w) == Singles(w[1..])
    ensures Matches(up, w + p, n) <==> Reaches(up, p, n, Singles(w), HasRun(w))
    decreases |w|, 0
  {
    var v := w[1..];
    assert (w + p)[1..] == v + p && (w + p)[0] == w[0];
    if Matches(up, w + p, n) {
      var k: nat :| k <= |n| && Matches(up, v + p, n[k..]);
      GroupMeaning(up, v, p, n[k..]);
      var l: nat :| Singles(v) <= l <= |n[k..]| && (HasRun(v) || l == Singles(v)) && Matches(up, p, n[k..][l..]);
      assert n[k..][l..] == n[k + l..];
    }
    if Reaches(up, p, n, Singles(w), HasRun(w)) {
      var k: nat :| Singles(w) <= k <= |n| && Matches(up, p, n[k..]);
      var m := k - Singles(v);
      assert n[m..][Singles(v)..] == n[k..];
      assert Reaches(up, p, n[m..], Singles(v), HasRun(v));
      GroupMeaning(up, v, p, n[m..]);
    }
  }

  // The pattern as the code takes it ------------------------------------------------------------

  /** q characters, or at least q. */
  function Group(q: nat, star: bool): (w: seq<nat>)
    ensures |w| == (if star then q + 1 else q)
    ensures forall i :: 0 <= i < |w| ==> w[i] == if i < q then ANY_ONE else ANY_RUN
  {
    seq(q, _ => ANY_ONE) + if star then [ANY_RUN] else []
  }

  lemma {:induction false} GroupHolds(q: nat, star: bool)
    ensures AllWild(Group(q, star)) && Singles(Group(q, star)) == q && HasRun(Group(q, star)) == star
  {
    var w := Group(q, star);
    if star {
      assert w[|w| - 1] == ANY_RUN && w[..|w| - 1] == Group(q, false);
      GroupHolds(q, false);
    } else if q > 0 {
      assert w[..q - 1] == Group(q - 1, false);
      GroupHolds(q - 1, false);
    }
  }

  /** The count of skip, below bit 8. */
  function Low(s: nat): (r: nat)
    ensures r <= s && (r < s <==> s >= INFINITE)
  {
    s % INFINITE
  }

  /** The group w: the number of ? is counted below bit 8, and a carry into bit 8 is a *. */
  function Taken(w: seq<nat>): seq<nat> {
    Group(Low(Singles(w)), HasRun(w) || Singles(w) >= INFINITE)
  }

  /** The pattern with each group taken so. */
  function TakenPattern(p: seq<nat>): seq<nat>
    decreases |p|
  {
    if p == [] then []
    else if !IsWild(p[0]) then [p[0]] + TakenPattern(p[1..])
    else var m := GroupLen(p); Taken(p[..m]) + TakenPattern(p[m..])
  }

  /** The code matches n. */
  ghost predicate Found(up: nat -> nat, p: seq<nat>, n: seq<nat>) {
    Matches(up, TakenPattern(p), n)
  }

  lemma {:induction false} FoundLiteral(up: nat -> nat, p: seq<nat>, n: seq<nat>)
    requires p != [] && !IsWild(p[0])
    ensures Found(up, p, n) <==> n != [] && up(p[0]) == up(n[0]) && Found(up, p[1..], n[1..])
  {
    assert TakenPattern(p)[0] == p[0] && TakenPattern(p)[1..] == TakenPattern(p[1..]);
  }

  lemma {:induction false} FoundGroup(up: nat -> nat, w: seq<nat>, rest: seq<nat>, n: seq<nat>)
    requires AllWild(w) && w != [] && (rest != [] ==> !IsWild(rest[0]))
    ensures Found(up, w + rest, n)
       <==> Reaches(up, TakenPattern(rest), n, Low(Singles(w)), HasRun(w) || Singles(w) >= INFINITE)
  {
    GroupEnds(w, rest);
    GroupHolds(Low(Singles(w)), HasRun(w) || Singles(w) >= INFINITE);
    GroupMeaning(up, Taken(w), TakenPattern(rest), n);
  }

  lemma {:induction false} GroupEnds(w: seq<nat>, rest: seq<nat>)
    requires AllWild(w) && w != [] && (rest != [] ==> !IsWild(rest[0]))
    ensures GroupLen(w + rest) == |w| && (w + rest)[..|w|] == w && (w + rest)[|w|..] == rest
    ensures IsWild((w + rest)[0])
  {
    var p, m := w + rest, GroupLen(w + rest);
    assert p[0] == w[0] && p[..|w|] == w && p[|w|..] == rest;
    assert forall i :: 0 <= i < |w| ==> IsWild(p[i]);
  }

  ghost predicate SameBehind(up: nat -> nat, p: seq<nat>, q: seq<nat>, n: seq<nat>) {
    forall k: nat :: k <= |n| ==> (Matches(up, p, n[k..]) <==> Matches(up, q, n[k..]))
  }

  lemma {:induction false} ReachesSame(up: nat -> nat, p: seq<nat>, q: seq<nat>, n: seq<nat>, c: nat, star: bool)
    requires SameBehind(up, p, q, n)
    ensures Reaches(up, p, n, c, star) <==> Reaches(up, q, n, c, star)
  {
  }

  lemma {:induction false} SmallGroupMatches(up: nat -> nat, w: seq<nat>, rest: seq<nat>, n: seq<nat>)
    requires AllWild(w) && w != [] && (rest != [] ==> !IsWild(rest[0])) && Singles(w) < INFINITE
    requires SameBehind(up, TakenPattern(rest), rest, n)
    ensures Found(up, w + rest, n) <==> Matches(up, w + rest, n)
  {
    FoundGroup(up, w, rest, n);
    GroupMeaning(up, w, rest, n);
    ReachesSame(up, TakenPattern(rest), rest, n, Singles(w), HasRun(w));
  }

  /** With fewer than 256 ? in every group the code decides the wildcard relation. */
  lemma {:induction false} SmallGroupsMatch(up: nat -> nat, p: seq<nat>, n: seq<nat>)
    requires SmallGroups(p)
    ensures Found(up, p, n) <==> Matches(up, p, n)
    decreases |p|
  {
    if p != [] && !IsWild(p[0]) {
      FoundLiteral(up, p, n);
      if n != [] {
        SmallGroupsMatch(up, p[1..], n[1..]);
      }
    } else if p != [] {
      var m := GroupLen(p);
      var w, rest := p[..m], p[m..];
      assert p == w + rest;
      forall k: nat | k <= |n|
        ensures Matches(up, TakenPattern(rest), n[k..]) <==> Matches(up, rest, n[k..])
      {
        SmallGroupsMatch(up, rest, n[k..]);
      }
      SmallGroupMatches(up, w, rest, n);
    }
  }

  /** A name the pattern matches: nothing for each *, itself for every other character. */
  function Shortest(p: seq<nat>): (n: seq<nat>)
    ensures |n| <= |p|
  {
    if p == [] then [] else (if p[0] == ANY_RUN then [] else [p[0]]) + Shortest(p[1..])
  }

  lemma {:induction false} ShortestMatches(up: nat -> nat, p: seq<nat>)
    ensures Matches(up, p, Shortest(p))
  {
    if p != [] {
      ShortestMatches(up, p[1..]);
      var n := Shortest(p);
      if p[0] == ANY_RUN {
        assert n[0..] == n;
      } else {
        assert n[1..] == Shortest(p[1..]);
      }
    }
  }

  /** No shorter name matches. */
  lemma {:induction false} NothingShorter(up: nat -> nat, p: seq<nat>, n: seq<nat>)
    requires Matches(up, p, n)
    ensures |n| >= |Shortest(p)|
    decreases |p|
  {
    if p != [] && p[0] == ANY_RUN {
      var k: nat :| k <= |n| && Matches(up, p[1..], n[k..]);
      NothingShorter(up, p[1..], n[k..]);
    } else if p != [] {
      NothingShorter(up, p[1..], n[1..]);
    }
  }

  lemma {:induction false} ShortestText(p: seq<nat>)
    requires Text(p)
    ensures Text(Shortest(p))
  {
    if p != [] {
      ShortestText(p[1..]);
    }
  }

  lemma {:induction false} ShortestJoin(p: seq<nat>, q: seq<nat>)
    ensures Shortest(p + q) == Shortest(p) + Shortest(q)
  {
    if p == [] {
      assert p + q == q;
    } else {
      assert (p + q)[1..] == p[1..] + q;
      ShortestJoin(p[1..], q);
    }
  }

  lemma {:induction false} ShortestGroup(w: seq<nat>)
    requires AllWild(w)
    ensures |Shortest(w)| == Singles(w)
  {
    if w != [] {
      SinglesFront(w);
      ShortestGroup(w[1..]);
    }
  }

  lemma {:induction false} TakenGroupShorter(w: seq<nat>)
    requires AllWild(w)
    ensures |Shortest(Taken(w))| <= |Shortest(w)|
    ensures Singles(w) >= INFINITE ==> |Shortest(Taken(w))| < |Shortest(w)|
  {
    GroupHolds(Low(Singles(w)), HasRun(w) || Singles(w) >= INFINITE);
    ShortestGroup(w);
    ShortestGroup(Taken(w));
  }

  /** A pattern with a large group is taken for a shorter one. */
  lemma {:induction false} TakenShorter(p: seq<nat>)
    ensures |Shortest(TakenPattern(p))| <= |Shortest(p)|
    ensures !SmallGroups(p) ==> |Shortest(TakenPattern(p))| < |Shortest(p)|
    decreases |p|
  {
    if p != [] && !IsWild(p[0]) {
      TakenShorter(p[1..]);
      assert TakenPattern(p)[1..] == TakenPattern(p[1..]);
    } else if p != [] {
      var m := GroupLen(p);
      var w, rest := p[..m], p[m..];
      assert p == w + rest;
      ShortestJoin(w, rest);
      ShortestJoin(Taken(w), TakenPattern(rest));
      TakenGroupShorter(w);
      TakenShorter(rest);
    }
  }

  lemma {:induction false} TakenText(p: seq<nat>)
    requires Text(p)
    ensures Text(TakenPattern(p))
    decreases |p|
  {
    if p != [] && !IsWild(p[0]) {
      TakenText(p[1..]);
    } else if p != [] {
      TakenText(p[GroupLen(p)..]);
    }
  }

  /** The answer of the code at the top level. */
  ghost predicate Answer(up: nat -> nat, p: seq<nat>, n: seq<nat>) {
    Groups(p) <= FIND_RECURS && Found(up, p, n)
  }

  /** A star takes every name, a question mark every name of one character. */
  lemma {:induction false} StarAndMark(up: nat -> nat, n: seq<nat>)
    requires Text(n)
    ensures Answer(up, [0x2A], n) && (Answer(up, [0x3F], n) <==> |n| == 1)
  {
    assert n[|n|..] == [] && [0x2A][1..] == [] && [0x3F][1..] == [];
    assert GroupLen([0x2A]) == 1 && GroupLen([0x3F]) == 1;
    assert Groups([0x2A]) == 1 && Groups([0x3F]) == 1;
    SmallGroupsMatch(up, [0x2A], n);
    SmallGroupsMatch(up, [0x3F], n);
  }

  /**
   * The code decides the wildcard relation on every name exactly for patterns of at most four
   * groups of fewer than 256 ? each.
   */
  lemma {:induction false} DecidesExactly(up: nat -> nat, p: seq<nat>)
    requires Text(p)
    ensures (forall n :: Text(n) ==> (Answer(up, p, n) <==> Matches(up, p, n)))
       <==> Groups(p) <= 4 && SmallGroups(p)
  {
    if Groups(p) <= FIND_RECURS && SmallGroups(p) {
      forall n | Text(n)
        ensures Answer(up, p, n) <==> Matches(up, p, n)
      {
        SmallGroupsMatch(up, p, n);
      }
    } else if Groups(p) > FIND_RECURS {
      ShortestText(p);
      ShortestMatches(up, p);
      assert !Answer(up, p, Shortest(p));
    } else {
      var t := TakenPattern(p);
      TakenText(p);
      ShortestText(t);
      ShortestMatches(up, t);
      TakenShorter(p);
      if Matches(up, p, Shortest(t)) {
        NothingShorter(up, p, Shortest(t));
      }
      assert Answer(up, p, Shortest(t)) && !Matches(up, p, Shortest(t));
    }
  }

  /** 256 times ? is taken for *, so it matches even the empty name. */
  lemma {:induction false} CarryIntoRun(up: nat -> nat, q: seq<nat>)
    requires |q| == 256 && forall i :: 0 <= i < |q| ==> q[i] == ANY_ONE
    ensures Answer(up, q, []) && !Matches(up, q, [])
  {
    assert q == Group(256, false);
    GroupHolds(256, false);
    assert q + [] == q;
    FoundGroup(up, q, [], []);
    GroupsBehind(q, []);
    var n: seq<nat> := [];
    assert n[0..] == n;
  }

  // Literal characters --------------------------------------------------------------------------

  /** The first j characters of the pattern are literal and those of the name equal them. */
  ghost predicate Lined(up: nat -> nat, p: seq<nat>, n: seq<nat>, j: nat) {
    && j <= |p| && j <= |n|
    && forall i :: 0 <= i < j ==> !IsWild(p[i]) && up(p[i]) == up(n[i])
  }

  lemma {:induction false} LinedMeaning(up: nat -> nat, p: seq<nat>, n: seq<nat>, j: nat)
    requires Lined(up, p, n, j)
    ensures Found(up, p, n) <==> Found(up, p[j..], n[j..])
    ensures Groups(p[j..]) == Groups(p)
    decreases j
  {
    if j > 0 {
      assert Lined(up, p[1..], n[1..], j - 1) by {
        assert forall i :: 0 <= i < j - 1 ==> p[1..][i] == p[i + 1] && n[1..][i] == n[i + 1];
      }
      FoundLiteral(up, p, n);
      LinedMeaning(up, p[1..], n[1..], j - 1);
      assert p[1..][j - 1..] == p[j..] && n[1..][j - 1..] == n[j..];
    } else {
      assert p[0..] == p && n[0..] == n;
    }
  }

  /** A name shorter than the literal part of the pattern does not match. */
  lemma {:induction false} TooShort(up: nat -> nat, p: seq<nat>, n: seq<nat>, j: nat)
    requires j <= |p| && |n| < j && forall i :: 0 <= i < j ==> !IsWild(p[i])
    ensures !Found(up, p, n)
    decreases j
  {
    FoundLiteral(up, p, n);
    if n != [] {
      TooShort(up, p[1..], n[1..], j - 1);
    }
  }

  /** Groups of the pattern behind its first group. */
  lemma {:induction false} GroupsBehind(w: seq<nat>, p: seq<nat>)
    requires AllWild(w) && w != [] && (p != [] ==> !IsWild(p[0]))
    ensures Groups(w + p) == 1 + Groups(p)
    decreases |w|
  {
    var s := w + p;
    assert s[1..] == w[1..] + p && s[0] == w[0];
    if |w| > 1 {
      assert s[1] == w[1];
      GroupsBehind(w[1..], p);
    } else {
      assert s[1..] == p;
    }
  }

  // The method ----------------------------------------------------------------------------------

  /** The fold takes no character to the terminator. */
  ghost predicate Fold(up: nat -> nat) {
    forall c: nat :: c > 0 ==> up(c) > 0
  }

  ghost predicate Text(s: seq<nat>) {
    forall i :: 0 <= i < |s| ==> s[i] > 0
  }

  /** get_achar: 0 at the end of the string. */
  function GetChar(up: nat -> nat, s: seq<nat>): nat {
    if s == [] then 0 else up(s[0])
  }

  /** The string after get_achar, or after the terminator itself, which is never read again. */
  function Behind(s: seq<nat>): seq<nat> {
    if s == [] then [] else s[1..]
  }

  /** One more character of a wildcard term. */
  lemma {:induction false} TermMore(p: seq<nat>, i: nat)
    requires i < |p| && IsWild(p[i]) && AllWild(p[..i])
    ensures AllWild(p[..i + 1]) && Singles(p[..i + 1]) == Singles(p[..i]) + (if p[i] == ANY_ONE then 1 else 0)
    ensures HasRun(p[..i + 1]) <==> HasRun(p[..i]) || p[i] == ANY_RUN
  {
    assert p[..i + 1] == p[..i] + [p[i]] && p[..i + 1][..i] == p[..i];
  }

  /** Bit 8 set, as in sk |= 0x100. */
  function SetRun(sk: nat): (r: nat)
    ensures Low(r) == Low(sk) && r >= INFINITE
  {
    if sk / INFINITE % 2 == 1 then sk else sk + INFINITE
  }

  /** The wildcard term at the start of p: what it skips, and the pattern behind it. */
  method Term(p: seq<nat>) returns (sk: nat, rest: seq<nat>, ghost w: seq<nat>)
    requires p != [] && IsWild(p[0])
    ensures p == w + rest && w != [] && AllWild(w) && (rest != [] ==> !IsWild(rest[0]))
    ensures Skips(sk, Singles(w), HasRun(w))
  {
    ghost var i := 0;
    sk, rest := 0, p;
    while rest != [] && IsWild(rest[0])
      invariant i <= |p| && rest == p[i..] && AllWild(p[..i])
      invariant Skips(sk, Singles(p[..i]), HasRun(p[..i]))
      decreases |rest|
    {
      TermMore(p, i);
      if rest[0] == ANY_ONE {
        SkipsMore(sk, Singles(p[..i]), HasRun(p[..i]));
        sk := sk + 1;
      } else {
        SkipsRun(sk, Singles(p[..i]), HasRun(p[..i]));
        sk := SetRun(sk);
      }
      rest, i := rest[1..], i + 1;
    }
    w := p[..i];
  }

  /** What a term of s times ? skips. */
  ghost predicate Skips(sk: nat, s: nat, run: bool) {
    Low(sk) == Low(s) && sk >= s && (sk >= INFINITE <==> run || s >= INFINITE)
  }

  lemma {:induction false} LowNext(s: nat)
    ensures Low(s + 1) == if Low(s) == INFINITE - 1 then 0 else Low(s) + 1
  {
  }

  lemma {:induction false} SkipsMore(sk: nat, s: nat, run: bool)
    requires Skips(sk, s, run)
    ensures Skips(sk + 1, s + 1, run)
  {
    LowNext(sk);
    LowNext(s);
  }

  lemma {:induction false} SkipsRun(sk: nat, s: nat, run: bool)
    requires Skips(sk, s, run)
    ensures Skips(SetRun(sk), s, true)
  {
  }

  /** A wildcard term after j literal characters, when the rest of the pattern has been tried behind it. */
  lemma {:induction false} TermMeaning(up: nat -> nat, p: seq<nat>, n: seq<nat>, j: nat, w: seq<nat>, rest: seq<nat>,
                                       recur: nat, found: bool)
    requires Lined(up, p, n, j) && p[j..] == w + rest && w != [] && AllWild(w) && (rest != [] ==> !IsWild(rest[0]))
    requires recur > 0
    requires found <==> Groups(rest) <= recur - 1 && Reaches(up, TakenPattern(rest), n[j..], Low(Singles(w)),
                                                              HasRun(w) || Singles(w) >= INFINITE)
    ensures found <==> Groups(p) <= recur && Found(up, p, n)
  {
    LinedMeaning(up, p, n, j);
    FoundGroup(up, w, rest, n[j..]);
    GroupsBehind(w, rest);
  }

  /** If the name ended in the literal part of the pattern, no later part of the name matches either. */
  lemma {:induction false} NoLaterMatch(up: nat -> nat, p: seq<nat>, n: seq<nat>, j: nat)
    requires Lined(up, p, n, j) && |n| == j
    ensures forall k: nat :: 0 < k <= |n| ==> !Found(up, p, n[k..])
  {
    forall k: nat | 0 < k <= |n|
      ensures !Found(up, p, n[k..])
    {
      TooShort(up, p, n[k..], j);
    }
  }

  /** The pattern fails at its j-th character, a literal one or its end. */
  lemma {:induction false} Mismatch(up: nat -> nat, p: seq<nat>, n: seq<nat>, j: nat)
    requires Lined(up, p, n, j) && (j < |p| ==> !IsWild(p[j])) && Fold(up) && Text(p) && Text(n)
    ensures GetChar(up, p[j..]) != GetChar(up, n[j..]) ==> !Found(up, p, n)
    ensures GetChar(up, p[j..]) == GetChar(up, n[j..]) && j < |p| ==> Lined(up, p, n, j + 1)
    ensures GetChar(up, p[j..]) == GetChar(up, n[j..]) && j == |p| ==> Found(up, p, n) && Groups(p) == 0
    ensures (GetChar(up, n[j..]) == 0 <==> |n| == j) && (GetChar(up, p[j..]) == 0 <==> |p| == j)
  {
    LinedMeaning(up, p, n, j);
  }

  /** No start in the name matches, or the pattern has too many groups. */
  ghost predicate NoneLater(up: nat -> nat, pat: seq<nat>, nam: seq<nat>, recur: nat) {
    Groups(pat) > recur || forall k: nat :: 0 < k <= |nam| ==> !Found(up, pat, nam[k..])
  }

  /** The inner loop at a wildcard term, which starts after j literal characters. */
  method TryTerm(up: nat -> nat, pat: seq<nat>, nam: seq<nat>, pptr: seq<nat>, nptr: seq<nat>, ghost j: nat, recur: nat)
    returns (res: bool, more: bool)
    requires Fold(up) && Text(pat) && Text(nam)
    requires Lined(up, pat, nam, j) && pptr == pat[j..] && nptr == nam[j..] && pptr != [] && IsWild(pptr[0])
    ensures res <==> Groups(pat) <= recur && Found(up, pat, nam)
    ensures more ==> nam != []
    ensures !res && !more ==> NoneLater(up, pat, nam, recur)
    decreases recur, 0
  {
    ghost var w;
    var sk, rest;
    sk, rest, w := Term(pptr);
    if recur == 0 {
      LinedMeaning(up, pat, nam, j);
      GroupsBehind(w, rest);
      return false, false;   // too many wildcard terms
    }
    assert rest == pptr[|w|..];
    var found := PatternMatch(up, rest, nptr, sk, recur - 1);
    TermMeaning(up, pat, nam, j, w, rest, recur, found);
    if nptr == [] {
      NoLaterMatch(up, pat, nam, j);
    }
    res, more := found, nptr != [];
  }

  /**
   * The inner loop: the pattern against the start of the name.  `more` says that a later start
   * may still match, because the name did not run out.
   */
  method TryHere(up: nat -> nat, pat: seq<nat>, nam: seq<nat>, recur: nat) returns (res: bool, more: bool)
    requires Fold(up) && Text(pat) && Text(nam)
    ensures res <==> Groups(pat) <= recur && Found(up, pat, nam)
    ensures more ==> nam != []
    ensures !res && !more ==> NoneLater(up, pat, nam, recur)
    decreases recur, 1
  {
    var pptr, nptr := pat, nam;
    ghost var j := 0;
    while true
      invariant Lined(up, pat, nam, j) && pptr == pat[j..] && nptr == nam[j..]
      decreases |pat| - j
    {
      if pptr != [] && IsWild(pptr[0]) {
        res, more := TryTerm(up, pat, nam, pptr, nptr, j, recur);
        return;
      }
      Mismatch(up, pat, nam, j);
      var pchr, nchr := GetChar(up, pptr), GetChar(up, nptr);
      if pchr != nchr {
        if nptr == [] {
          NoLaterMatch(up, pat, nam, j);
        }
        return false, nchr != 0;
      }
      if pchr == 0 {
        return true, false;
      }
      pptr, nptr, j := Behind(pptr), Behind(nptr), j + 1;
    }
  }

  /** Characters skipped before the first comparison. */
  method PreSkip(up: nat -> nat, nam: seq<nat>, q: nat) returns (ok: bool, rest: seq<nat>)
    requires Fold(up) && Text(nam)
    ensures ok <==> q <= |nam|
    ensures ok ==> rest == nam[q..]
  {
    rest := nam;
    var i := 0;
    while i < q
      invariant i <= q && i <= |nam| && rest == nam[i..]
    {
      if GetChar(up, rest) == 0 {
        return false, rest;
      }
      rest, i := Behind(rest), i + 1;
    }
    ok := true;
  }

  /** The test of f_findnext. */
  method NameMatches(up: nat -> nat, pat: seq<nat>, nam: seq<nat>) returns (res: bool)
    requires Fold(up) && Text(pat) && Text(nam)
    ensures res <==> Answer(up, pat, nam)
    ensures Groups(pat) <= 4 && SmallGroups(pat) ==> (res <==> Matches(up, pat, nam))
  {
    assert nam[0..] == nam;
    if Groups(pat) <= FIND_RECURS && SmallGroups(pat) {
      SmallGroupsMatch(up, pat, nam);
    }
    res := PatternMatch(up, pat, nam, 0, FIND_RECURS);
  }

  lemma {:induction false} NoStartLeft(up: nat -> nat, pat: seq<nat>, nam: seq<nat>, q: nat, t: nat, recur: nat)
    requires q <= t <= |nam| && NoneLater(up, pat, nam[t..], recur) && (Groups(pat) > recur || !Found(up, pat, nam[t..]))
    requires Groups(pat) <= recur ==> forall k :: q <= k < t ==> !Found(up, pat, nam[k..])
    ensures Groups(pat) <= recur ==> !Reaches(up, TakenPattern(pat), nam, q, true)
  {
    if Groups(pat) <= recur {
      forall k: nat | q <= k <= |nam|
        ensures !Found(up, pat, nam[k..])
      {
        if k > t {
          assert nam[k..] == nam[t..][k - t..];
        }
      }
    }
  }

  /**
   * pattern_match: whether the pattern has at most `recur` groups of wildcards and matches the
   * name after the characters that `skip` stands for.
   */
  method PatternMatch(up: nat -> nat, pat: seq<nat>, nam: seq<nat>, skip: nat, recur: nat) returns (res: bool)
    requires Fold(up) && Text(pat) && Text(nam)
    ensures res <==> Groups(pat) <= recur && Reaches(up, TakenPattern(pat), nam, Low(skip), skip >= INFINITE)
    decreases recur, 3
  {
    var q, infinite := Low(skip), skip >= INFINITE;
    var ok, cur := PreSkip(up, nam, q);
    if !ok {
      return false;
    }
    if pat == [] && infinite {
      assert nam[|nam|..] == [];
      return true;
    }
    res := Search(up, pat, nam, cur, q, infinite, recur);
  }

  /** The outer loop: every start from q on, or only q. */
  method Search(up: nat -> nat, pat: seq<nat>, nam: seq<nat>, start: seq<nat>, ghost q: nat, infinite: bool, recur: nat)
    returns (res: bool)
    requires Fold(up) && Text(pat) && Text(nam) && q <= |nam| && start == nam[q..]
    ensures res <==> Groups(pat) <= recur && Reaches(up, TakenPattern(pat), nam, q, infinite)
    decreases recur, 2
  {
    var cur := start;
    ghost var t := q;
    while true
      invariant q <= t <= |nam| && cur == nam[t..] && (!infinite ==> t == q)
      invariant Groups(pat) <= recur ==> forall k :: q <= k < t ==> !Found(up, pat, nam[k..])
      decreases |nam| - t
    {
      var more;
      res, more := TryHere(up, pat, cur, recur);
      if res {
        return true;
      }
      if !infinite || !more {
        if infinite {
          NoStartLeft(up, pat, nam, q, t, recur);
        }
        return false;
      }
      cur, t := Behind(cur), t + 1;
    }
  }
}
