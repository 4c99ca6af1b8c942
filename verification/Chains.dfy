/** Cluster chains in a FAT, given as the sequence of its entry values. */
module Chains {

  /** c follows the links of the FAT from c[0] to an end mark. */
  ghost predicate IsChain(f: seq<nat>, c: seq<nat>) {
    && |c| > 0
    && (forall i :: 0 <= i < |c| ==> 2 <= c[i] < |f|)
    && (forall i {:trigger f[c[i]]} :: 0 <= i < |c| - 1 ==> f[c[i]] == c[i + 1])
    && f[c[|c| - 1]] >= |f|
  }

  /** No cluster occurs in a chain twice: chains end, so they have no cycle. */
  lemma {:induction false} ChainsAcyclic(f: seq<nat>, c: seq<nat>, i: nat, j: nat)
    requires IsChain(f, c) && i < j < |c|
    ensures c[i] != c[j]
    decreases |c| - j
  {
    if j < |c| - 1 {
      ChainsAcyclic(f, c, i + 1, j + 1);
      assert f[c[i]] == c[i + 1] && f[c[j]] == c[j + 1];
    } else {
      assert f[c[i]] == c[i + 1];
    }
  }

  /** The clusters of a chain are determined by its first. */
  lemma {:induction false} ChainUnique(f: seq<nat>, c: seq<nat>, d: seq<nat>, i: nat)
    requires IsChain(f, c) && IsChain(f, d) && c[0] == d[0] && i < |c|
    ensures i < |d| && c[i] == d[i]
  {
    if i > 0 {
      ChainUnique(f, c, d, i - 1);
      assert f[d[i - 1]] == f[c[i - 1]] == c[i] < |f|;
    }
  }

  ghost predicate Different(c: seq<nat>, i: nat, j: nat)
    requires i < |c| && j < |c|
  {
    i != j ==> c[i] != c[j]
  }

  ghost predicate Distinct(c: seq<nat>) {
    forall i: nat, j: nat :: i < |c| && j < |c| ==> Different(c, i, j)
  }

  /** c from its k-th cluster on follows the links of the FAT to an end mark. */
  ghost predicate ChainFrom(f: seq<nat>, c: seq<nat>, k: nat) {
    && k < |c| && (forall i :: k <= i < |c| ==> 2 <= c[i] < |f|)
    && (forall i {:trigger f[c[i]]} :: k <= i < |c| - 1 ==> f[c[i]] == c[i + 1])
    && f[c[|c| - 1]] >= |f|
  }

  ghost predicate Disjoint(c: seq<nat>, d: seq<nat>) {
    forall x :: x in c ==> x !in d
  }

  ghost predicate AllChains(f: seq<nat>, chains: seq<seq<nat>>) {
    forall i :: 0 <= i < |chains| ==> IsChain(f, chains[i])
  }

  ghost predicate AllDisjoint(chains: seq<seq<nat>>) {
    forall i, j :: 0 <= i < |chains| && 0 <= j < |chains| && i != j ==> Disjoint(chains[i], chains[j])
  }

  ghost predicate InSome(chains: seq<seq<nat>>, x: nat) {
    exists i :: 0 <= i < |chains| && x in chains[i]
  }

  ghost predicate AllCovered(f: seq<nat>, chains: seq<seq<nat>>) {
    forall x {:trigger InSome(chains, x)} :: 2 <= x < |f| && f[x] != 0 ==> InSome(chains, x)
  }

  /** The FAT is a disjoint union of chains; entries in none of them are free. */
  ghost predicate WellFormed(f: seq<nat>, chains: seq<seq<nat>>) {
    AllChains(f, chains) && AllDisjoint(chains) && AllCovered(f, chains)
  }

  /** A chain does not notice changes of other entries. */
  lemma {:induction false} ChainFrame(f: seq<nat>, e: seq<nat>, c: seq<nat>)
    requires IsChain(f, c) && |e| == |f| && forall i :: 0 <= i < |c| ==> e[c[i]] == f[c[i]]
    ensures IsChain(e, c)
  {
  }

  lemma {:induction false} UntouchedChain(f: seq<nat>, e: seq<nat>, c: seq<nat>, x: nat, y: nat)
    requires IsChain(f, c) && |e| == |f| && x !in c && y !in c
    requires forall z :: 0 <= z < |f| && z != x && z != y ==> e[z] == f[z]
    ensures IsChain(e, c)
  {
    assert forall a :: 0 <= a < |c| ==> c[a] in c;
  }

  lemma {:induction false} NotInChain(f: seq<nat>, c: seq<nat>, x: nat)
    requires IsChain(f, c) && x < |f| && f[x] < 2
    ensures x !in c
  {
    forall i | 0 <= i < |c|
      ensures c[i] != x
    {
      assert c[i] >= 2 && (i < |c| - 1 ==> f[c[i]] == c[i + 1]);
    }
  }

  // Stretching ----------------------------------------------------------------------------------

  /** The FAT after cluster r became the last of the chain ending in clst (or a new chain). */
  function Linked(f: seq<nat>, clst: nat, r: nat, eoc: nat): seq<nat>
    requires r < |f| && clst < |f|
  {
    if clst == 0 then f[r := eoc] else f[r := eoc][clst := r]
  }

  lemma {:induction false} FreeInNone(f: seq<nat>, chains: seq<seq<nat>>, r: nat)
    requires AllChains(f, chains) && r < |f| && f[r] == 0
    ensures forall k :: 0 <= k < |chains| ==> r !in chains[k]
  {
    forall k | 0 <= k < |chains|
      ensures r !in chains[k]
    {
      NotInChain(f, chains[k], r);
    }
  }

  /** Only the stretched chain changes: it gains one cluster, which was free. */
  lemma {:induction false} StretchKeepsWellFormed(f: seq<nat>, chains: seq<seq<nat>>, i: nat, r: nat, eoc: nat)
    requires WellFormed(f, chains) && i < |chains| && 2 <= r < |f| && f[r] == 0 && eoc >= |f|
    ensures var c := chains[i];
            && r !in c
            && WellFormed(Linked(f, c[|c| - 1], r, eoc), chains[i := c + [r]])
  {
    var c := chains[i];
    var e := Linked(f, c[|c| - 1], r, eoc);
    FreeInNone(f, chains, r);
    StretchedChain(f, c, r, eoc);
    OthersStretched(f, chains, i, r, eoc);
    ReplacedDisjoint(chains, i, c + [r]);
    StretchedCovered(f, e, chains, i, r);
  }

  lemma {:induction false} StretchedCovered(f: seq<nat>, e: seq<nat>, chains: seq<seq<nat>>, i: nat, r: nat)
    requires AllCovered(f, chains) && |e| == |f| && i < |chains| && IsChain(f, chains[i])
    requires forall x :: 0 <= x < |f| && x != r && x != chains[i][|chains[i]| - 1] ==> e[x] == f[x]
    ensures AllCovered(e, chains[i := chains[i] + [r]])
  {
    var after := chains[i := chains[i] + [r]];
    forall k | 0 <= k < |chains|
      ensures Included(chains[k], after[k])
    {
    }
    assert r in after[i];
    CoveredAfter(f, e, chains, after, r);
  }

  ghost predicate Included(c: seq<nat>, d: seq<nat>) {
    forall x :: x in c ==> x in d
  }

  /** Replacing a chain by one with no clusters of the others. */
  lemma {:induction false} ReplacedDisjoint(chains: seq<seq<nat>>, i: nat, d: seq<nat>)
    requires AllDisjoint(chains) && i < |chains|
    requires forall x :: x in d ==> x in chains[i] || !InSome(chains, x)
    ensures AllDisjoint(chains[i := d])
  {
    var after := chains[i := d];
    forall k, l | 0 <= k < |after| && 0 <= l < |after| && k != l
      ensures Disjoint(after[k], after[l])
    {
      assert Disjoint(chains[k], chains[l]);
    }
  }

  lemma {:induction false} OthersStretched(f: seq<nat>, chains: seq<seq<nat>>, i: nat, r: nat, eoc: nat)
    requires WellFormed(f, chains) && i < |chains| && r < |f|
    requires forall k :: 0 <= k < |chains| ==> r !in chains[k]
    ensures var c := chains[i];
            forall k :: 0 <= k < |chains| && k != i ==> IsChain(Linked(f, c[|c| - 1], r, eoc), chains[k])
  {
    var c := chains[i];
    var e := Linked(f, c[|c| - 1], r, eoc);
    assert c[|c| - 1] in c;
    forall k | 0 <= k < |chains| && k != i
      ensures IsChain(e, chains[k])
    {
      assert Disjoint(c, chains[k]);
      UntouchedChain(f, e, chains[k], r, c[|c| - 1]);
    }
  }

  /** Every entry in use is still in a chain if the chains only gained. */
  lemma {:induction false} CoveredAfter(f: seq<nat>, e: seq<nat>, chains: seq<seq<nat>>, after: seq<seq<nat>>, r: nat)
    requires AllCovered(f, chains) && |e| == |f| && |chains| <= |after| && InSome(after, r)
    requires forall k :: 0 <= k < |chains| ==> Included(chains[k], after[k])
    requires forall x :: 2 <= x < |f| && x != r && e[x] != 0 ==> f[x] != 0
    ensures AllCovered(e, after)
  {
    forall x | 2 <= x < |e| && e[x] != 0
      ensures InSome(after, x)
    {
      if x != r {
        assert InSome(chains, x);
        var k :| 0 <= k < |chains| && x in chains[k];
        assert Included(chains[k], after[k]);
      }
    }
  }

  lemma {:induction false} StretchedChain(f: seq<nat>, c: seq<nat>, r: nat, eoc: nat)
    requires IsChain(f, c) && 2 <= r < |f| && r !in c && eoc >= |f|
    ensures IsChain(Linked(f, c[|c| - 1], r, eoc), c + [r])
  {
    var e, d := Linked(f, c[|c| - 1], r, eoc), c + [r];
    forall i | 0 <= i < |d| - 1
      ensures e[d[i]] == d[i + 1]
    {
      if i < |c| - 1 {
        ChainsAcyclic(f, c, i, |c| - 1);
        assert c[i] in c;
      }
    }
  }

  /** A new chain of one free cluster. */
  lemma {:induction false} NewChainKeepsWellFormed(f: seq<nat>, chains: seq<seq<nat>>, r: nat, eoc: nat)
    requires WellFormed(f, chains) && 2 <= r < |f| && f[r] == 0 && eoc >= |f|
    ensures WellFormed(Linked(f, 0, r, eoc), chains + [[r]])
  {
    var e, after := Linked(f, 0, r, eoc), chains + [[r]];
    FreeInNone(f, chains, r);
    forall k | 0 <= k < |after|
      ensures IsChain(e, after[k])
    {
      if k < |chains| {
        UntouchedChain(f, e, chains[k], r, r);
      }
    }
    forall k, l | 0 <= k < |after| && 0 <= l < |after| && k != l
      ensures Disjoint(after[k], after[l])
    {
      if k < |chains| && l < |chains| {
        assert Disjoint(chains[k], chains[l]);
      }
    }
    assert r in after[|chains|];
    assert forall k :: 0 <= k < |chains| ==> Included(chains[k], after[k]);
    CoveredAfter(f, e, chains, after, r);
  }

  // Removing ------------------------------------------------------------------------------------

  /** Number of zero entries among the clusters below hi. */
  function Zeros(f: seq<nat>, hi: nat): nat
    requires hi <= |f|
  {
    if hi <= 2 then 0 else Zeros(f, hi - 1) + if f[hi - 1] == 0 then 1 else 0
  }

  /** Number of free clusters. */
  function FreeCount(f: seq<nat>): nat { Zeros(f, |f|) }

  lemma {:induction false} ZerosBelow(f: seq<nat>, hi: nat)
    requires hi <= |f|
    ensures Zeros(f, hi) <= if hi <= 2 then 0 else hi - 2
  {
    if hi > 2 {
      ZerosBelow(f, hi - 1);
    }
  }

  lemma {:induction false} ZerosUpdate(f: seq<nat>, hi: nat, c: nat, v: nat)
    requires hi <= |f| && 2 <= c < |f|
    ensures var e := f[c := v];
            Zeros(e, hi) + (if c < hi && f[c] == 0 then 1 else 0)
            == Zeros(f, hi) + (if c < hi && v == 0 then 1 else 0)
  {
    if hi > 2 {
      ZerosUpdate(f, hi - 1, c, v);
    }
  }

  lemma {:induction false} ZerosZero(f: seq<nat>, hi: nat, c: nat)
    requires hi <= |f| && 2 <= c < hi && f[c] == 0
    ensures Zeros(f, hi) > 0
  {
    if c < hi - 1 {
      ZerosZero(f, hi - 1, c);
    }
  }

  lemma {:induction false} ZerosPositive(f: seq<nat>, hi: nat) returns (c: nat)
    requires hi <= |f| && Zeros(f, hi) > 0
    ensures 2 <= c < hi && f[c] == 0
  {
    if f[hi - 1] == 0 {
      c := hi - 1;
    } else {
      c := ZerosPositive(f, hi - 1);
    }
  }

  /** The FAT with every entry met on the walk from clst set free. */
  ghost function Removed(f: seq<nat>, clst: nat): (e: seq<nat>)
    ensures |e| == |f|
    decreases |f| - Zeros(f, |f|)
  {
    if 2 <= clst < |f| && f[clst] >= 2 then
      ZerosUpdate(f, |f|, clst, 0);
      ZerosBelow(f[clst := 0], |f|);
      Removed(f[clst := 0], f[clst])
    else f
  }

  /** The walk met an entry of value 1. */
  ghost predicate MeetsOne(f: seq<nat>, clst: nat)
    decreases |f| - Zeros(f, |f|)
  {
    if 2 <= clst < |f| && f[clst] >= 2 then
      ZerosUpdate(f, |f|, clst, 0);
      ZerosBelow(f[clst := 0], |f|);
      MeetsOne(f[clst := 0], f[clst])
    else
      2 <= clst < |f| && f[clst] == 1
  }

  /** No entry of the FAT has the value 1, which the driver treats as damage. */
  ghost predicate NoOnes(f: seq<nat>) {
    forall x :: 2 <= x < |f| ==> f[x] != 1
  }

  lemma {:induction false} NoOnesMet(f: seq<nat>, clst: nat)
    requires NoOnes(f)
    ensures !MeetsOne(f, clst)
    decreases |f| - Zeros(f, |f|)
  {
    if 2 <= clst < |f| && f[clst] >= 2 {
      ZerosUpdate(f, |f|, clst, 0);
      ZerosBelow(f[clst := 0], |f|);
      NoOnesMet(f[clst := 0], f[clst]);
    }
  }

  lemma {:induction false} RestOfChain(f: seq<nat>, c: seq<nat>, k: nat)
    requires ChainFrom(f, c, k) && Distinct(c) && k < |c| - 1
    ensures ChainFrom(f[c[k] := 0], c, k + 1)
  {
    forall i | k + 1 <= i < |c|
      ensures f[c[k] := 0][c[i]] == f[c[i]]
    {
      assert Different(c, k, i);
    }
  }

  /** Removing a well-formed chain from its k-th cluster on frees exactly those clusters. */
  lemma {:induction false} RemovedChain(f: seq<nat>, c: seq<nat>, k: nat)
    requires ChainFrom(f, c, k) && Distinct(c)
    ensures forall x :: 0 <= x < |f| ==> Removed(f, c[k])[x] == if x in c[k..] then 0 else f[x]
    ensures !MeetsOne(f, c[k])
    decreases |c| - k
  {
    var e := f[c[k] := 0];
    ZerosUpdate(f, |f|, c[k], 0);
    ZerosBelow(e, |f|);
    assert f[c[k]] >= 2 by {
      assert k < |c| - 1 ==> c[k + 1] >= 2;
    }
    assert Removed(f, c[k]) == Removed(e, f[c[k]]);
    assert c[k..] == [c[k]] + c[k + 1..];
    if k < |c| - 1 {
      RestOfChain(f, c, k);
      RemovedChain(e, c, k + 1);
    }
  }

  /** The clusters x of `gone` were freed; all other entries outside `touched` are the same. */
  ghost predicate Freed(f: seq<nat>, e: seq<nat>, gone: seq<nat>, touched: seq<nat>) {
    && |e| == |f|
    && (forall x :: x in gone && x < |f| ==> e[x] == 0)
    && (forall x :: 0 <= x < |f| && x !in touched ==> e[x] == f[x])
  }

  lemma {:induction false} OthersKept(f: seq<nat>, e: seq<nat>, chains: seq<seq<nat>>, i: nat, gone: seq<nat>)
    requires WellFormed(f, chains) && i < |chains| && Freed(f, e, gone, chains[i])
    ensures forall k :: 0 <= k < |chains| && k != i ==> IsChain(e, chains[k])
  {
    forall k | 0 <= k < |chains| && k != i
      ensures IsChain(e, chains[k])
    {
      assert Disjoint(chains[k], chains[i]);
      assert forall a :: 0 <= a < |chains[k]| ==> chains[k][a] in chains[k];
      ChainFrame(f, e, chains[k]);
    }
  }

  lemma {:induction false} ChainDistinct(f: seq<nat>, c: seq<nat>)
    requires IsChain(f, c)
    ensures Distinct(c)
  {
    forall a: nat, b: nat | a < |c| && b < |c|
      ensures Different(c, a, b)
    {
      if a < b {
        ChainsAcyclic(f, c, a, b);
      } else if b < a {
        ChainsAcyclic(f, c, b, a);
      }
    }
  }

  /** The FAT after removing c from its k-th cluster on, the predecessor being marked as the end. */
  ghost function Truncated(f: seq<nat>, c: seq<nat>, k: nat, eoc: nat): seq<nat>
    requires 0 < k < |c| && c[k - 1] < |f|
  {
    Removed(f[c[k - 1] := eoc], c[k])
  }

  /** Removing after a predecessor leaves exactly the prefix up to it. */
  lemma {:induction false} TruncatedChain(f: seq<nat>, c: seq<nat>, k: nat, eoc: nat)
    requires IsChain(f, c) && 0 < k < |c| && eoc >= |f|
    ensures IsChain(Truncated(f, c, k, eoc), c[..k]) && Freed(f, Truncated(f, c, k, eoc), c[k..], c)
    ensures !MeetsOne(f[c[k - 1] := eoc], c[k])
  {
    var m := f[c[k - 1] := eoc];
    ChainDistinct(f, c);
    MarkedChain(f, c, k, eoc);
    RemovedChain(m, c, k);
    PrefixKept(f, Removed(m, c[k]), c, k, eoc);
  }

  lemma {:induction false} MarkedChain(f: seq<nat>, c: seq<nat>, k: nat, v: nat)
    requires IsChain(f, c) && Distinct(c) && 0 < k < |c|
    ensures ChainFrom(f[c[k - 1] := v], c, k)
  {
    forall a | k <= a < |c|
      ensures f[c[k - 1] := v][c[a]] == f[c[a]]
    {
      assert Different(c, k - 1, a);
    }
  }

  lemma {:induction false} PrefixKept(f: seq<nat>, e: seq<nat>, c: seq<nat>, k: nat, eoc: nat)
    requires IsChain(f, c) && 0 < k < |c| && eoc >= |f| == |e|
    requires Distinct(c)
    requires forall x :: 0 <= x < |f| ==> e[x] == if x in c[k..] then 0 else if x == c[k - 1] then eoc else f[x]
    ensures IsChain(e, c[..k]) && Freed(f, e, c[k..], c)
  {
    forall a | 0 <= a < k
      ensures e[c[a]] == if a == k - 1 then eoc else c[a + 1]
    {
      forall b | 0 <= b < |c[k..]|
        ensures c[k..][b] != c[a]
      {
        assert c[k..][b] == c[k + b] && Different(c, a, k + b);
      }
      assert Different(c, a, k - 1);
      assert a < k - 1 ==> f[c[a]] == c[a + 1];
    }
    assert c[k - 1] in c && forall x :: x in c[k..] ==> x in c;
  }

  /** ... and all other chains stay. */
  lemma {:induction false} TruncateKeepsWellFormed(f: seq<nat>, chains: seq<seq<nat>>, i: nat, k: nat, eoc: nat)
    requires WellFormed(f, chains) && i < |chains| && 0 < k < |chains[i]| && eoc >= |f|
    ensures WellFormed(Truncated(f, chains[i], k, eoc), chains[i := chains[i][..k]])
  {
    var c := chains[i];
    var e, after := Truncated(f, c, k, eoc), chains[i := c[..k]];
    TruncatedChain(f, c, k, eoc);
    PrefixWellFormed(f, e, chains, i, k);
  }

  lemma {:induction false} PrefixWellFormed(f: seq<nat>, e: seq<nat>, chains: seq<seq<nat>>, i: nat, k: nat)
    requires WellFormed(f, chains) && i < |chains| && k <= |chains[i]|
    requires IsChain(e, chains[i][..k]) && Freed(f, e, chains[i][k..], chains[i])
    ensures WellFormed(e, chains[i := chains[i][..k]])
  {
    var c := chains[i];
    var after := chains[i := c[..k]];
    OthersKept(f, e, chains, i, c[k..]);
    assert AllChains(e, after);
    ReplacedDisjoint(chains, i, c[..k]);
    forall x | 2 <= x < |e| && e[x] != 0
      ensures InSome(after, x)
    {
      InUseBefore(f, e, chains, i, c[k..], x);
      StillInSome(chains, i, k, x);
    }
  }

  lemma {:induction false} StillInSome(chains: seq<seq<nat>>, i: nat, k: nat, x: nat)
    requires InSome(chains, x) && i < |chains| && k <= |chains[i]| && x !in chains[i][k..]
    ensures InSome(chains[i := chains[i][..k]], x)
  {
    var a :| 0 <= a < |chains| && x in chains[a];
    if a == i {
      var j :| 0 <= j < |chains[i]| && chains[i][j] == x;
      assert forall b :: k <= b < |chains[i]| ==> chains[i][b] == chains[i][k..][b - k];
      assert j < k;
      assert chains[i][..k][j] == x;
    }
    assert x in chains[i := chains[i][..k]][a];
  }

  lemma {:induction false} InUseBefore(f: seq<nat>, e: seq<nat>, chains: seq<seq<nat>>, i: nat, gone: seq<nat>, x: nat)
    requires WellFormed(f, chains) && i < |chains| && Freed(f, e, gone, chains[i])
    requires 2 <= x < |e| && e[x] != 0
    ensures InSome(chains, x) && x !in gone
  {
    if x in chains[i] {
    } else {
      assert f[x] != 0;
    }
  }

  /** Removing a whole chain leaves all others. */
  lemma {:induction false} RemoveKeepsWellFormed(f: seq<nat>, chains: seq<seq<nat>>, i: nat)
    requires WellFormed(f, chains) && i < |chains|
    ensures WellFormed(Removed(f, chains[i][0]), chains[..i] + chains[i + 1..])
    ensures !MeetsOne(f, chains[i][0])
  {
    var c := chains[i];
    ChainDistinct(f, c);
    RemovedChain(f, c, 0);
    assert c[0..] == c;
    RestWellFormed(f, Removed(f, c[0]), chains, i);
  }

  lemma {:induction false} RestWellFormed(f: seq<nat>, e: seq<nat>, chains: seq<seq<nat>>, i: nat)
    requires WellFormed(f, chains) && i < |chains| && Freed(f, e, chains[i], chains[i])
    ensures WellFormed(e, chains[..i] + chains[i + 1..])
  {
    var after := chains[..i] + chains[i + 1..];
    OthersKept(f, e, chains, i, chains[i]);
    RemainingChains(e, chains, i);
    forall x | 2 <= x < |e| && e[x] != 0
      ensures InSome(after, x)
    {
      InUseBefore(f, e, chains, i, chains[i], x);
      InRest(chains, i, x);
    }
  }

  lemma {:induction false} InRest(chains: seq<seq<nat>>, i: nat, x: nat)
    requires InSome(chains, x) && i < |chains| && x !in chains[i]
    ensures InSome(chains[..i] + chains[i + 1..], x)
  {
    var after := chains[..i] + chains[i + 1..];
    var a :| 0 <= a < |chains| && x in chains[a];
    assert x in after[if a < i then a else a - 1];
  }

  lemma {:induction false} RemainingChains(e: seq<nat>, chains: seq<seq<nat>>, i: nat)
    requires AllDisjoint(chains) && i < |chains|
    requires forall k :: 0 <= k < |chains| && k != i ==> IsChain(e, chains[k])
    ensures var after := chains[..i] + chains[i + 1..]; AllChains(e, after) && AllDisjoint(after)
  {
    var after := chains[..i] + chains[i + 1..];
    forall a | 0 <= a < |after|
      ensures IsChain(e, after[a])
    {
      assert after[a] == chains[if a < i then a else a + 1];
    }
    forall a, b | 0 <= a < |after| && 0 <= b < |after| && a != b
      ensures Disjoint(after[a], after[b])
    {
      assert Disjoint(chains[if a < i then a else a + 1], chains[if b < i then b else b + 1]);
    }
  }
}
