/** Allocating and freeing clusters, for error-free runs of the disk. */
module Allocator {
  import opened Bytes
  import opened FatEntries
  import opened Volume
  import opened Chains

  /** The end mark put_fat(.., 0xFFFFFFFF) leaves in an entry. */
  function Eoc(g: Layout): (e: nat)
    ensures e == if g.fsType == FAT12 then 0xFFF else if g.fsType == FAT16 then 0xFFFF else 0x0FFF_FFFF
  {
    EntryLimit(g.fsType) - 1
  }

  /** Where the scan for a free cluster starts when the next cluster is not free. */
  function ScanStart(n: nat, clst: nat, last: nat): nat {
    if clst == 0 then (if last == 0 || last >= n then 1 else last)
    else if 2 <= last < n then last else clst
  }

  /** r is the first free cluster after scl, going round once. */
  ghost predicate FirstFreeAfter(f: seq<nat>, scl: nat, r: nat) {
    && 2 <= r < |f| && f[r] == 0
    && (forall c :: scl < c < |f| && (scl < r ==> c < r) ==> f[c] != 0)
    && (r <= scl ==> forall c :: 2 <= c < r ==> f[c] != 0)
  }

  /** Cluster tested first when a chain ending in clst is stretched. */
  function NextCluster(n: nat, clst: nat): nat { if clst + 1 >= n then 2 else clst + 1 }

  /** What create_chain(clst) returns on the FAT f, when free_clst is `free`. */
  ghost predicate CreateResult(f: seq<nat>, clst: nat, last: nat, free: nat, r: nat) {
    if clst != 0 && (clst < 2 || clst >= |f| || f[clst] < 2) then r == 1
    else if clst != 0 && f[clst] < |f| then r == f[clst]
    else if free == 0 then r == 0
    else if clst != 0 && f[NextCluster(|f|, clst)] == 0 then r == NextCluster(|f|, clst)
    else if r == 0 then forall c :: 2 <= c < |f| ==> f[c] >= 2
    else if r == 1 then exists c :: 2 <= c < |f| && f[c] == 1
    else FirstFreeAfter(f, ScanStart(|f|, clst, last), r)
  }

  /** A chain is stretched to the cluster behind its last one if that is free; behind the last of the volume comes 2. */
  lemma {:induction false} NeighbourTaken(f: seq<nat>, clst: nat, last: nat, free: nat, r: nat)
    requires CreateResult(f, clst, last, free, r) && 2 <= clst < |f| <= f[clst] && free > 0
    ensures clst + 1 < |f| && f[clst + 1] == 0 ==> r == clst + 1
    ensures clst + 1 == |f| && f[2] == 0 ==> r == 2
  {
  }

  /** A new chain starts at the first free cluster behind the one allocated last, going round once. */
  lemma {:induction false} NewChainAt(f: seq<nat>, last: nat, free: nat, r: nat)
    requires CreateResult(f, 0, last, free, r) && |f| >= 3 && free > 0 && r >= 2
    ensures var s := if 0 < last < |f| then last else 1;
            && r < |f| && f[r] == 0 && (forall c :: s < c < |f| && (c < r || r <= s) ==> f[c] != 0)
            && (r <= s ==> forall c :: 2 <= c < r ==> f[c] != 0)
  {
  }

  /** The call allocates a cluster rather than reporting an existing link or a failure. */
  ghost predicate Allocates(f: seq<nat>, clst: nat, r: nat) {
    2 <= r < |f| && f[r] == 0 && clst < |f| && (clst == 0 || f[clst] >= |f|)
  }

  function FreeAfterCreate(n: nat, free: nat): nat
    requires n >= 2
  {
    if 0 < free <= n - 2 then free - 1 else free
  }

  /** A volume ready for cluster operations. */
  ghost predicate Ready(fs: FatFs)
    reads fs`winsect, fs`wflag, fs.win, fs.disk`device
  {
    fs.Valid() && fs.disk.reliable
  }

  /** The logical disk is d; the window is where it was (at w) or shows a sector of the first FAT. */
  ghost predicate Shows(fs: FatFs, d: seq<Sector>, w: nat)
    reads fs`winsect, fs`wflag, fs.win, fs.disk`device
  {
    Ready(fs) && fs.Logical() == d && (fs.winsect == w || InFat1(fs.g, fs.winsect))
  }

  /** The FAT of a logical disk. */
  ghost function FatIn(fs: FatFs, d: seq<Sector>): (f: seq<nat>)
    requires Shaped(fs.g, d) && TableFits(fs.g)
    ensures |f| == fs.g.nFatent
  {
    FatOf(fs.g, d)
  }

  /** get_fat when the disk does not fail. */
  method FatEntry(fs: FatFs, clst: nat, ghost d: seq<Sector>, ghost w: nat) returns (val: nat)
    requires Shows(fs, d, w)
    modifies fs`wflag, fs`winsect, fs.win, fs.disk, fs.disk.shared
    ensures Shows(fs, d, w)
    ensures val == if 2 <= clst < fs.g.nFatent then FatIn(fs, d)[clst] else 1
    ensures 2 <= clst < fs.g.nFatent ==> InFat1(fs.g, fs.winsect)
  {
    val := fs.GetFat(clst);
  }

  /** Clusters from scl on that the scan has passed: up to ncl, or all to the end and up to ncl. */
  ghost predicate Passed(f: seq<nat>, scl: nat, ncl: nat, wrapped: bool) {
    && (if wrapped then 2 <= ncl < scl < |f| else scl <= ncl < |f|)
    && (forall c :: scl < c < |f| && (wrapped || c <= ncl) ==> f[c] >= 2)
    && (wrapped ==> forall c :: 2 <= c <= ncl ==> f[c] >= 2)
  }

  /** What the scan reports. */
  ghost predicate ScanResult(f: seq<nat>, scl: nat, ncl: nat) {
    && (ncl == 0 ==> forall c :: 2 <= c < |f| ==> f[c] >= 2)
    && (ncl == 1 ==> exists c :: 2 <= c < |f| && f[c] == 1)
    && (ncl >= 2 ==> FirstFreeAfter(f, scl, ncl))
  }

  /** One turn of the scan: the next cluster round, and the result if the scan is over. */
  ghost predicate ScanTurn(f: seq<nat>, scl: nat, ncl: nat, wrapped: bool, next: nat, wrapped': bool) {
    && (wrapped' <==> wrapped || ncl + 1 >= |f|)
    && next == if ncl + 1 >= |f| then 2 else ncl + 1
  }

  lemma {:induction false} ScanProgress(f: seq<nat>, scl: nat, ncl: nat, wrapped: bool, next: nat, wrapped': bool)
    requires Passed(f, scl, ncl, wrapped) && ScanTurn(f, scl, ncl, wrapped, next, wrapped')
    requires 1 <= scl < |f| && |f| >= 3
    ensures next > scl && wrapped' ==> ScanResult(f, scl, 0)
    ensures !(next > scl && wrapped') ==>
              && 2 <= next < |f|
              && (f[next] == 0 ==> ScanResult(f, scl, next))
              && (f[next] == 1 ==> ScanResult(f, scl, 1))
              && (f[next] >= 2 ==> if next == scl then ScanResult(f, scl, 0) else Passed(f, scl, next, wrapped'))
  {
  }

  /** The wraparound scan: 0 if it went round without finding a free cluster, 1 if it met a 1. */
  method FindFree(fs: FatFs, scl: nat, ghost d: seq<Sector>, ghost w: nat) returns (ncl: nat)
    requires Shows(fs, d, w) && 1 <= scl < fs.g.nFatent
    modifies fs`wflag, fs`winsect, fs.win, fs.disk, fs.disk.shared
    ensures Shows(fs, d, w) && ScanResult(FatIn(fs, d), scl, ncl)
  {
    ghost var f := FatIn(fs, d);
    ghost var wrapped := false;
    ncl := scl;
    while true
      invariant Shows(fs, d, w) && Passed(f, scl, ncl, wrapped)
      decreases if wrapped then scl - ncl else |f| - ncl + scl
    {
      ghost var at, before := ncl, wrapped;
      ncl := ncl + 1;
      if ncl >= fs.g.nFatent {
        ncl := 2;
        wrapped := true;
        ScanProgress(f, scl, at, before, ncl, wrapped);
        if ncl > scl {
          return 0;
        }
      }
      ScanProgress(f, scl, at, before, ncl, wrapped);
      var cs := FatEntry(fs, ncl, d, w);
      if cs == 0 {
        return;
      }
      if cs == 1 || cs == ANY_ERROR {
        return 1;
      }
      if ncl == scl {
        return 0;
      }
    }
  }

  /** The first part of create_chain: the cluster to link, or the result if nothing is linked. */
  method ChooseCluster(fs: FatFs, clst: nat, ghost d: seq<Sector>, ghost w: nat)
    returns (found: bool, ncl: nat)
    requires Shows(fs, d, w)
    modifies fs`wflag, fs`winsect, fs.win, fs.disk, fs.disk.shared
    ensures Shows(fs, d, w)
    ensures CreateResult(FatIn(fs, d), clst, fs.lastClst, fs.freeClst, ncl)
    ensures found <==> Allocates(FatIn(fs, d), clst, ncl)
    ensures found ==> fs.freeClst > 0
  {
    found := false;
    var n := fs.g.nFatent;
    var scl, cs;
    if clst == 0 {
      scl := fs.lastClst;
      if scl == 0 || scl >= n {
        scl := 1;
      }
    } else {
      cs := FatEntry(fs, clst, d, w);
      if cs < 2 {
        ncl := 1;
        return;
      }
      if cs < n {
        ncl := cs;
        return;
      }
      scl := clst;
    }
    if fs.freeClst == 0 {
      ncl := 0;
      return;
    }
    ncl := 0;
    if scl == clst {
      ncl := NextCluster(n, scl);
      cs := FatEntry(fs, ncl, d, w);
      if cs == 1 {
        ncl := 1;
        return;
      }
      if cs != 0 {
        cs := fs.lastClst;
        if 2 <= cs < n {
          scl := cs;
        }
        ncl := 0;
      }
    }
    if ncl == 0 {
      ncl := FindFree(fs, scl, d, w);
    }
    found := ncl >= 2;
  }

  /** put_fat when the disk does not fail. */
  method SetEntry(fs: FatFs, clst: nat, val: nat, ghost d: seq<Sector>)
    requires Ready(fs) && fs.Logical() == d && 2 <= clst < fs.g.nFatent && val < TWO32
    modifies fs`wflag, fs`winsect, fs.win, fs.disk, fs.disk.shared
    ensures Ready(fs) && InFat1(fs.g, fs.winsect)
    ensures EntryStored(fs.g, d, fs.Logical(), clst, val) && OnlyEntries(fs.g, d, fs.Logical())
  {
    var _ := fs.PutFat(clst, val);
  }

  lemma {:induction false} LinkedEntries(g: Layout, d: seq<Sector>, m: seq<Sector>, e: seq<Sector>,
                                         clst: nat, ncl: nat)
    requires Shaped(g, d) && TableFits(g) && g.nFatent <= MaxClusters(g.fsType) + 2
    requires ncl < g.nFatent && clst < g.nFatent && EntryStored(g, d, m, ncl, ANY_ERROR)
    requires if clst == 0 then e == m else EntryStored(g, m, e, clst, ncl)
    ensures SameOutsideFats(g, d, e) && FatOf(g, e) == Linked(FatOf(g, d), clst, ncl, Eoc(g))
  {
    assert ANY_ERROR % EntryLimit(g.fsType) == Eoc(g);
    assert ncl % EntryLimit(g.fsType) == ncl;
  }

  /** The second part: mark the new cluster as the end and link it from the old one. */
  method LinkCluster(fs: FatFs, clst: nat, ncl: nat)
    requires Ready(fs) && 2 <= ncl < fs.g.nFatent && (clst == 0 || 2 <= clst < fs.g.nFatent)
    modifies fs`wflag, fs`winsect, fs.win, fs.disk, fs.disk.shared
    ensures Ready(fs) && OnlyEntries(fs.g, old(fs.Logical()), fs.Logical())
    ensures InFat1(fs.g, fs.winsect)
    ensures fs.Fat() == Linked(old(fs.Fat()), clst, ncl, Eoc(fs.g))
  {
    ghost var d := fs.Logical();
    SetEntry(fs, ncl, ANY_ERROR, d);
    ghost var m := fs.Logical();
    if clst != 0 {
      SetEntry(fs, clst, ncl, m);
    }
    LinkedEntries(fs.g, d, m, fs.Logical(), clst, ncl);
  }

  /** Linking the new cluster, and the notes of the allocator. */
  method AddCluster(fs: FatFs, clst: nat, ncl: nat)
    requires Ready(fs) && 2 <= ncl < fs.g.nFatent && (clst == 0 || 2 <= clst < fs.g.nFatent) && fs.freeClst > 0
    modifies fs, fs.win, fs.disk, fs.disk.shared
    ensures Ready(fs) && OnlyEntries(fs.g, old(fs.Logical()), fs.Logical())
    ensures InFat1(fs.g, fs.winsect) && fs.Fat() == Linked(old(fs.Fat()), clst, ncl, Eoc(fs.g))
    ensures fs.lastClst == ncl && fs.freeClst == FreeAfterCreate(fs.g.nFatent, old(fs.freeClst)) && fs.fsiDirty
  {
    LinkCluster(fs, clst, ncl);
    fs.lastClst := ncl;
    if fs.freeClst <= fs.g.nFatent - 2 {
      fs.freeClst := fs.freeClst - 1;
    }
    fs.fsiDirty := true;
  }

  /** create_chain: stretch the chain ending in clst, or start a new one if clst is 0. */
  method CreateChain(fs: FatFs, clst: nat) returns (ncl: nat)
    requires Ready(fs)
    modifies fs, fs.win, fs.disk, fs.disk.shared
    ensures Ready(fs) && OnlyEntries(fs.g, old(fs.Logical()), fs.Logical())
    ensures fs.winsect == old(fs.winsect) || InFat1(fs.g, fs.winsect)
    ensures CreateResult(old(fs.Fat()), clst, old(fs.lastClst), old(fs.freeClst), ncl)
    ensures if Allocates(old(fs.Fat()), clst, ncl)
            then fs.Fat() == Linked(old(fs.Fat()), clst, ncl, Eoc(fs.g)) && fs.lastClst == ncl
                 && InFat1(fs.g, fs.winsect) && fs.freeClst == FreeAfterCreate(fs.g.nFatent, old(fs.freeClst)) && fs.fsiDirty
            else fs.Logical() == old(fs.Logical()) && fs.lastClst == old(fs.lastClst)
                 && fs.freeClst == old(fs.freeClst) && fs.fsiDirty == old(fs.fsiDirty)
  {
    var found;
    found, ncl := ChooseCluster(fs, clst, fs.Logical(), fs.winsect);
    if found {
      AddCluster(fs, clst, ncl);
    } else {
      OnlyEntriesSame(fs.g, fs.Logical());
    }
  }

  /** free_clst after the walk freed some clusters: it stops at its largest value. */
  function FreeAfterRemove(n: nat, free: nat, freed: nat): nat
    requires n >= 2
  {
    if free > n - 2 then free else if free + freed < n - 2 then free + freed else n - 2
  }

  /** remove_chain: free the clusters from clst on; pclst becomes the end of its chain unless it is 0. */
  method RemoveChain(fs: FatFs, clst: nat, pclst: nat) returns (res: FResult)
    requires Ready(fs)
    modifies fs, fs.win, fs.disk, fs.disk.shared
    ensures Ready(fs) && OnlyEntries(fs.g, old(fs.Logical()), fs.Logical())
    ensures fs.winsect == old(fs.winsect) || InFat1(fs.g, fs.winsect)
    ensures fs.lastClst == old(fs.lastClst)
    ensures if clst < 2 || clst >= fs.g.nFatent || pclst == 1 || pclst >= fs.g.nFatent
            then res == FR_INT_ERR && fs.Logical() == old(fs.Logical()) && fs.freeClst == old(fs.freeClst)
            else WalkResult(Marked(old(fs.Fat()), pclst, Eoc(fs.g)), clst, old(fs.freeClst), fs.Fat(), fs.freeClst, res)
                 && (NoOnes(old(fs.Fat())) ==> res == FR_OK)
  {
    if clst < 2 || clst >= fs.g.nFatent {
      return FR_INT_ERR;
    }
    res := RemoveFrom(fs, clst, pclst);
  }

  /** The same for a cluster number in range. */
  method RemoveFrom(fs: FatFs, clst: nat, pclst: nat) returns (res: FResult)
    requires Ready(fs) && 2 <= clst < fs.g.nFatent
    modifies fs`wflag, fs`winsect, fs`freeClst, fs`fsiDirty, fs.win, fs.disk, fs.disk.shared
    ensures Ready(fs) && OnlyEntries(fs.g, old(fs.Logical()), fs.Logical())
    ensures fs.winsect == old(fs.winsect) || InFat1(fs.g, fs.winsect)
    ensures pclst == 1 || pclst >= fs.g.nFatent ==>
              res == FR_INT_ERR && fs.Logical() == old(fs.Logical()) && fs.freeClst == old(fs.freeClst)
    ensures pclst == 0 || 2 <= pclst < fs.g.nFatent ==>
              && WalkResult(Marked(old(fs.Fat()), pclst, Eoc(fs.g)), clst, old(fs.freeClst), fs.Fat(), fs.freeClst, res)
              && (NoOnes(old(fs.Fat())) ==> res == FR_OK)
  {
    ghost var d := fs.Logical();
    res := MarkEnd(fs, pclst, d);
    if res == FR_OK {
      NothingMet(FatIn(fs, d), pclst, Eoc(fs.g), clst);
      res := WalkAndFree(fs, clst, d, fs.Logical());
    }
  }

  /** put_fat(pclst, 0xFFFFFFFF) unless pclst is 0. */
  method MarkEnd(fs: FatFs, pclst: nat, ghost d: seq<Sector>) returns (res: FResult)
    requires Ready(fs) && fs.Logical() == d
    modifies fs`wflag, fs`winsect, fs.win, fs.disk, fs.disk.shared
    ensures Ready(fs) && (fs.winsect == old(fs.winsect) || InFat1(fs.g, fs.winsect))
    ensures OnlyEntries(fs.g, d, fs.Logical())
    ensures res == if pclst == 1 || pclst >= fs.g.nFatent then FR_INT_ERR else FR_OK
    ensures if res == FR_OK then fs.Fat() == Marked(FatIn(fs, d), pclst, Eoc(fs.g)) else fs.Logical() == d
  {
    res := FR_OK;
    if pclst != 0 {
      res := fs.PutFat(pclst, ANY_ERROR);
      assert ANY_ERROR % EntryLimit(fs.g.fsType) == Eoc(fs.g);
    }
  }

  /** The predecessor of the removed clusters becomes the end of its chain. */
  function Marked(f: seq<nat>, pclst: nat, eoc: nat): seq<nat>
    requires pclst < |f|
  {
    if pclst == 0 then f else f[pclst := eoc]
  }

  lemma {:induction false} NothingMet(f: seq<nat>, pclst: nat, eoc: nat, clst: nat)
    requires pclst < |f| && eoc > 1
    ensures NoOnes(f) ==> !MeetsOne(Marked(f, pclst, eoc), clst)
  {
    if NoOnes(f) {
      NoOnesMet(Marked(f, pclst, eoc), clst);
    }
  }

  /** Outcome of freeing the walk from clst in the FAT m: new FAT and free_clst, and the result. */
  ghost predicate WalkResult(m: seq<nat>, clst: nat, free0: nat, f: seq<nat>, free: nat, res: FResult) {
    && res == (if MeetsOne(m, clst) then FR_INT_ERR else FR_OK)
    && f == Removed(m, clst) && FreeCount(m) <= FreeCount(f) && |m| >= 2
    && free == FreeAfterRemove(|m|, free0, FreeCount(f) - FreeCount(m))
  }

  /** put_fat(clst, 0) and the count of free clusters. */
  method FreeEntry(fs: FatFs, clst: nat, ghost d: seq<Sector>)
    requires Ready(fs) && fs.Logical() == d && 2 <= clst < fs.g.nFatent
    modifies fs`wflag, fs`winsect, fs`freeClst, fs`fsiDirty, fs.win, fs.disk, fs.disk.shared
    ensures Ready(fs) && InFat1(fs.g, fs.winsect)
    ensures OnlyEntries(fs.g, d, fs.Logical())
    ensures fs.Fat() == FatIn(fs, d)[clst := 0]
    ensures fs.freeClst == FreeAfterRemove(fs.g.nFatent, old(fs.freeClst), 1)
  {
    SetEntry(fs, clst, 0, d);
    if fs.freeClst < fs.g.nFatent - 2 {
      fs.freeClst := fs.freeClst + 1;
      fs.fsiDirty := true;
    }
  }

  /** The loop of remove_chain. */
  method WalkAndFree(fs: FatFs, clst: nat, ghost d0: seq<Sector>, ghost d: seq<Sector>) returns (res: FResult)
    requires Ready(fs) && 2 <= clst < fs.g.nFatent && fs.Logical() == d && Shaped(fs.g, d0)
    requires OnlyEntries(fs.g, d0, d)
    modifies fs`wflag, fs`winsect, fs`freeClst, fs`fsiDirty, fs.win, fs.disk, fs.disk.shared
    ensures Ready(fs) && OnlyEntries(fs.g, d0, fs.Logical())
    ensures InFat1(fs.g, fs.winsect)
    ensures WalkResult(FatIn(fs, d), clst, old(fs.freeClst), fs.Fat(), fs.freeClst, res)
  {
    ghost var m, free0, f := fs.Fat(), fs.freeClst, fs.Fat();
    var c, n := clst, fs.g.nFatent;
    while true
      invariant Ready(fs) && fs.Fat() == f && 2 <= c < n
      invariant OnlyEntries(fs.g, d0, fs.Logical())
      invariant Walking(m, clst, free0, f, c, fs.freeClst)
      decreases n - FreeCount(f)
    {
      ghost var e := fs.Logical();
      var nxt := FatEntry(fs, c, e, fs.winsect);
      WalkEnd(m, clst, free0, f, c, fs.freeClst);
      if nxt == 0 {
        return FR_OK;
      }
      if nxt == 1 {
        return FR_INT_ERR;
      }
      WalkStep(m, clst, free0, f, c, fs.freeClst);
      FreeEntry(fs, c, e);
      OnlyEntriesTransitive(fs.g, d0, e, fs.Logical());
      f := f[c := 0];
      c := nxt;
      if c >= n {
        WalkEnd(m, clst, free0, f, c, fs.freeClst);
        return FR_OK;
      }
    }
  }

  /** The walk has freed the difference of m and f and is at c. */
  ghost predicate Walking(m: seq<nat>, clst: nat, free0: nat, f: seq<nat>, c: nat, free: nat) {
    && |f| == |m| >= 2 && Removed(f, c) == Removed(m, clst) && (MeetsOne(f, c) <==> MeetsOne(m, clst))
    && FreeCount(m) <= FreeCount(f) && free == FreeAfterRemove(|m|, free0, FreeCount(f) - FreeCount(m))
  }

  lemma {:induction false} WalkEnd(m: seq<nat>, clst: nat, free0: nat, f: seq<nat>, c: nat, free: nat)
    requires Walking(m, clst, free0, f, c, free)
    ensures c >= |f| ==> WalkResult(m, clst, free0, f, free, FR_OK)
    ensures 2 <= c < |f| && f[c] == 0 ==> WalkResult(m, clst, free0, f, free, FR_OK)
    ensures 2 <= c < |f| && f[c] == 1 ==> WalkResult(m, clst, free0, f, free, FR_INT_ERR)
  {
  }

  /** Each step leaves one more zero, so the walk ends on any FAT, cyclic or cross-linked. */
  lemma {:induction false} WalkStep(m: seq<nat>, clst: nat, free0: nat, f: seq<nat>, c: nat, free: nat)
    requires Walking(m, clst, free0, f, c, free) && 2 <= c < |f| && f[c] >= 2
    ensures Walking(m, clst, free0, f[c := 0], f[c], FreeAfterRemove(|f|, free, 1))
    ensures FreeCount(f) < FreeCount(f[c := 0]) <= |f| - 2
  {
    ZerosUpdate(f, |f|, c, 0);
    ZerosBelow(f, |f|);
    ZerosBelow(f[c := 0], |f|);
  }

  // Runs ----------------------------------------------------------------------------------------

  /** What the allocator works on, with the chains of all objects. */
  datatype State = State(f: seq<nat>, chains: seq<seq<nat>>, last: nat, free: nat)

  /** A call of create_chain for a new object, of create_chain(clst), of remove_chain, or of f_getfree. */
  datatype Call = Create(r: nat) | Stretch(i: nat, k: nat, r: nat) | Cut(i: nat, k: nat) | Delete(i: nat) | Scan

  function TotalLength(chains: seq<seq<nat>>): nat {
    if chains == [] then 0 else TotalLength(chains[..|chains| - 1]) + |chains[|chains| - 1]|
  }

  /** Every cluster is in exactly one chain or free, and free_clst, if known, is their number. */
  ghost predicate Consistent(s: State) {
    && |s.f| >= 3 && WellFormed(s.f, s.chains)
    && TotalLength(s.chains) + FreeCount(s.f) == |s.f| - 2
    && (s.free <= |s.f| - 2 ==> s.free == FreeCount(s.f))
  }

  /** The effect of one call, as the contracts of CreateChain and RemoveChain state it. */
  ghost predicate Step(eoc: nat, s: State, call: Call, t: State) {
    && |s.f| >= 2
    && match call
       case Create(r) =>
         && CreateResult(s.f, 0, s.last, s.free, r)
         && t == if Allocates(s.f, 0, r)
                 then State(Linked(s.f, 0, r, eoc), s.chains + [[r]], r, FreeAfterCreate(|s.f|, s.free))
                 else s
       case Stretch(i, k, r) =>
         && i < |s.chains| && k < |s.chains[i]|
         && var c := s.chains[i];
            && CreateResult(s.f, c[k], s.last, s.free, r)
            && t == if Allocates(s.f, c[k], r)
                    then State(Linked(s.f, c[k], r, eoc), s.chains[i := c + [r]], r, FreeAfterCreate(|s.f|, s.free))
                    else s
       case Cut(i, k) =>
         && i < |s.chains| && 0 < k < |s.chains[i]| && s.chains[i][k - 1] < |s.f|
         && var c := s.chains[i];
            var e := Truncated(s.f, c, k, eoc);
            t == State(e, s.chains[i := c[..k]], s.last,
                       FreeAfterRemove(|s.f|, s.free, Gain(s.f[c[k - 1] := eoc], e)))
       case Delete(i) =>
         && i < |s.chains| && |s.chains[i]| > 0
         && var e := Removed(s.f, s.chains[i][0]);
            t == State(e, s.chains[..i] + s.chains[i + 1..], s.last, FreeAfterRemove(|s.f|, s.free, Gain(s.f, e)))
       case Scan =>
         t == s.(free := if s.free <= |s.f| - 2 then s.free else FreeCount(s.f))
  }

  function Gain(f: seq<nat>, e: seq<nat>): nat {
    if FreeCount(e) >= FreeCount(f) then FreeCount(e) - FreeCount(f) else 0
  }

  /** A run: every state follows from the one before by a call. */
  ghost predicate Run(eoc: nat, states: seq<State>, calls: seq<Call>) {
    && |states| == |calls| + 1
    && forall i {:trigger calls[i]} :: 0 <= i < |calls| ==> Step(eoc, states[i], calls[i], states[i + 1])
  }

  /** Every state of a run is consistent, and the size of the FAT never changes. */
  lemma {:induction false} RunsStayConsistent(eoc: nat, states: seq<State>, calls: seq<Call>, i: nat)
    requires Run(eoc, states, calls) && Consistent(states[0]) && eoc >= |states[0].f| && i <= |calls|
    ensures Consistent(states[i]) && |states[i].f| == |states[0].f|
  {
    if i > 0 {
      RunsStayConsistent(eoc, states, calls, i - 1);
      StepKeepsConsistent(eoc, states[i - 1], calls[i - 1], states[i]);
    }
  }

  lemma {:induction false} StepKeepsConsistent(eoc: nat, s: State, call: Call, t: State)
    requires Consistent(s) && eoc >= |s.f| && Step(eoc, s, call, t)
    ensures Consistent(t) && |t.f| == |s.f|
  {
    match call
    case Create(r) => CreateKeepsConsistent(eoc, s, r, t);
    case Stretch(i, k, r) => StretchKeepsConsistent(eoc, s, i, k, r, t);
    case Cut(i, k) => CutKeepsConsistent(eoc, s, i, k, t);
    case Delete(i) => DeleteKeepsConsistent(eoc, s, i, t);
    case Scan =>
  }

  lemma {:induction false} CreateKeepsConsistent(eoc: nat, s: State, r: nat, t: State)
    requires Consistent(s) && eoc >= |s.f| && Step(eoc, s, Create(r), t)
    ensures Consistent(t) && |t.f| == |s.f|
  {
    if Allocates(s.f, 0, r) {
      NewChainKeepsWellFormed(s.f, s.chains, r, eoc);
      LinkedCount(s.f, 0, r, eoc);
      assert t.chains[..|t.chains| - 1] == s.chains;
    }
  }

  lemma {:induction false} StretchKeepsConsistent(eoc: nat, s: State, i: nat, k: nat, r: nat, t: State)
    requires Consistent(s) && eoc >= |s.f| && Step(eoc, s, Stretch(i, k, r), t)
    ensures Consistent(t) && |t.f| == |s.f|
  {
    var c := s.chains[i];
    if Allocates(s.f, c[k], r) {
      LastOfChain(s.f, c, k);
      StretchKeepsWellFormed(s.f, s.chains, i, r, eoc);
      LinkedCount(s.f, c[k], r, eoc);
      LengthReplaced(s.chains, i, c + [r]);
    }
  }

  lemma {:induction false} CutKeepsConsistent(eoc: nat, s: State, i: nat, k: nat, t: State)
    requires Consistent(s) && eoc >= |s.f| && Step(eoc, s, Cut(i, k), t)
    ensures Consistent(t) && |t.f| == |s.f|
  {
    var c := s.chains[i];
    TruncateKeepsWellFormed(s.f, s.chains, i, k, eoc);
    TruncatedCount(s.f, c, k, eoc);
    LengthReplaced(s.chains, i, c[..k]);
    ZerosBelow(t.f, |t.f|);
  }

  lemma {:induction false} DeleteKeepsConsistent(eoc: nat, s: State, i: nat, t: State)
    requires Consistent(s) && eoc >= |s.f| && Step(eoc, s, Delete(i), t)
    ensures Consistent(t) && |t.f| == |s.f|
  {
    RemoveKeepsWellFormed(s.f, s.chains, i);
    DeletedCount(s.f, s.chains[i]);
    LengthDropped(s.chains, i);
    ZerosBelow(t.f, |t.f|);
  }

  lemma {:induction false} LastOfChain(f: seq<nat>, c: seq<nat>, k: nat)
    requires IsChain(f, c) && k < |c| && f[c[k]] >= |f|
    ensures k == |c| - 1
  {
    forall j | 0 <= j < |c| - 1
      ensures f[c[j]] < |f|
    {
      assert f[c[j]] == c[j + 1];
    }
  }

  lemma {:induction false} LinkedCount(f: seq<nat>, clst: nat, r: nat, eoc: nat)
    requires Allocates(f, clst, r) && eoc >= |f| && (clst == 0 || clst >= 2)
    ensures FreeCount(Linked(f, clst, r, eoc)) + 1 == FreeCount(f)
  {
    ZerosUpdate(f, |f|, r, eoc);
    if clst != 0 {
      ZerosUpdate(f[r := eoc], |f|, clst, r);
    }
  }

  lemma {:induction false} RemovedCount(f: seq<nat>, c: seq<nat>, k: nat)
    requires ChainFrom(f, c, k) && Distinct(c)
    ensures FreeCount(Removed(f, c[k])) == FreeCount(f) + |c| - k
    decreases |c| - k
  {
    var e := f[c[k] := 0];
    ZerosUpdate(f, |f|, c[k], 0);
    ZerosBelow(e, |f|);
    assert f[c[k]] >= 2 by {
      assert k < |c| - 1 ==> c[k + 1] >= 2;
    }
    assert Removed(f, c[k]) == Removed(e, f[c[k]]);
    if k < |c| - 1 {
      RestOfChain(f, c, k);
      RemovedCount(e, c, k + 1);
    }
  }

  lemma {:induction false} DeletedCount(f: seq<nat>, c: seq<nat>)
    requires IsChain(f, c)
    ensures FreeCount(Removed(f, c[0])) == FreeCount(f) + |c|
  {
    ChainDistinct(f, c);
    RemovedCount(f, c, 0);
  }

  lemma {:induction false} TruncatedCount(f: seq<nat>, c: seq<nat>, k: nat, eoc: nat)
    requires IsChain(f, c) && 0 < k < |c| && eoc >= |f|
    ensures FreeCount(f[c[k - 1] := eoc]) == FreeCount(f)
    ensures FreeCount(Truncated(f, c, k, eoc)) == FreeCount(f) + |c| - k
  {
    ChainDistinct(f, c);
    assert f[c[k - 1]] == c[k];
    MarkedChain(f, c, k, eoc);
    ZerosUpdate(f, |f|, c[k - 1], eoc);
    RemovedCount(f[c[k - 1] := eoc], c, k);
  }

  lemma {:induction false} LengthReplaced(chains: seq<seq<nat>>, i: nat, d: seq<nat>)
    requires i < |chains|
    ensures TotalLength(chains[i := d]) == TotalLength(chains) - |chains[i]| + |d|
  {
    var n := |chains| - 1;
    if i < n {
      assert chains[i := d][..n] == chains[..n][i := d];
      LengthReplaced(chains[..n], i, d);
    } else {
      assert chains[i := d][..n] == chains[..n];
    }
  }

  lemma {:induction false} LengthDropped(chains: seq<seq<nat>>, i: nat)
    requires i < |chains|
    ensures TotalLength(chains[..i] + chains[i + 1..]) == TotalLength(chains) - |chains[i]|
  {
    var n := |chains| - 1;
    var after := chains[..i] + chains[i + 1..];
    if i < n {
      assert after[..n - 1] == chains[..n][..i] + chains[..n][i + 1..];
      LengthDropped(chains[..n], i);
    } else {
      assert after == chains[..n];
    }
  }

  // The calls themselves take the steps ---------------------------------------------------------

  /** The volume is in state s. */
  ghost predicate InState(fs: FatFs, s: State)
    reads fs`lastClst, fs`freeClst, fs`winsect, fs`wflag, fs.win, fs.disk`device
  {
    Ready(fs) && fs.Fat() == s.f && fs.lastClst == s.last && fs.freeClst == s.free && Consistent(s)
  }

  /** create_chain(0): a new object gets its first cluster. */
  method CreateStep(fs: FatFs, ghost s: State) returns (r: nat, ghost t: State)
    requires InState(fs, s)
    modifies fs, fs.win, fs.disk, fs.disk.shared
    ensures InState(fs, t) && Step(Eoc(fs.g), s, Create(r), t)
    ensures OnlyEntries(fs.g, old(fs.Logical()), fs.Logical())
  {
    r := CreateChain(fs, 0);
    t := if Allocates(s.f, 0, r)
         then State(Linked(s.f, 0, r, Eoc(fs.g)), s.chains + [[r]], r, FreeAfterCreate(|s.f|, s.free))
         else s;
    StepKeepsConsistent(Eoc(fs.g), s, Create(r), t);
  }

  /** create_chain on the k-th cluster of object i. */
  method StretchStep(fs: FatFs, clst: nat, ghost s: State, ghost i: nat, ghost k: nat) returns (r: nat, ghost t: State)
    requires InState(fs, s) && i < |s.chains| && k < |s.chains[i]| && clst == s.chains[i][k]
    modifies fs, fs.win, fs.disk, fs.disk.shared
    ensures InState(fs, t) && Step(Eoc(fs.g), s, Stretch(i, k, r), t)
    ensures OnlyEntries(fs.g, old(fs.Logical()), fs.Logical())
  {
    assert IsChain(s.f, s.chains[i]);
    r := CreateChain(fs, clst);
    t := if Allocates(s.f, clst, r)
         then State(Linked(s.f, clst, r, Eoc(fs.g)), s.chains[i := s.chains[i] + [r]], r, FreeAfterCreate(|s.f|, s.free))
         else s;
    StepKeepsConsistent(Eoc(fs.g), s, Stretch(i, k, r), t);
  }

  /** What remove_chain leaves is the state after the step. */
  lemma {:induction false} CutIsStep(eoc: nat, s: State, i: nat, k: nat, f: seq<nat>, free: nat, res: FResult)
    returns (t: State)
    requires Consistent(s) && i < |s.chains| && 0 < k < |s.chains[i]| && eoc >= |s.f| && s.chains[i][k - 1] < |s.f|
    requires WalkResult(Marked(s.f, s.chains[i][k - 1], eoc), s.chains[i][k], s.free, f, free, res)
    ensures Step(eoc, s, Cut(i, k), t) && t.f == f && t.last == s.last && t.free == free && res == FR_OK && Consistent(t)
  {
    var c := s.chains[i];
    assert IsChain(s.f, c);
    TruncatedChain(s.f, c, k, eoc);
    assert Marked(s.f, c[k - 1], eoc) == s.f[c[k - 1] := eoc];
    t := State(f, s.chains[i := c[..k]], s.last, free);
    assert f == Truncated(s.f, c, k, eoc) && Gain(s.f[c[k - 1] := eoc], f) == FreeCount(f) - FreeCount(s.f[c[k - 1] := eoc]);
    StepKeepsConsistent(eoc, s, Cut(i, k), t);
  }

  lemma {:induction false} DeleteIsStep(eoc: nat, s: State, i: nat, f: seq<nat>, free: nat, res: FResult)
    returns (t: State)
    requires Consistent(s) && i < |s.chains| && |s.chains[i]| > 0 && eoc >= |s.f|
    requires WalkResult(s.f, s.chains[i][0], s.free, f, free, res)
    ensures Step(eoc, s, Delete(i), t) && t.f == f && t.last == s.last && t.free == free && res == FR_OK && Consistent(t)
  {
    var c := s.chains[i];
    assert IsChain(s.f, c);
    ChainDistinct(s.f, c);
    RemovedChain(s.f, c, 0);
    t := State(f, s.chains[..i] + s.chains[i + 1..], s.last, free);
    StepKeepsConsistent(eoc, s, Delete(i), t);
  }

  /** remove_chain from the k-th cluster of object i on. */
  method CutStep(fs: FatFs, clst: nat, pclst: nat, ghost s: State, ghost i: nat, ghost k: nat)
    returns (res: FResult, ghost t: State)
    requires InState(fs, s) && i < |s.chains| && 0 < k < |s.chains[i]|
    requires clst == s.chains[i][k] && pclst == s.chains[i][k - 1]
    modifies fs, fs.win, fs.disk, fs.disk.shared
    ensures InState(fs, t) && Step(Eoc(fs.g), s, Cut(i, k), t) && res == FR_OK
    ensures OnlyEntries(fs.g, old(fs.Logical()), fs.Logical())
  {
    assert IsChain(s.f, s.chains[i]);
    res := RemoveChain(fs, clst, pclst);
    t := CutIsStep(Eoc(fs.g), s, i, k, fs.Fat(), fs.freeClst, res);
  }

  /** remove_chain of all clusters of object i. */
  method DeleteStep(fs: FatFs, clst: nat, ghost s: State, ghost i: nat) returns (res: FResult, ghost t: State)
    requires InState(fs, s) && i < |s.chains| && |s.chains[i]| > 0 && clst == s.chains[i][0]
    modifies fs, fs.win, fs.disk, fs.disk.shared
    ensures InState(fs, t) && Step(Eoc(fs.g), s, Delete(i), t) && res == FR_OK
    ensures OnlyEntries(fs.g, old(fs.Logical()), fs.Logical())
  {
    assert IsChain(s.f, s.chains[i]);
    res := RemoveChain(fs, clst, 0);
    assert Marked(s.f, 0, Eoc(fs.g)) == s.f;
    t := DeleteIsStep(Eoc(fs.g), s, i, fs.Fat(), fs.freeClst, res);
  }

  /** In a consistent state no call meets an entry of value 1, and a full disk is reported only when full. */
  lemma {:induction false} CreateFailsOnlyWhenFull(s: State, clst: nat, r: nat)
    requires Consistent(s) && CreateResult(s.f, clst, s.last, s.free, r)
    requires clst == 0 || InSome(s.chains, clst)
    ensures r != 1 && (r == 0 <==> FreeCount(s.f) == 0 && (clst == 0 || s.f[clst] >= |s.f|))
    ensures r != 0 ==> Allocates(s.f, clst, r) || (clst != 0 && r == s.f[clst] && 2 <= r < |s.f|)
  {
    forall x | 2 <= x < |s.f|
      ensures s.f[x] != 1
    {
      EntryNotOne(s.f, s.chains, x);
    }
    if clst != 0 {
      var i :| 0 <= i < |s.chains| && clst in s.chains[i];
      ChainEntry(s.f, s.chains[i], clst);
    }
    NoFreeIffZero(s.f);
    CreateCases(s.f, clst, s.last, s.free, r);
  }

  lemma {:induction false} NoFreeIffZero(f: seq<nat>)
    ensures FreeCount(f) == 0 <==> forall c :: 2 <= c < |f| ==> f[c] != 0
  {
    if FreeCount(f) > 0 {
      var c := ZerosPositive(f, |f|);
    } else {
      forall c | 2 <= c < |f|
        ensures f[c] != 0
      {
        if f[c] == 0 {
          ZerosZero(f, |f|, c);
        }
      }
    }
  }

  lemma {:induction false} CreateCases(f: seq<nat>, clst: nat, last: nat, free: nat, r: nat)
    requires CreateResult(f, clst, last, free, r) && |f| >= 3
    requires clst == 0 || (2 <= clst < |f| && f[clst] >= 2)
    requires forall x :: 2 <= x < |f| ==> f[x] != 1
    requires free == 0 ==> forall c :: 2 <= c < |f| ==> f[c] != 0
    ensures r != 1
    ensures r == 0 <==> (forall c :: 2 <= c < |f| ==> f[c] != 0) && (clst == 0 || f[clst] >= |f|)
    ensures r != 0 ==> Allocates(f, clst, r) || (clst != 0 && r == f[clst] && 2 <= r < |f|)
  {
    if clst != 0 && f[clst] < |f| {
    } else if free == 0 {
    } else if clst != 0 && f[NextCluster(|f|, clst)] == 0 {
    } else if r == 0 {
    } else {
      assert r != 1;
      assert FirstFreeAfter(f, ScanStart(|f|, clst, last), r);
    }
  }

  lemma {:induction false} ChainEntry(f: seq<nat>, c: seq<nat>, x: nat)
    requires IsChain(f, c) && x in c
    ensures 2 <= x < |f| && f[x] >= 2
  {
    var i :| 0 <= i < |c| && c[i] == x;
    assert i < |c| - 1 ==> f[c[i]] == c[i + 1];
  }

  lemma {:induction false} EntryNotOne(f: seq<nat>, chains: seq<seq<nat>>, x: nat)
    requires WellFormed(f, chains) && 2 <= x < |f|
    ensures f[x] != 1
  {
    if f[x] != 0 {
      assert InSome(chains, x);
      var i :| 0 <= i < |chains| && x in chains[i];
      ChainEntry(f, chains[i], x);
    }
  }
}
