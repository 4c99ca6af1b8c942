/** f_getfree: counting the free clusters. */
module GetFree {
  import opened Arith
  import opened Bytes
  import opened BlockIo
  import opened FatEntries
  import opened Volume
  import opened Chains
  import opened Allocator

  /** Zeros among the first n entries, the two reserved ones included. */
  function AllZeros(f: seq<nat>, n: nat): nat
    requires n <= |f|
  {
    if n == 0 then 0 else AllZeros(f, n - 1) + if f[n - 1] == 0 then 1 else 0
  }

  /** What the scan counts: the sector-stepping one starts at entry 0. */
  function Counted(t: FatType, f: seq<nat>): nat {
    if t == FAT12 then FreeCount(f) else AllZeros(f, |f|)
  }

  lemma {:induction false} AllZerosSplit(f: seq<nat>, n: nat)
    requires 2 <= n <= |f|
    ensures AllZeros(f, n) == Zeros(f, n) + (if f[0] == 0 then 1 else 0) + (if f[1] == 0 then 1 else 0)
  {
    if n > 2 {
      AllZerosSplit(f, n - 1);
    } else {
      assert AllZeros(f, 0) == 0;
      assert AllZeros(f, 1) == if f[0] == 0 then 1 else 0;
    }
  }

  /** The count is the number of free clusters exactly if no reserved entry is counted. */
  lemma {:induction false} CountedExactly(t: FatType, f: seq<nat>)
    requires |f| >= 2
    ensures Counted(t, f) == FreeCount(f) <==> t == FAT12 || (f[0] != 0 && f[1] != 0)
  {
    AllZerosSplit(f, |f|);
  }

  /** A FAT16 volume with a zero in entry 0 is reported to have one free cluster too many. */
  lemma {:induction false} ReservedEntryCounted()
    ensures Counted(FAT16, [0, 0xFFFF, 0, 0xFFFF]) == 2 && FreeCount([0, 0xFFFF, 0, 0xFFFF]) == 1
  {
    var f := [0, 0xFFFF, 0, 0xFFFF];
    AllZerosSplit(f, 4);
    assert Zeros(f, 2) == 0 && Zeros(f, 3) == 1 && Zeros(f, 4) == 1;
  }

  /** The volume still shows the FAT f it had when the logical disk was d. */
  ghost predicate Unchanged(fs: FatFs, d: seq<Sector>, f: seq<nat>)
    reads fs`winsect, fs`wflag, fs.win, fs.disk`device
  {
    fs.Valid() && fs.Fat() == f && (fs.disk.reliable ==> fs.Logical() == d)
  }

  /** get_fat and its error values. */
  method CheckEntry(fs: FatFs, clst: nat, ghost d: seq<Sector>, ghost f: seq<nat>) returns (res: FResult, free: bool)
    requires Unchanged(fs, d, f) && 2 <= clst < fs.g.nFatent
    modifies fs`wflag, fs`winsect, fs.win, fs.disk, fs.disk.shared
    ensures Unchanged(fs, d, f)
    ensures res == FR_OK ==> f[clst] != 1 && (free <==> f[clst] == 0)
    ensures fs.disk.reliable ==> (res == FR_OK <==> f[clst] != 1)
  {
    assert f[clst] == Entry(fs.g, fs.Logical(), clst) && EntryLimit(fs.g.fsType) < ANY_ERROR;
    var stat := fs.GetFat(clst);
    free := stat == 0;
    res := if stat == ANY_ERROR then FR_DISK_ERR else if stat == 1 then FR_INT_ERR else FR_OK;
  }

  /** The clusters below clst have been counted. */
  ghost predicate CountedTo(f: seq<nat>, clst: nat, nfree: nat) {
    && 2 <= clst <= |f| && nfree == Zeros(f, clst)
    && forall x :: 2 <= x < clst ==> f[x] != 1
  }

  lemma {:induction false} CountOne(f: seq<nat>, clst: nat, nfree: nat)
    requires CountedTo(f, clst, nfree) && clst < |f| && f[clst] != 1
    ensures CountedTo(f, clst + 1, if f[clst] == 0 then nfree + 1 else nfree)
  {
  }

  lemma {:induction false} CountStarts(f: seq<nat>)
    requires |f| >= 2
    ensures CountedTo(f, 2, 0)
  {
  }

  lemma {:induction false} CountEnds(f: seq<nat>, clst: nat, nfree: nat)
    requires CountedTo(f, clst, nfree) && clst >= |f|
    ensures nfree == FreeCount(f) && NoOnes(f)
  {
  }

  method CountEntry(fs: FatFs, clst: nat, nfree: nat, ghost d: seq<Sector>, ghost f: seq<nat>, ghost clean: bool) returns (res: FResult, n: nat)
    requires Unchanged(fs, d, f) && clst < fs.g.nFatent && CountedTo(f, clst, nfree) && (clean ==> NoOnes(f))
    modifies fs`wflag, fs`winsect, fs.win, fs.disk, fs.disk.shared
    ensures Unchanged(fs, d, f) && (fs.disk.reliable && clean ==> res == FR_OK)
    ensures res == FR_OK ==> CountedTo(f, clst + 1, n)
  {
    var free;
    res, free := CheckEntry(fs, clst, d, f);
    n := if free then nfree + 1 else nfree;
    if res == FR_OK {
      CountOne(f, clst, nfree);
    }
  }

  /** The FAT12 scan, entry by entry from cluster 2 on. */
  method ScanEntries(fs: FatFs, ghost d: seq<Sector>, ghost f: seq<nat>) returns (res: FResult, nfree: nat)
    requires Unchanged(fs, d, f) && fs.g.fsType == FAT12
    modifies fs`wflag, fs`winsect, fs.win, fs.disk, fs.disk.shared
    ensures Unchanged(fs, d, f)
    ensures res == FR_OK ==> nfree == FreeCount(f)
    ensures fs.disk.reliable ==> (res == FR_OK <==> NoOnes(f))
  {
    res, nfree := CountEntries(fs, d, f, NoOnes(f));
    if res == FR_OK {
      CountEnds(f, |f|, nfree);
    }
  }

  method CountEntries(fs: FatFs, ghost d: seq<Sector>, ghost f: seq<nat>, ghost clean: bool) returns (res: FResult, nfree: nat)
    requires Unchanged(fs, d, f) && (clean ==> NoOnes(f))
    modifies fs`wflag, fs`winsect, fs.win, fs.disk, fs.disk.shared
    ensures Unchanged(fs, d, f) && (fs.disk.reliable && clean ==> res == FR_OK)
    ensures res == FR_OK ==> CountedTo(f, |f|, nfree)
  {
    nfree, res := 0, FR_OK;
    CountStarts(f);
    var clst: nat := 2;
    while clst < fs.g.nFatent
      invariant Unchanged(fs, d, f) && CountedTo(f, clst, nfree) && res == FR_OK
    {
      res, nfree := CountEntry(fs, clst, nfree, d, f, clean);
      if res != FR_OK {
        return;
      }
      clst := clst + 1;
    }
  }

  /** Width in bytes of an entry the sector scan steps over. */
  function Step2or4(t: FatType): nat { if t == FAT16 then 2 else 4 }

  /** Offset in the FAT of entry e, for the two types whose entries are whole bytes. */
  function ScanOffset(t: FatType, e: nat): nat { if t == FAT16 then e * 2 else e * 4 }

  /** The entries of a sector do not straddle its end. */
  lemma {:induction false} EntryInside(ss: nat, t: FatType, e: nat)
    requires ss in {512, 1024, 2048, 4096} && t != FAT12
    ensures Rem(ScanOffset(t, e), ss) + Step2or4(t) <= ss
  {
    if t == FAT16 {
      WordPlace(ss, e);
    } else {
      DwordPlace(ss, e);
    }
  }

  /** The place of the next entry. */
  lemma {:induction false} NextEntry(ss: nat, w: nat, k: nat)
    requires w > 0 && ss > 0 && Rem(k, ss) + w <= ss
    ensures Rem(k + w, ss) == Rem(Rem(k, ss) + w, ss)
    ensures Quot(k + w, ss) == if Rem(k + w, ss) == 0 then Quot(k, ss) + 1 else Quot(k, ss)
  {
    var r := Rem(k, ss);
    QuotRem(k, ss);
    if r + w < ss {
      SameUnit(ss, k, w);
    } else {
      QuotUnique(ss, Quot(k, ss) + 1, 0, k + w);
      assert Rem(ss, ss) == Rem(0, ss);
    }
  }

  /** A sector of the FAT, and the place of an entry in it. */
  datatype Spot = Spot(sector: nat, place: nat)

  /** Where entry e is, stepping from entry 0. */
  function SpotAt(g: Layout, e: nat): Spot {
    if e == 0 then Spot(g.fatbase, 0)
    else
      var s := SpotAt(g, e - 1);
      var j := s.place + Step2or4(g.fsType);
      if j >= g.ss then Spot(s.sector + 1, 0) else Spot(s.sector, j)
  }

  lemma {:induction false} SpotIs(g: Layout, e: nat)
    requires g.ss in {512, 1024, 2048, 4096} && g.fsType != FAT12
    ensures SpotAt(g, e) == Spot(g.fatbase + Quot(ScanOffset(g.fsType, e), g.ss), Rem(ScanOffset(g.fsType, e), g.ss))
  {
    if e == 0 {
      assert Quot(0, g.ss) == 0 && Rem(0, g.ss) == 0;
    } else {
      var w, k := Step2or4(g.fsType), ScanOffset(g.fsType, e - 1);
      SpotIs(g, e - 1);
      EntryInside(g.ss, g.fsType, e - 1);
      assert ScanOffset(g.fsType, e) == k + w;
      NextEntry(g.ss, w, k);
      OverEnd(g.ss, Rem(k, g.ss) + w);
    }
  }

  /** A place at most at the end of the sector. */
  lemma {:induction false} OverEnd(ss: nat, j: nat)
    requires 0 < j <= ss
    ensures Rem(j, ss) == if j >= ss then 0 else j
  {
    assert Rem(0, ss) == 0;
  }

  /** ld_word or ld_dword at place i of the window. */
  method WindowEntry(fs: FatFs, ghost e: nat, i: nat) returns (zero: bool)
    requires fs.Valid() && fs.g.fsType != FAT12 && e < fs.g.nFatent && Spot(fs.winsect, i) == SpotAt(fs.g, e)
    ensures zero <==> fs.Fat()[e] == 0
  {
    assert EntryFits(fs.g, e);
    SpotIs(fs.g, e);
    EntryInside(fs.g.ss, fs.g.fsType, e);
    if fs.g.fsType == FAT16 {
      zero := WordIsZero(fs, e, i);
    } else {
      zero := DwordIsZero(fs, e, i);
    }
  }

  method WordIsZero(fs: FatFs, ghost e: nat, i: nat) returns (zero: bool)
    requires fs.Valid() && fs.g.fsType == FAT16 && e < fs.g.nFatent && EntryFits(fs.g, e) && i == Rem(e * 2, fs.g.ss)
    requires fs.winsect == fs.g.fatbase + Quot(e * 2, fs.g.ss)
    ensures zero <==> fs.Fat()[e] == 0
  {
    WordPlace(fs.g.ss, e);
    fs.WindowByte(e * 2);
    fs.WindowByte(e * 2 + 1);
    EntryIs16(fs.g, fs.Logical(), e);
    zero := Word(fs.win[i], fs.win[i + 1]) == 0;
  }

  method DwordIsZero(fs: FatFs, ghost e: nat, i: nat) returns (zero: bool)
    requires fs.Valid() && fs.g.fsType == FAT32 && e < fs.g.nFatent && EntryFits(fs.g, e) && i == Rem(e * 4, fs.g.ss)
    requires fs.winsect == fs.g.fatbase + Quot(e * 4, fs.g.ss) && i + 3 < fs.g.ss
    ensures zero <==> fs.Fat()[e] == 0
  {
    DwordPlace(fs.g.ss, e);
    fs.WindowDword(e);
    EntryIs32(fs.g, fs.Logical(), e);
    zero := Low28(fs.win[i], fs.win[i + 1], fs.win[i + 2], fs.win[i + 3]) == 0;
  }

  /** The next sector of the FAT when the scan reaches its first entry. */
  method NextSector(fs: FatFs, ghost e: nat, i: nat, sect: nat, ghost d: seq<Sector>, ghost f: seq<nat>) returns (res: FResult)
    requires Unchanged(fs, d, f) && fs.g.fsType != FAT12 && e < fs.g.nFatent && AtEntry(fs, e, i, sect)
    modifies fs`wflag, fs`winsect, fs.win, fs.disk, fs.disk.shared
    ensures Unchanged(fs, d, f) && (fs.disk.reliable ==> res == FR_OK)
    ensures res == FR_OK ==> Spot(fs.winsect, i) == SpotAt(fs.g, e)
  {
    res := FR_OK;
    if i == 0 {
      assert EntryFits(fs.g, e);
      SpotIs(fs.g, e);
      ghost var m := fs.Logical();
      res := fs.MoveWindow(sect);
      PrimaryEntries(fs.g, m, fs.Logical());
    }
  }

  /** i += 2 or 4, modulo the sector size. */
  method Onward(fs: FatFs, ghost e: nat, i: nat) returns (j: nat)
    requires fs.Valid() && fs.g.fsType != FAT12 && Spot(fs.winsect, i) == SpotAt(fs.g, e)
    ensures SpotAt(fs.g, e + 1) == Spot(fs.winsect + (if j == 0 then 1 else 0), j)
  {
    var w := Step2or4(fs.g.fsType);
    SpotIs(fs.g, e);
    EntryInside(fs.g.ss, fs.g.fsType, e);
    OverEnd(fs.g.ss, i + w);
    j := Rem(i + w, fs.g.ss);
  }

  /** Entry e is next: at place i of the window, or first of the sector to be loaded. */
  ghost predicate AtEntry(fs: FatFs, e: nat, i: nat, sect: nat)
    reads fs`winsect
  {
    if i == 0 then SpotAt(fs.g, e) == Spot(sect, 0) else SpotAt(fs.g, e) == Spot(fs.winsect, i) && sect == fs.winsect + 1
  }

  /** The counts of zeros before every entry. */
  ghost predicate Tally(f: seq<nat>, z: seq<nat>) {
    |z| == |f| + 1 && forall k: nat {:trigger AllZeros(f, k)} :: k <= |f| ==> AllZeros(f, k) == z[k]
  }

  ghost function TallyOf(f: seq<nat>): (z: seq<nat>)
    ensures Tally(f, z) && z[0] == 0 && z[|f|] == AllZeros(f, |f|)
  {
    var z := seq(|f| + 1, k requires 0 <= k <= |f| => AllZeros(f, k));
    assert z[0] == AllZeros(f, 0);
    z
  }

  lemma {:induction false} TallyNext(f: seq<nat>, z: seq<nat>, e: nat)
    requires Tally(f, z) && e < |f|
    ensures z[e + 1] == z[e] + if f[e] == 0 then 1 else 0
  {
    assert AllZeros(f, e + 1) == AllZeros(f, e) + if f[e] == 0 then 1 else 0;
  }

  /** Before entry e. */
  ghost predicate Scanning(fs: FatFs, z: seq<nat>, e: nat, i: nat, sect: nat, nfree: nat)
    reads fs`winsect
  {
    e < |z| && nfree == z[e] && AtEntry(fs, e, i, sect)
  }

  /** One entry of the scan. */
  method ScanOne(fs: FatFs, ghost e: nat, i: nat, sect: nat, nfree: nat, ghost d: seq<Sector>, ghost f: seq<nat>, ghost z: seq<nat>)
    returns (res: FResult, j: nat, next: nat, n: nat)
    requires Unchanged(fs, d, f) && fs.g.fsType != FAT12 && Tally(f, z)
    requires e < fs.g.nFatent && Scanning(fs, z, e, i, sect, nfree)
    modifies fs`wflag, fs`winsect, fs.win, fs.disk, fs.disk.shared
    ensures Unchanged(fs, d, f) && (fs.disk.reliable ==> res == FR_OK)
    ensures res == FR_OK ==> Scanning(fs, z, e + 1, j, next, n)
  {
    TallyNext(f, z, e);
    j, next, n := i, sect, nfree;
    res := NextSector(fs, e, i, sect, d, f);
    if res != FR_OK {
      return;
    }
    if i == 0 {
      next := sect + 1;
    }
    var zero := WindowEntry(fs, e, i);
    if zero {
      n := nfree + 1;
    }
    j := Onward(fs, e, i);
  }

  /** The FAT16 and FAT32 scan, sector by sector from entry 0 on. */
  method ScanSectors(fs: FatFs, ghost d: seq<Sector>, ghost f: seq<nat>) returns (res: FResult, nfree: nat)
    requires Unchanged(fs, d, f) && fs.g.fsType != FAT12
    modifies fs`wflag, fs`winsect, fs.win, fs.disk, fs.disk.shared
    ensures Unchanged(fs, d, f) && (fs.disk.reliable ==> res == FR_OK)
    ensures res == FR_OK ==> nfree == AllZeros(f, |f|)
  {
    ghost var z := TallyOf(f);
    res, nfree := ScanOn(fs, d, f, z);
  }

  /** The loop of the sector scan. */
  method ScanOn(fs: FatFs, ghost d: seq<Sector>, ghost f: seq<nat>, ghost z: seq<nat>) returns (res: FResult, nfree: nat)
    requires Unchanged(fs, d, f) && fs.g.fsType != FAT12 && Tally(f, z) && z[0] == 0
    modifies fs`wflag, fs`winsect, fs.win, fs.disk, fs.disk.shared
    ensures Unchanged(fs, d, f) && (fs.disk.reliable ==> res == FR_OK)
    ensures res == FR_OK ==> nfree == z[fs.g.nFatent]
  {
    nfree, res := 0, FR_OK;
    var sect, i, clst: nat := fs.g.fatbase, 0, fs.g.nFatent;
    ghost var e: nat := 0;
    while clst > 0
      invariant Unchanged(fs, d, f) && e + clst == fs.g.nFatent && res == FR_OK
      invariant Scanning(fs, z, e, i, sect, nfree)
    {
      res, i, sect, nfree := ScanOne(fs, e, i, sect, nfree, d, f, z);
      if res != FR_OK {
        return;
      }
      clst, e := clst - 1, e + 1;
    }
  }

  /** f_getfree: the noted number, or a scan of the FAT. */
  method GetFree(fs: FatFs) returns (res: FResult, nclst: nat)
    requires fs.Valid()
    modifies fs`wflag, fs`winsect, fs`freeClst, fs`fsiDirty, fs.win, fs.disk, fs.disk.shared
    ensures fs.Valid() && fs.Fat() == old(fs.Fat())
    ensures res == FR_OK ==> nclst == fs.freeClst
    ensures res == FR_OK ==>
              fs.freeClst == if old(fs.freeClst) <= fs.g.nFatent - 2 then old(fs.freeClst) else Counted(fs.g.fsType, fs.Fat())
    ensures res != FR_OK ==> fs.freeClst == old(fs.freeClst)
    ensures fs.disk.reliable ==> fs.Logical() == old(fs.Logical())
    ensures fs.disk.reliable ==>
              (res == FR_OK <==> old(fs.freeClst) <= fs.g.nFatent - 2 || fs.g.fsType != FAT12 || NoOnes(fs.Fat()))
  {
    if fs.freeClst <= fs.g.nFatent - 2 {
      return FR_OK, fs.freeClst;
    }
    ghost var d, f := fs.Logical(), fs.Fat();
    if fs.g.fsType == FAT12 {
      res, nclst := ScanEntries(fs, d, f);
    } else {
      res, nclst := ScanSectors(fs, d, f);
    }
    if res == FR_OK {
      fs.freeClst := nclst;
      fs.fsiDirty := true;
    }
  }

  /** After f_getfree the number of free clusters is known and right, unless a reserved entry was counted. */
  method ScanStep(fs: FatFs, ghost s: State) returns (res: FResult, nclst: nat, ghost t: State)
    requires InState(fs, s)
    requires fs.g.fsType == FAT12 || (s.f[0] != 0 && s.f[1] != 0)
    modifies fs, fs.win, fs.disk, fs.disk.shared
    ensures InState(fs, t) && Step(Eoc(fs.g), s, Scan, t) && res == FR_OK && nclst == FreeCount(s.f)
    ensures fs.Logical() == old(fs.Logical())
  {
    ScanAllowed(s);
    CountedExactly(fs.g.fsType, s.f);
    res, nclst := GetFree(fs);
    t := s.(free := if s.free <= |s.f| - 2 then s.free else FreeCount(s.f));
    StepKeepsConsistent(Eoc(fs.g), s, Scan, t);
  }

  lemma {:induction false} ScanAllowed(s: State)
    requires Consistent(s)
    ensures NoOnes(s.f)
  {
    forall x | 2 <= x < |s.f|
      ensures s.f[x] != 1
    {
      EntryNotOne(s.f, s.chains, x);
    }
  }
}
