/** f_read, f_write and f_lseek on one open file, for error-free runs of the disk. */
module FileIo {
  import opened Arith
  import opened Bytes
  import opened BlockIo
  import opened FatEntries
  import opened Volume
  import opened Chains
  import opened Allocator
  import opened FileImage

  /** The FAT entries of a file form its chain. */
  ghost predicate OwnsChain(f: seq<nat>, sclust: nat, chain: seq<nat>) {
    && NoOnes(f)
    && if chain == [] then sclust == 0 else IsChain(f, chain) && chain[0] == sclust
  }

  /** The sector the window shows is not one of the file. */
  ghost predicate Away(g: Layout, chain: seq<nat>, winsect: nat)
    requires g.csize > 0 && forall i :: 0 <= i < |chain| ==> chain[i] >= 2
  {
    forall k: nat :: InChain(g, chain, k) ==> FileSector(g, chain, k) != winsect
  }

  /** No cluster is free, or free_clst says so. */
  ghost predicate DiskFull(fs: FatFs)
    requires fs.Valid()
    reads fs`freeClst, fs`winsect, fs`wflag, fs.win, fs.disk`device
  {
    fs.freeClst == 0 || forall y :: 2 <= y < fs.g.nFatent ==> fs.Fat()[y] != 0
  }

  /** free_clst, if it is a number of clusters at all, is that of the free ones. */
  ghost predicate CountTold(f: seq<nat>, free: nat) {
    |f| >= 2 && (free <= |f| - 2 ==> free == FreeCount(f))
  }

  /** The chain of one file grew by free clusters; no other entry of the FAT changed. */
  ghost predicate FatGrew(f: seq<nat>, e: seq<nat>, chain: seq<nat>, longer: seq<nat>) {
    && |e| == |f| && chain <= longer
    && (forall x :: 0 <= x < |f| && x !in longer ==> e[x] == f[x])
    && (forall i :: |chain| <= i < |longer| ==> longer[i] < |f| && f[longer[i]] == 0)
  }

  lemma {:induction false} FatGrewTransitive(f: seq<nat>, e: seq<nat>, h: seq<nat>,
                                             a: seq<nat>, b: seq<nat>, c: seq<nat>)
    requires FatGrew(f, e, a, b) && FatGrew(e, h, b, c)
    requires Distinct(c)
    ensures FatGrew(f, h, a, c)
  {
    forall x | 0 <= x < |f| && x !in c
      ensures h[x] == f[x]
    {
      assert x !in b by {
        assert forall i :: 0 <= i < |b| ==> b[i] == c[i];
      }
    }
    forall i | |a| <= i < |c|
      ensures c[i] < |f| && f[c[i]] == 0
    {
      if i < |b| {
        assert b[i] == c[i];
      } else {
        assert c[i] !in b by {
          assert forall j: nat :: j < |b| ==> b[j] == c[j] && Different(c, j, i);
        }
      }
    }
  }

  /** The file kept its data, its chain at most grew, and nothing else on the volume changed. */
  ghost predicate Kept(m: Image, f: seq<nat>, e: Image, h: seq<nat>) {
    SameData(m, e) && OthersUntouched(m, e) && FatGrew(f, h, m.chain, e.chain)
  }

  lemma {:induction false} KeptTransitive(a: Image, f: seq<nat>, b: Image, g: seq<nat>, c: Image, h: seq<nat>)
    requires Kept(a, f, b, g) && Kept(b, g, c, h)
    ensures Kept(a, f, c, h)
  {
    SameDataTransitive(a, b, c);
    OthersUntouchedTransitive(a, b, c);
    FatGrewTransitive(f, g, h, a.chain, b.chain, c.chain);
  }

  /** Size of a file of `size` bytes after writing up to position `end`. */
  function Grown(size: nat, end: nat): nat { if size < end then end else size }

  /** w was written at position p of the file; the rest of the volume is as Kept says. */
  ghost predicate Wrote(m: Image, f: seq<nat>, size: nat, p: nat, w: seq<byte>, e: Image, h: seq<nat>, size': nat) {
    && ValidImage(m) && ValidImage(e) && Allocated(m.g, m.chain, size) && Allocated(e.g, e.chain, size')
    && p <= size && size' == Grown(size, p + |w|)
    && Contents(e, size') == Overwrite(Contents(m, size), p, w)
    && OthersUntouched(m, e) && FatGrew(f, h, m.chain, e.chain)
  }

  lemma {:induction false} KeptThenWrote(a: Image, f: seq<nat>, b: Image, g: seq<nat>, size: nat, p: nat, w: seq<byte>,
                                         c: Image, h: seq<nat>, size': nat)
    requires Kept(a, f, b, g) && Wrote(b, g, size, p, w, c, h, size') && Allocated(a.g, a.chain, size)
    ensures Wrote(a, f, size, p, w, c, h, size')
  {
    SameContents(a, b, size);
    OthersUntouchedTransitive(a, b, c);
    FatGrewTransitive(f, g, h, a.chain, b.chain, c.chain);
  }

  lemma {:induction false} WroteTwice(a: Image, f: seq<nat>, s0: nat, p: nat, v: seq<byte>, b: Image, g: seq<nat>, s1: nat,
                                      q: nat, w: seq<byte>, c: Image, h: seq<nat>, s2: nat)
    requires Wrote(a, f, s0, p, v, b, g, s1) && Wrote(b, g, s1, q, w, c, h, s2) && q == p + |v|
    ensures Wrote(a, f, s0, p, v + w, c, h, s2)
  {
    OverwriteTwice(Contents(a, s0), p, v, w);
    OthersUntouchedTransitive(a, b, c);
    FatGrewTransitive(f, g, h, a.chain, b.chain, c.chain);
  }

  /** A turn of the loop of f_write continues the bytes written so far. */
  lemma {:induction false} WroteMore(a: Image, f: seq<nat>, s0: nat, p: nat, buff: seq<byte>, bw: nat, btw: nat, n: nat,
                                     done: nat, b: Image, g: seq<nat>, s1: nat, q: nat,
                                     c: Image, h: seq<nat>, s2: nat)
    requires bw + btw <= |buff| && n <= btw && q == p + bw && done == bw + n
    requires Wrote(a, f, s0, p, buff[..bw], b, g, s1) && Wrote(b, g, s1, q, buff[bw..bw + btw][..n], c, h, s2)
    ensures Wrote(a, f, s0, p, buff[..done], c, h, s2)
  {
    WroteTwice(a, f, s0, p, buff[..bw], b, g, s1, q, buff[bw..bw + btw][..n], c, h, s2);
    assert buff[..bw] + buff[bw..bw + btw][..n] == buff[..done];
  }

  lemma {:induction false} NothingWrote(a: Image, f: seq<nat>, b: Image, g: seq<nat>, size: nat, p: nat, w: seq<byte>)
    requires Kept(a, f, b, g) && Allocated(a.g, a.chain, size) && p <= size
    ensures Wrote(a, f, size, p, w[..0], b, g, size)
  {
    SameContents(a, b, size);
    OverwriteNothing(Contents(a, size), p, w);
  }

  lemma {:induction false} OverwriteNothing(c: seq<byte>, p: nat, w: seq<byte>)
    requires p <= |c|
    ensures Overwrite(c, p, w[..0]) == c
  {
  }

  lemma {:induction false} ReplacedWrote(m: Image, f: seq<nat>, e: Image, size: nat, p: nat, w: seq<byte>, size': nat)
    requires p <= size && Allocated(m.g, m.chain, size) && size' == Grown(size, p + |w|)
    requires Replaced(m, e, p, w, size') && OthersUntouched(m, e)
    ensures Wrote(m, f, size, p, w, e, f, size')
  {
    ReplacedContents(m, e, p, w, size, size');
  }

  /** create_chain on the cluster before the one wanted: the next of the chain, or a new one. */
  lemma {:induction false} FollowOrStretch(f: seq<nat>, chain: seq<nat>, x: int, last: nat, free: nat, r: nat, eoc: nat)
    requires NoOnes(f) && |f| >= 3 && eoc >= |f| && -1 <= x < |chain|
    requires if x == -1 then chain == [] else IsChain(f, chain)
    requires CreateResult(f, if x == -1 then 0 else chain[x], last, free, r)
    ensures var c := if x == -1 then 0 else chain[x];
            && c < |f|
            && if Allocates(f, c, r)
               then x == |chain| - 1 && IsChain(Linked(f, c, r, eoc), chain + [r]) && NoOnes(Linked(f, c, r, eoc))
                    && r !in chain && FatGrew(f, Linked(f, c, r, eoc), chain, chain + [r])
               else if r == 0
                    then x == |chain| - 1 && (free == 0 || forall y :: 2 <= y < |f| ==> f[y] != 0)
                    else x + 1 < |chain| && chain[x + 1] == r
  {
    var c := if x == -1 then 0 else chain[x];
    if x >= 0 {
      ChainEntry(f, chain, c);
      assert x < |chain| - 1 ==> f[c] == chain[x + 1];
    }
    if Allocates(f, c, r) {
      StretchedByFree(f, chain, x, r, eoc);
    }
  }

  lemma {:induction false} StretchedByFree(f: seq<nat>, chain: seq<nat>, x: int, r: nat, eoc: nat)
    requires NoOnes(f) && |f| >= 3 && eoc >= |f| && -1 <= x < |chain|
    requires if x == -1 then chain == [] else IsChain(f, chain)
    requires Allocates(f, if x == -1 then 0 else chain[x], r)
    ensures var c := if x == -1 then 0 else chain[x];
            && x == |chain| - 1 && IsChain(Linked(f, c, r, eoc), chain + [r]) && NoOnes(Linked(f, c, r, eoc))
            && r !in chain && FatGrew(f, Linked(f, c, r, eoc), chain, chain + [r])
  {
    var c := if x == -1 then 0 else chain[x];
    if x >= 0 {
      NotInChain(f, chain, r);
      LastOfChain(f, chain, x);
      StretchedChain(f, chain, r, eoc);
      assert (chain + [r])[x] == c;
    }
    assert (chain + [r])[|chain|] == r;
  }

  /** The file after create_chain: its chain and first cluster. */
  lemma {:induction false} StretchedFile(f: seq<nat>, chain: seq<nat>, x: int, last: nat, free: nat, r: nat,
                                         eoc: nat, e: seq<nat>, sclust: nat) returns (longer: seq<nat>)
    requires OwnsChain(f, sclust, chain) && |f| >= 3 && eoc >= |f| && -1 <= x < |chain| && (x == -1 ==> chain == [])
    requires CreateResult(f, if x == -1 then 0 else chain[x], last, free, r)
    requires var c := if x == -1 then 0 else chain[x];
             c < |f| && e == if Allocates(f, c, r) then Linked(f, c, r, eoc) else f
    ensures longer == if Allocates(f, if x == -1 then 0 else chain[x], r) then chain + [r] else chain
    ensures OwnsChain(e, if sclust == 0 then r else sclust, longer) && FatGrew(f, e, chain, longer)
    ensures if r == 0
            then x == |chain| - 1 && longer == chain && (free == 0 || forall y :: 2 <= y < |f| ==> f[y] != 0)
            else x + 1 < |longer| && longer[x + 1] == r
  {
    FollowOrStretch(f, chain, x, last, free, r, eoc);
    longer := if Allocates(f, if x == -1 then 0 else chain[x], r) then chain + [r] else chain;
  }

  /** The invariant of an open file: its chain in the FAT f, its first cluster, and the buffered sector. */
  ghost predicate FileInv(m: Image, f: seq<nat>, winsect: nat, sclust: nat, sect: nat) {
    && ValidImage(m) && |f| == m.g.nFatent && OwnsChain(f, sclust, m.chain) && Away(m.g, m.chain, winsect)
    && (m.dirty ==> sect != 0)
    && (sect != 0 ==> InChain(m.g, m.chain, m.cur) && sect == FileSector(m.g, m.chain, m.cur)
                      && m.g.database <= sect < |m.d|)
  }

  /** A clean buffer equals its sector on the disk. */
  ghost predicate Fresh(m: Image, sect: nat) {
    sect != 0 && !m.dirty ==> sect < |m.d| && m.buf == m.d[sect]
  }

  /** The count stays right. */
  lemma {:induction false} CountStretched(f: seq<nat>, c: nat, last: nat, free: nat, r: nat, eoc: nat)
    requires CountTold(f, free) && CreateResult(f, c, last, free, r) && eoc >= |f|
    ensures Allocates(f, c, r) ==> CountTold(Linked(f, c, r, eoc), FreeAfterCreate(|f|, free))
  {
    if Allocates(f, c, r) {
      LinkedCount(f, c, r, eoc);
    }
  }

  /** create_chain, and what it does to the chain of one file. */
  method GrowFat(fs: FatFs, c: nat, ghost chain: seq<nat>, ghost x: int, ghost sclust: nat)
    returns (r: nat, ghost longer: seq<nat>)
    requires Ready(fs) && OwnsChain(fs.Fat(), sclust, chain) && -1 <= x < |chain|
    requires if x == -1 then chain == [] && c == 0 else c == chain[x]
    modifies fs, fs.win, fs.disk, fs.disk.shared
    ensures Ready(fs) && OnlyEntries(fs.g, old(fs.Logical()), fs.Logical())
    ensures OwnsChain(fs.Fat(), if sclust == 0 then r else sclust, longer)
    ensures FatGrew(old(fs.Fat()), fs.Fat(), chain, longer) && (longer == [] ==> chain == [])
    ensures CountTold(old(fs.Fat()), old(fs.freeClst)) ==> CountTold(fs.Fat(), fs.freeClst)
    ensures (longer == chain && fs.winsect == old(fs.winsect)) || InFat1(fs.g, fs.winsect)
    ensures if r == 0
            then x == |chain| - 1 && longer == chain
                 && DiskFull(fs)
            else x + 1 < |longer| && longer[x + 1] == r
  {
    ghost var f, last, free := fs.Fat(), fs.lastClst, fs.freeClst;
    r := CreateChain(fs, c);
    if CountTold(f, free) {
      CountStretched(f, c, last, free, r, Eoc(fs.g));
    }
    longer := StretchedFile(f, chain, x, last, free, r, Eoc(fs.g), fs.Fat(), sclust);
  }

  lemma {:induction false} StretchedImage(m: Image, d: seq<Sector>, f: seq<nat>, longer: seq<nat>, w: nat, w': nat)
    requires ValidImage(m) && Away(m.g, m.chain, w) && m.chain <= longer && |f| == m.g.nFatent
    requires Shaped(m.g, d) && |d| == |m.d| && OnlyEntries(m.g, m.d, d)
    requires longer == m.chain || IsChain(f, longer)
    requires (longer == m.chain && w' == w) || InFat1(m.g, w')
    ensures Away(m.g, longer, w')
    ensures var e := m.(d := d, chain := longer); SameData(m, e) && OthersUntouched(m, e)
  {
    if longer != m.chain {
      ChainDataClusters(m.g, |m.d|, f, longer);
    }
    var e := m.(d := d, chain := longer);
    forall k: nat | InChain(m.g, longer, k)
      ensures FileSector(m.g, longer, k) != w'
    {
      FileSectorOnDevice(m.g, |m.d|, longer, k);
    }
    GrownSame(m, e);
  }

  lemma {:induction false} StretchedInv(m: Image, f: seq<nat>, w: nat, sclust: nat, sect: nat,
                                        d: seq<Sector>, f': seq<nat>, longer: seq<nat>, w': nat, sclust': nat)
    requires FileInv(m, f, w, sclust, sect) && Fresh(m, sect) && m.chain <= longer && |f'| == |f|
    requires Shaped(m.g, d) && |d| == |m.d| && OnlyEntries(m.g, m.d, d) && OwnsChain(f', sclust', longer)
    requires (longer == m.chain && w' == w) || InFat1(m.g, w')
    ensures var e := m.(d := d, chain := longer);
            && FileInv(e, f', w', sclust', sect) && Fresh(e, sect)
            && SameData(m, e) && OthersUntouched(m, e)
  {
    StretchedImage(m, d, f', longer, w, w');
    if sect != 0 {
      assert m.chain[Quot(m.cur, m.g.csize)] == longer[Quot(m.cur, m.g.csize)];
    }
  }

  /** The file after a direct write of r at disk sector sct, the clean buffer being kept up to date. */
  ghost function RefreshedImage(m: Image, sect: nat, sct: nat, r: seq<Sector>): Image
    requires sct + |r| <= |m.d|
  {
    m.(d := Splice(m.d, sct, r), buf := if sct <= sect < sct + |r| then r[sect - sct] else m.buf)
  }

  lemma {:induction false} SplicedInv(m: Image, f: seq<nat>, w: nat, sclust: nat, sect: nat, sct: nat, r: seq<Sector>)
    requires FileInv(m, f, w, sclust, sect) && !m.dirty && m.g.database <= sct && sct + |r| <= |m.d|
    requires Fresh(m, sect) || (sect == sct && |r| == 1)
    requires forall j :: 0 <= j < |r| ==> |r[j]| == m.g.ss
    ensures var e := RefreshedImage(m, sect, sct, r); FileInv(e, f, w, sclust, sect) && Fresh(e, sect)
  {
  }

  /** The length f_write lets through from position p: the file stays below 4 GiB. */
  function ClippedLength(p: nat, n: nat): (c: nat)
    requires p < TWO32 && n < TWO32
    ensures c <= n && p + c < TWO32 && (p + n < TWO32 ==> c == n)
  {
    if (p + n) % TWO32 < p then TWO32 - 1 - p else n
  }

  /** A write that goes beyond 4 GiB is cut at the last byte below. */
  lemma {:induction false} ClippedExactly(p: nat, n: nat)
    requires p < TWO32 && n < TWO32
    ensures ClippedLength(p, n) == if p + n <= 0xFFFF_FFFF then n else 0xFFFF_FFFF - p
  {
  }

  /** FIL. */
  class Fil {
    const fs: FatFs
    const buf: array<byte>
    const canRead: bool     // FA_READ
    const canWrite: bool    // FA_WRITE
    var dirty: bool         // FA_DIRTY
    var modified: bool      // FA_MODIFIED
    var sclust: nat
    var objsize: nat
    var fptr: nat
    var clust: nat          // cluster of byte fptr - 1
    var sect: nat           // disk sector in buf[], 0 if none
    ghost const exact: bool // free_clst is known to be right, or unknown
    ghost var chain: seq<nat>
    ghost var cur: nat      // number in the file of the sector in buf[]

    ghost function Img(): (m: Image)
      requires fs.Valid()
      reads this`chain, this`dirty, this`cur, buf, fs`winsect, fs`wflag, fs.win, fs.disk`device
      ensures m.g == fs.g && m.d == fs.Logical() && m.chain == chain
    {
      Image(fs.g, fs.Logical(), chain, dirty, cur, buf[..])
    }

    /** The chain, and the place in it of the sector in the buffer. */
    ghost predicate Base()
      reads this`chain, this`dirty, this`cur, this`sclust, this`sect
      reads buf, fs`freeClst, fs`winsect, fs`wflag, fs.win, fs.disk`device
    {
      && Ready(fs) && buf != fs.win && FileInv(Img(), fs.Fat(), fs.winsect, sclust, sect)
      && (exact ==> CountTold(fs.Fat(), fs.freeClst))
    }

    /** What holds throughout: a clean buffer is a copy of its sector. */
    ghost predicate Core()
      reads this`chain, this`dirty, this`cur, this`sclust, this`sect
      reads buf, fs`freeClst, fs`winsect, fs`wflag, fs.win, fs.disk`device
    {
      Base() && Fresh(Img(), sect)
    }

    /** Position p of a file of `size` bytes, with the caches that belong to it. */
    ghost predicate Placed(p: nat, size: nat)
      reads this`chain, this`sect, this`cur, this`clust
    {
      && Allocated(fs.g, chain, size) && p <= size < TWO32
      && (p > 0 ==> InFile(fs.g, chain, p - 1) && clust == ClusterOfByte(fs.g, chain, p - 1))
      && (Rem(p, fs.g.ss) != 0 ==> sect != 0 && cur == Quot(p, fs.g.ss))
    }

    /** What holds between calls. */
    ghost predicate Valid()
      reads this`chain, this`dirty, this`cur, this`sclust, this`sect, this`clust, this`fptr, this`objsize
      reads buf, fs`freeClst, fs`winsect, fs`wflag, fs.win, fs.disk`device
    {
      Core() && Placed(fptr, objsize)
    }

    /** No cluster is free: so says free_clst or the FAT, and so it is if the count is right. */
    ghost predicate Full()
      requires fs.Valid()
      reads fs`freeClst, fs`winsect, fs`wflag, fs.win, fs.disk`device
    {
      DiskFull(fs) && (exact ==> FreeCount(fs.Fat()) == 0)
    }

    lemma {:induction false} FullIsFull()
      requires Core() && DiskFull(fs)
      ensures Full()
    {
      NoFreeIffZero(fs.Fat());
    }

    /** The file as a sequence of bytes. */
    ghost function Content(): (c: seq<byte>)
      requires Valid()
      reads this`chain, this`dirty, this`cur, this`sclust, this`sect, this`clust, this`fptr, this`objsize
      reads buf, fs`freeClst, fs`winsect, fs`wflag, fs.win, fs.disk`device
      ensures |c| == objsize
    {
      Contents(Img(), objsize)
    }

    /** The state f_open leaves: position 0 and an empty buffer. */
    constructor (fs: FatFs, buf: array<byte>, read: bool, write: bool, sclust: nat, objsize: nat,
                 ghost chain: seq<nat>, ghost exact: bool)
      requires exact ==> Ready(fs) && CountTold(fs.Fat(), fs.freeClst)
      requires Ready(fs) && buf != fs.win && buf.Length == fs.g.ss && objsize < TWO32
      requires DataClusters(fs.g, |fs.disk.device|, chain) && OwnsChain(fs.Fat(), sclust, chain)
      requires Away(fs.g, chain, fs.winsect) && Allocated(fs.g, chain, objsize)
      ensures Valid() && this.fs == fs && this.buf == buf && this.chain == chain && this.exact == exact
      ensures fptr == 0 && this.objsize == objsize && canRead == read && canWrite == write && !dirty
    {
      this.fs, this.buf, canRead, canWrite := fs, buf, read, write;
      dirty, modified := false, false;
      this.sclust, this.objsize, fptr, clust, sect := sclust, objsize, 0, 0, 0;
      this.chain, cur, this.exact := chain, 0, exact;
      new;
      assert Rem(0, fs.g.ss) == 0;
    }

    /** create_chain for this file: after the x-th cluster of the chain, or the first if x is -1. */
    method StretchChain(c: nat, ghost x: int) returns (r: nat)
      requires Core() && -1 <= x < |chain|
      requires if x == -1 then chain == [] && c == 0 else c == chain[x]
      modifies this`chain, this`sclust, fs, fs.win, fs.disk, fs.disk.shared
      ensures Core() && FatGrew(old(fs.Fat()), fs.Fat(), old(chain), chain)
      ensures SameData(old(Img()), Img()) && OthersUntouched(old(Img()), Img())
      ensures if r == 0
              then x == |chain| - 1 && chain == old(chain)
                   && DiskFull(fs)
              else x + 1 < |chain| && chain[x + 1] == r
    {
      ghost var m, f, w := Img(), fs.Fat(), fs.winsect;
      ghost var longer;
      r, longer := GrowFat(fs, c, chain, x, sclust);
      StretchedInv(m, f, w, sclust, sect, fs.Logical(), fs.Fat(), longer, fs.winsect,
                   if sclust == 0 then r else sclust);
      AdoptChain(r, longer, Img().(chain := longer));
    }

    /** The file has the chain e.chain, whose first cluster is r if it had none. */
    method AdoptChain(r: nat, ghost longer: seq<nat>, ghost e: Image)
      requires Ready(fs) && buf != fs.win && e == Img().(chain := longer) && (exact ==> CountTold(fs.Fat(), fs.freeClst))
      requires FileInv(e, fs.Fat(), fs.winsect, if sclust == 0 then r else sclust, sect) && Fresh(e, sect)
      modifies this`chain, this`sclust
      ensures Core() && Img() == e && chain == longer && fs.Fat() == old(fs.Fat())
    {
      chain := longer;
      if sclust == 0 {
        sclust := r;
      }
    }

    /** Write the sector in the buffer back if it is dirty. */
    method Flush()
      requires Core()
      modifies this`dirty, fs.disk, fs.disk.shared
      ensures Core() && !dirty && fs.Fat() == old(fs.Fat())
      ensures SameData(old(Img()), Img()) && OthersUntouched(old(Img()), Img())
    {
      if dirty {
        ghost var m := Img();
        FlushSame(m);
        SplicedInv(m.(dirty := false), fs.Fat(), fs.winsect, sclust, sect, sect, [buf[..]]);
        var data := buf[..];
        QuotRem(cur, fs.g.csize);
        WriteSectors([data], sect, chain[Quot(cur, fs.g.csize)], Rem(cur, fs.g.csize));
        dirty := false;
        assert m.d[sect := m.buf] == Splice(m.d, sect, [data]);
        assert Img() == RefreshedImage(m.(dirty := false), sect, sect, [data]);
      }
    }

    /** n whole sectors from sector k of the file on, written past the buffer. */
    method WriteDirect(ghost k: nat, ghost at: nat, sct: nat, w: seq<byte>, n: nat, ghost size: nat)
      requires Core() && !dirty && InChain(fs.g, chain, k) && sct == FileSector(fs.g, chain, k)
      requires n > 0 && Rem(k, fs.g.csize) + n <= fs.g.csize && |w| == Times(n, fs.g.ss)
      requires at == Times(k, fs.g.ss) && Allocated(fs.g, chain, size)
      modifies buf, fs.disk, fs.disk.shared
      ensures Core() && !dirty && fs.Fat() == old(fs.Fat())
      ensures Replaced(old(Img()), Img(), at, w, size)
      ensures OthersUntouched(old(Img()), Img())
    {
      ghost var m := Img();
      DirectRange(k, n);
      var r := Slices(w, fs.g.ss, n);
      PutSectors(r, sct, chain[Quot(k, fs.g.csize)], Rem(k, fs.g.csize));
      DirectWrite(m, Img(), k, at, w, n, r, size);
      DirectOutside(m, Img(), k, r);
    }

    /** disk_write of file sectors, and the buffer refreshed if it holds one of them. */
    method PutSectors(r: seq<Sector>, sct: nat, ghost c: nat, ghost o: nat)
      requires Core() && !dirty && fs.g.database <= sct && sct + |r| <= |fs.disk.device| && fs.Run(sct, |r|, c, o)
      requires !(sct <= fs.winsect < sct + |r|) && forall j :: 0 <= j < |r| ==> |r[j]| == fs.g.ss
      modifies buf, fs.disk, fs.disk.shared
      ensures Core() && !dirty && fs.Fat() == old(fs.Fat())
      ensures fs.Logical() == Splice(old(fs.Logical()), sct, r)
    {
      ghost var m := Img();
      WriteSectors(r, sct, c, o);
      RefillFrom(r, sct);
      PutDone(m, r, sct);
    }

    /** The invariant for the file after the write. */
    lemma {:induction false} PutDone(m: Image, r: seq<Sector>, sct: nat)
      requires Ready(fs) && buf != fs.win && FileInv(m, fs.Fat(), fs.winsect, sclust, sect) && Fresh(m, sect) && !m.dirty
      requires m.g == fs.g && m.chain == chain && m.cur == cur && !dirty && (exact ==> CountTold(fs.Fat(), fs.freeClst))
      requires m.g.database <= sct && sct + |r| <= |m.d| && forall j :: 0 <= j < |r| ==> |r[j]| == fs.g.ss
      requires fs.Logical() == Splice(m.d, sct, r) && buf[..] == if sct <= sect < sct + |r| then r[sect - sct] else m.buf
      ensures Core()
    {
      SplicedInv(m, fs.Fat(), fs.winsect, sclust, sect, sct, r);
      assert Img() == RefreshedImage(m, sect, sct, r);
    }

    /** The buffer refreshed if it holds one of the sectors r, written from sct on. */
    method RefillFrom(r: seq<Sector>, sct: nat)
      requires buf.Length == fs.g.ss && sect < TWO32 && sct + |r| < TWO32 && forall j :: 0 <= j < |r| ==> |r[j]| == fs.g.ss
      modifies buf
      ensures buf[..] == if sct <= sect < sct + |r| then r[sect - sct] else old(buf[..])
    {
      Sub32Range(sect, sct, |r|);
      if Sub32(sect, sct) < |r| {
        Refill(r[sect - sct]);
      }
    }

    /** disk_write of data sectors. */
    method WriteSectors(r: seq<Sector>, sct: nat, ghost c: nat, ghost o: nat)
      requires Base() && fs.g.database <= sct && sct + |r| <= |fs.disk.device| && fs.Run(sct, |r|, c, o)
      requires !(sct <= fs.winsect < sct + |r|) && forall j :: 0 <= j < |r| ==> |r[j]| == fs.g.ss
      modifies fs.disk, fs.disk.shared
      ensures Ready(fs) && buf[..] == old(buf[..]) && fs.Fat() == old(fs.Fat())
      ensures fs.Logical() == Splice(old(fs.Logical()), sct, r)
    {
      ghost var d := fs.Logical();
      fs.WriteData(r, sct, c, o);
      FatFrame(fs.g, d, fs.Logical());
    }

    /** memcpy of a whole sector into the buffer. */
    method Refill(s: Sector)
      requires |s| == buf.Length
      modifies buf
      ensures buf[..] == s
    {
      forall i | 0 <= i < buf.Length { buf[i] := s[i]; }
    }

    /** The buffer gets sector k of the file; it is read from the disk only if `fill` is set. */
    method LoadSector(k: nat, sct: nat, fill: bool)
      requires Core() && !dirty && InChain(fs.g, chain, k) && sct == FileSector(fs.g, chain, k)
      modifies this`sect, this`cur, buf, fs.disk, fs.disk.shared
      ensures Base() && sect == sct != 0 && cur == k && fs.Logical() == old(fs.Logical())
      ensures fill ==> buf[..] == fs.Logical()[sct]
    {
      QuotRem(k, fs.g.csize);
      SectorRange(fs.g, |fs.disk.device|, chain, k, 1, fs.winsect);
      if sect != sct && fill {
        var data := fs.ReadData(sct, 1, chain[Quot(k, fs.g.csize)], Rem(k, fs.g.csize));
        assert data[0] == fs.Logical()[sct];
        Refill(data[0]);
      }
      sect, cur := sct, k;
    }

    /** memcpy of bytes into the buffer. */
    method StoreBytes(j: nat, w: seq<byte>)
      requires Base() && sect != 0 && j + |w| <= fs.g.ss
      modifies this`dirty, buf
      ensures Core() && dirty && buf[..] == Splice(old(buf[..]), j, w) && fs.Logical() == old(fs.Logical())
    {
      forall i | 0 <= i < |w| { buf[j + i] := w[i]; }
      dirty := true;
    }

    /** The buffer shows its sector of the file. */
    lemma {:induction false} BufferShows()
      requires Core() && sect != 0
      ensures SectorData(Img(), cur) == buf[..]
    {
    }

    /** Bytes within one sector, through the buffer. */
    method WriteBuffered(k: nat, sct: nat, j: nat, w: seq<byte>, boundary: bool, ghost newSize: nat)
      requires Core() && Allocated(fs.g, chain, newSize) && InChain(fs.g, chain, k)
      requires j + |w| <= fs.g.ss && fptr == Times(k, fs.g.ss) + j
      requires if boundary then !dirty && j == 0 && sct == FileSector(fs.g, chain, k) else sect != 0 && cur == k
      requires newSize == if objsize < fptr + |w| then fptr + |w| else objsize
      modifies this`sect, this`cur, this`dirty, buf, fs.disk, fs.disk.shared
      ensures Core() && dirty && sect != 0 && cur == k && fs.Fat() == old(fs.Fat())
      ensures Replaced(old(Img()), Img(), fptr, w, newSize) && OthersUntouched(old(Img()), Img())
      ensures fs.Logical() == old(fs.Logical())
    {
      ghost var m := Img();
      if boundary {
        LoadSector(k, sct, fptr < objsize);
        assert fptr < objsize ==> buf[..] == SectorData(m, k);
      } else {
        BufferShows();
      }
      StoreLoaded(m, k, j, fptr, w, newSize);
    }

    /** The memcpy of f_write, when the buffer stands for sector k of the file m. */
    method StoreLoaded(ghost m: Image, ghost k: nat, j: nat, ghost at: nat, w: seq<byte>, ghost newSize: nat)
      requires Base() && sect != 0 && cur == k && j + |w| <= fs.g.ss
      requires ValidImage(m) && m.g == fs.g && m.d == fs.Logical() && m.chain == chain && (m.dirty ==> m.cur == k)
      requires buf[..] == SectorData(m, k) || (objsize <= Times(k, fs.g.ss) && j == 0)
      requires at == Times(k, fs.g.ss) + j && Allocated(fs.g, chain, newSize)
      requires newSize == if objsize < at + |w| then at + |w| else objsize
      modifies this`dirty, buf
      ensures Core() && dirty && fs.Logical() == old(fs.Logical())
      ensures Replaced(m, Img(), at, w, newSize)
    {
      ghost var base := buf[..];
      StoreBytes(j, w);
      assert Img() == m.(dirty := true, cur := k, buf := Splice(base, j, w));
      BufferedWrite(m, Img(), k, j, at, base, w, objsize, newSize);
    }

    // f_write ---------------------------------------------------------------------------------

    /** In the middle of a transfer: the current cluster is that of the byte at the position. */
    ghost predicate Positioned()
      reads this`chain, this`dirty, this`cur, this`sclust, this`sect, this`clust, this`fptr, this`objsize
      reads buf, fs`freeClst, fs`winsect, fs`wflag, fs.win, fs.disk`device
    {
      && Core() && Allocated(fs.g, chain, objsize) && fptr <= objsize < TWO32
      && InFile(fs.g, chain, fptr) && clust == ClusterOfByte(fs.g, chain, fptr)
    }

    /** Index in the chain of the cluster before the one that starts at the position. */
    ghost function Before(): int
      requires fs.Valid()
      reads this`fptr, fs`winsect, fs`wflag, fs.win, fs.disk`device
    {
      if fptr == 0 then -1 else Quot(Quot(fptr - 1, fs.g.ss), fs.g.csize)
    }

    lemma {:induction false} AfterBefore()
      requires fs.Valid() && Rem(fptr, fs.g.ss) == 0 && Rem(Quot(fptr, fs.g.ss), fs.g.csize) == 0
      ensures Quot(Quot(fptr, fs.g.ss), fs.g.csize) == Before() + 1
    {
      if fptr > 0 {
        NextClusterOf(fs.g.ss, fs.g.csize, fptr);
      }
    }

    /** At a cluster boundary: go on to the next cluster, stretching the chain at its end. */
    method NextWriteCluster() returns (ok: bool)
      requires Valid() && Rem(fptr, fs.g.ss) == 0 && Rem(Quot(fptr, fs.g.ss), fs.g.csize) == 0
      modifies this`chain, this`sclust, this`clust, fs, fs.win, fs.disk, fs.disk.shared
      ensures Ready(fs) && Kept(old(Img()), old(fs.Fat()), Img(), fs.Fat())
      ensures if ok then Positioned() else Valid() && DiskFull(fs)
    {
      AfterBefore();
      if fptr == 0 && sclust != 0 {
        UseFirst();
        ok := true;
      } else {
        var r := StretchNext();
        ok := r != 0;
        if ok {
          clust := r;
        }
      }
    }

    /** The first cluster of a file that has one. */
    method UseFirst()
      requires Valid() && fptr == 0 && sclust != 0
      modifies this`clust
      ensures Positioned() && Kept(old(Img()), old(fs.Fat()), Img(), fs.Fat())
    {
      GrownSame(Img(), Img());
      clust := sclust;
    }

    /** create_chain for the cluster at the position. */
    method StretchNext() returns (r: nat)
      requires Valid() && Rem(fptr, fs.g.ss) == 0 && Rem(Quot(fptr, fs.g.ss), fs.g.csize) == 0
      requires fptr != 0 || sclust == 0
      modifies this`chain, this`sclust, fs, fs.win, fs.disk, fs.disk.shared
      ensures Core() && Allocated(fs.g, chain, objsize)
      ensures Kept(old(Img()), old(fs.Fat()), Img(), fs.Fat())
      ensures if r == 0 then chain == old(chain) && DiskFull(fs)
              else InFile(fs.g, chain, fptr) && r == ClusterOfByte(fs.g, chain, fptr)
    {
      AfterBefore();
      ghost var m := Img();
      r := StretchChain(if fptr == 0 then 0 else clust, Before());
      SameContents(m, Img(), objsize);
    }

    /** On the sector boundary: the cluster, the old sector written back, and the disk sector to use. */
    method EnterSector() returns (ok: bool, sct: nat)
      requires Valid() && Rem(fptr, fs.g.ss) == 0
      modifies this`chain, this`sclust, this`clust, this`dirty, fs, fs.win, fs.disk, fs.disk.shared
      ensures Ready(fs) && Kept(old(Img()), old(fs.Fat()), Img(), fs.Fat())
      ensures if ok then Positioned() && !dirty && sct == FileSector(fs.g, chain, Quot(fptr, fs.g.ss))
              else Valid() && DiskFull(fs)
    {
      ghost var m, f := Img(), fs.Fat();
      var csect := Rem(Quot(fptr, fs.g.ss), fs.g.csize);
      ok, sct := true, 0;
      if csect == 0 {
        ok := NextWriteCluster();
      } else {
        StayInCluster();
      }
      if ok {
        ghost var m1, f1 := Img(), fs.Fat();
        sct := FlushHere(csect);
        KeptTransitive(m, f, m1, f1, Img(), fs.Fat());
      }
    }

    /** Flush while in a cluster, and clst2sect of it. */
    method FlushHere(csect: nat) returns (sct: nat)
      requires Positioned() && csect == Rem(Quot(fptr, fs.g.ss), fs.g.csize)
      modifies this`dirty, fs.disk, fs.disk.shared
      ensures Positioned() && !dirty && sct == FileSector(fs.g, chain, Quot(fptr, fs.g.ss))
      ensures Kept(old(Img()), old(fs.Fat()), Img(), fs.Fat())
    {
      ghost var m := Img();
      Flush();
      SameContents(m, Img(), objsize);
      sct := ClusterSector(fs.g, clust) + csect;
    }

    lemma {:induction false} StayInCluster()
      requires Valid() && Rem(fptr, fs.g.ss) == 0 && Rem(Quot(fptr, fs.g.ss), fs.g.csize) != 0
      ensures Positioned() && Kept(Img(), fs.Fat(), Img(), fs.Fat())
    {
      assert fptr > 0 by { assert Quot(0, fs.g.ss) == 0 && Rem(0, fs.g.csize) == 0; }
      SameClusterOf(fs.g, chain, fptr);
      GrownSame(Img(), Img());
    }

    lemma {:induction false} RoomForSectors(cc: nat, next: nat)
      requires Positioned() && Rem(fptr, fs.g.ss) == 0 && next == fptr + Times(cc, fs.g.ss)
      requires cc > 0 && Rem(Quot(fptr, fs.g.ss), fs.g.csize) + cc <= fs.g.csize
      ensures next > fptr == Times(Quot(fptr, fs.g.ss), fs.g.ss) && Rem(next, fs.g.ss) == 0
      ensures Allocated(fs.g, chain, Grown(objsize, next))
      ensures InFile(fs.g, chain, next - 1) && clust == ClusterOfByte(fs.g, chain, next - 1)
    {
      LastOfSectors(fs.g, chain, fptr, cc);
      AllocatedUpTo(fs.g, chain, objsize, next - 1);
      QuotRem(fptr, fs.g.ss);
    }

    lemma {:induction false} RoomInSector(next: nat)
      requires Positioned() && next > fptr && Rem(fptr, fs.g.ss) + (next - fptr) <= fs.g.ss
      ensures fptr == Times(Quot(fptr, fs.g.ss), fs.g.ss) + Rem(fptr, fs.g.ss)
      ensures Allocated(fs.g, chain, Grown(objsize, next))
      ensures InFile(fs.g, chain, next - 1) && clust == ClusterOfByte(fs.g, chain, next - 1)
      ensures Rem(next, fs.g.ss) != 0 ==> Quot(next, fs.g.ss) == Quot(fptr, fs.g.ss)
    {
      LastInSector(fs.g, chain, fptr, next - fptr);
      AllocatedUpTo(fs.g, chain, objsize, next - 1);
      QuotRem(fptr, fs.g.ss);
    }

    /** The whole sectors of w, directly to the disk. */
    method WriteWhole(sct: nat, w: seq<byte>, cc: nat)
      requires Positioned() && !dirty && Rem(fptr, fs.g.ss) == 0
      requires sct == FileSector(fs.g, chain, Quot(fptr, fs.g.ss))
      requires cc > 0 && Rem(Quot(fptr, fs.g.ss), fs.g.csize) + cc <= fs.g.csize && |w| == Times(cc, fs.g.ss)
      requires fptr + |w| < TWO32
      modifies this`fptr, this`objsize, buf, fs.disk, fs.disk.shared
      ensures Valid() && fptr == old(fptr) + |w|
      ensures Wrote(old(Img()), old(fs.Fat()), old(objsize), old(fptr), w, Img(), fs.Fat(), objsize)
    {
      ghost var m, f, next := Img(), fs.Fat(), fptr + |w|;
      ghost var size := Grown(objsize, next);
      RoomForSectors(cc, next);
      WriteDirect(Quot(fptr, fs.g.ss), fptr, sct, w, cc, size);
      ReplacedWrote(m, f, Img(), objsize, fptr, w, size);
      Advance(|w|, next);
    }

    /** The state in which the position may move on to `next`, past bytes just written. */
    ghost predicate CanAdvance(next: nat)
      reads this`chain, this`dirty, this`cur, this`sclust, this`sect, this`clust, this`fptr, this`objsize
      reads buf, fs`freeClst, fs`winsect, fs`wflag, fs.win, fs.disk`device
    {
      Core() && Placed(next, Grown(objsize, next))
    }

    /** Moving the position past bytes just written. */
    method Advance(n: nat, ghost next: nat)
      requires n > 0 && next == fptr + n && CanAdvance(next)
      modifies this`fptr, this`objsize
      ensures Valid() && fptr == next && Img() == old(Img()) && fs.Fat() == old(fs.Fat())
      ensures objsize == Grown(old(objsize), next)
    {
      fptr, objsize := fptr + n, Grown(objsize, fptr + n);
    }

    /** Bytes of w within one sector, through the buffer. */
    method WritePart(sct: nat, w: seq<byte>, boundary: bool)
      requires Positioned() && |w| > 0 && Rem(fptr, fs.g.ss) + |w| <= fs.g.ss && fptr + |w| < TWO32
      requires boundary <==> Rem(fptr, fs.g.ss) == 0
      requires if boundary then !dirty && sct == FileSector(fs.g, chain, Quot(fptr, fs.g.ss))
               else sect != 0 && cur == Quot(fptr, fs.g.ss)
      modifies this`fptr, this`objsize, this`sect, this`cur, this`dirty, buf, fs.disk, fs.disk.shared
      ensures Valid() && fptr == old(fptr) + |w|
      ensures Wrote(old(Img()), old(fs.Fat()), old(objsize), old(fptr), w, Img(), fs.Fat(), objsize)
    {
      ghost var next := fptr + |w|;
      BufferPart(Quot(fptr, fs.g.ss), sct, Rem(fptr, fs.g.ss), w, boundary, next);
      Advance(|w|, next);
    }

    method BufferPart(k: nat, sct: nat, j: nat, w: seq<byte>, boundary: bool, ghost next: nat)
      requires Positioned() && |w| > 0 && j + |w| <= fs.g.ss && next == fptr + |w| < TWO32
      requires k == Quot(fptr, fs.g.ss) && j == Rem(fptr, fs.g.ss) && (boundary <==> j == 0)
      requires if boundary then !dirty && sct == FileSector(fs.g, chain, k) else sect != 0 && cur == k
      modifies this`sect, this`cur, this`dirty, buf, fs.disk, fs.disk.shared
      ensures CanAdvance(next)
      ensures Wrote(old(Img()), old(fs.Fat()), objsize, fptr, w, Img(), fs.Fat(), Grown(objsize, next))
    {
      ghost var m, f, size := Img(), fs.Fat(), Grown(objsize, next);
      RoomInSector(next);
      WriteBuffered(k, sct, j, w, boundary, size);
      ReplacedWrote(m, f, Img(), objsize, fptr, w, size);
    }

    /** One turn of the loop of f_write: bytes written, 0 if the disk is full. */
    method WriteTurn(w: seq<byte>) returns (wcnt: nat)
      requires Valid() && |w| > 0 && fptr + |w| < TWO32
      modifies this, buf, fs, fs.win, fs.disk, fs.disk.shared
      ensures Valid() && wcnt <= |w| && fptr == old(fptr) + wcnt
      ensures Wrote(old(Img()), old(fs.Fat()), old(objsize), old(fptr), w[..wcnt], Img(), fs.Fat(), objsize)
      ensures wcnt == 0 ==> DiskFull(fs)
    {
      ghost var m, f, size, p := Img(), fs.Fat(), objsize, fptr;
      var boundary := Rem(fptr, fs.g.ss) == 0;
      var ok, sct := true, 0;
      if boundary {
        ok, sct := EnterSector();
      } else {
        StayInSector();
      }
      ghost var m1, f1 := Img(), fs.Fat();
      wcnt := 0;
      if ok {
        wcnt := WriteHere(w, boundary, sct);
        KeptThenWrote(m, f, m1, f1, size, p, w[..wcnt], Img(), fs.Fat(), objsize);
      } else {
        NothingWrote(m, f, m1, f1, size, p, w);
      }
    }

    /** The rest of the turn: as many whole sectors as the cluster holds, or part of one sector. */
    method WriteHere(w: seq<byte>, boundary: bool, sct: nat) returns (wcnt: nat)
      requires Positioned() && |w| > 0 && fptr + |w| < TWO32 && (boundary <==> Rem(fptr, fs.g.ss) == 0)
      requires if boundary then !dirty && sct == FileSector(fs.g, chain, Quot(fptr, fs.g.ss))
               else sect != 0 && cur == Quot(fptr, fs.g.ss)
      modifies this`fptr, this`objsize, this`sect, this`cur, this`dirty, buf, fs.disk, fs.disk.shared
      ensures Valid() && 0 < wcnt <= |w| && fptr == old(fptr) + wcnt
      ensures Wrote(old(Img()), old(fs.Fat()), old(objsize), old(fptr), w[..wcnt], Img(), fs.Fat(), objsize)
    {
      var place := Rem(fptr, fs.g.ss);
      QuotRem(fptr, fs.g.ss);
      if boundary {
        var csect := Rem(Quot(fptr, fs.g.ss), fs.g.csize);
        var cc := Quot(|w|, fs.g.ss);
        if cc > 0 {
          cc, wcnt := ClipToCluster(csect, cc, |w|);
          WriteWhole(sct, w[..wcnt], cc);
          return;
        }
      }
      wcnt := fs.g.ss - place;
      if wcnt > |w| {
        wcnt := |w|;
      }
      WritePart(sct, w[..wcnt], boundary);
    }

    /** Whole sectors of a direct transfer of n bytes, clipped at the end of the cluster. */
    method ClipToCluster(csect: nat, sectors: nat, n: nat) returns (cc: nat, bytes: nat)
      requires fs.Valid() && csect == Rem(Quot(fptr, fs.g.ss), fs.g.csize) && sectors == Quot(n, fs.g.ss) > 0
      ensures 0 < cc <= sectors && csect + cc <= fs.g.csize && 0 < bytes == Times(cc, fs.g.ss) <= n
      ensures cc == sectors || csect + cc == fs.g.csize
    {
      QuotRem(Quot(fptr, fs.g.ss), fs.g.csize);
      QuotRem(n, fs.g.ss);
      cc := sectors;
      if csect + cc > fs.g.csize {
        cc := fs.g.csize - csect;
      }
      bytes := Times(cc, fs.g.ss);
      TimesMono(cc, sectors, fs.g.ss);
      TimesMono(0, cc, fs.g.ss);
    }

    lemma {:induction false} StayInSector()
      requires Valid() && Rem(fptr, fs.g.ss) != 0
      ensures Positioned() && Kept(Img(), fs.Fat(), Img(), fs.Fat())
    {
      assert fptr > 0 by { assert Rem(0, fs.g.ss) == 0; }
      SameClusterOf(fs.g, chain, fptr);
      GrownSame(Img(), Img());
    }

    /** The loop of f_write, for the first `total` bytes of buff. */
    method WriteLoop(buff: seq<byte>, total: nat) returns (bw: nat)
      requires Valid() && total <= |buff| && fptr + total < TWO32
      modifies this, buf, fs, fs.win, fs.disk, fs.disk.shared
      ensures Valid() && bw <= total && fptr == old(fptr) + bw
      ensures Wrote(old(Img()), old(fs.Fat()), old(objsize), old(fptr), buff[..bw], Img(), fs.Fat(), objsize)
      ensures bw < total ==> DiskFull(fs)
    {
      ghost var m, f, size, p := Img(), fs.Fat(), objsize, fptr;
      bw := 0;
      Idle(buff);
      var btw: nat := total;
      while btw > 0
        invariant Valid() && bw + btw == total && fptr == p + bw
        invariant Wrote(m, f, size, p, buff[..bw], Img(), fs.Fat(), objsize)
      {
        var done := WriteMore(buff, bw, btw, m, f, size, p);
        if done == bw {
          break;
        }
        btw, bw := btw - (done - bw), done;
      }
    }

    /** A turn of the loop after `bw` bytes have been written. */
    method WriteMore(buff: seq<byte>, bw: nat, btw: nat, ghost m: Image, ghost f: seq<nat>, ghost size: nat, ghost p: nat)
      returns (done: nat)
      requires Valid() && 0 < btw && bw + btw <= |buff| && fptr == p + bw && fptr + btw < TWO32
      requires Wrote(m, f, size, p, buff[..bw], Img(), fs.Fat(), objsize)
      modifies this, buf, fs, fs.win, fs.disk, fs.disk.shared
      ensures Valid() && bw <= done <= bw + btw && fptr == p + done
      ensures Wrote(m, f, size, p, buff[..done], Img(), fs.Fat(), objsize)
      ensures done == bw ==> DiskFull(fs)
    {
      ghost var m1, f1, s1, q := Img(), fs.Fat(), objsize, fptr;
      var w := buff[bw..bw + btw];
      var wcnt := WriteTurn(w);
      done := bw + wcnt;
      WroteMore(m, f, size, p, buff, bw, btw, wcnt, done, m1, f1, s1, q, Img(), fs.Fat(), objsize);
    }

    /** The loop, and the change flag. */
    method WriteAllowed(buff: seq<byte>, total: nat) returns (bw: nat)
      requires Valid() && total <= |buff| && fptr + total < TWO32
      modifies this, buf, fs, fs.win, fs.disk, fs.disk.shared
      ensures Valid() && bw <= total && fptr == old(fptr) + bw
      ensures Wrote(old(Img()), old(fs.Fat()), old(objsize), old(fptr), buff[..bw], Img(), fs.Fat(), objsize)
      ensures bw < total ==> DiskFull(fs)
    {
      ghost var m, f, size, p := Img(), fs.Fat(), objsize, fptr;
      bw := WriteLoop(buff, total);
      SetModified(m, f, size, p, buff[..bw]);
    }

    method SetModified(ghost m: Image, ghost f: seq<nat>, ghost size: nat, ghost p: nat, ghost w: seq<byte>)
      requires Valid() && Wrote(m, f, size, p, w, Img(), fs.Fat(), objsize)
      modifies this`modified
      ensures Valid() && Wrote(m, f, size, p, w, Img(), fs.Fat(), objsize)
    {
      modified := true;
    }

    /**
     * f_write.  Fewer bytes than asked for are written only at the 4 GiB limit of a FAT file or
     * when no cluster is free.
     */
    method Write(buff: seq<byte>) returns (res: FResult, bw: nat)
      requires Valid() && |buff| < TWO32
      modifies this, buf, fs, fs.win, fs.disk, fs.disk.shared
      ensures Valid() && res == if canWrite then FR_OK else FR_DENIED
      ensures bw <= (if canWrite then ClippedLength(old(fptr), |buff|) else 0) && fptr == old(fptr) + bw
      ensures Wrote(old(Img()), old(fs.Fat()), old(objsize), old(fptr), buff[..bw], Img(), fs.Fat(), objsize)
      ensures Content() == Overwrite(old(Content()), old(fptr), buff[..bw])
      ensures canWrite && bw < ClippedLength(old(fptr), |buff|) ==> Full()
    {
      if !canWrite {
        Idle(buff);
        return FR_DENIED, 0;
      }
      res := FR_OK;
      bw := WriteAllowed(buff, ClippedLength(fptr, |buff|));
      if DiskFull(fs) {
        FullIsFull();
      }
    }

    lemma {:induction false} Idle(buff: seq<byte>)
      requires Valid()
      ensures Wrote(Img(), fs.Fat(), objsize, fptr, buff[..0], Img(), fs.Fat(), objsize)
    {
      GrownSame(Img(), Img());
      NothingWrote(Img(), fs.Fat(), Img(), fs.Fat(), objsize, fptr, buff);
    }

    /** The sectors of a direct transfer: on the device, in one cluster, not in the window. */
    lemma {:induction false} DirectRange(k: nat, n: nat)
      requires Core() && InChain(fs.g, chain, k) && n > 0 && Rem(k, fs.g.csize) + n <= fs.g.csize
      ensures var s := FileSector(fs.g, chain, k);
              && fs.g.database <= s && s + n <= |fs.disk.device| && n <= fs.g.csize
              && !(s <= fs.winsect < s + n)
    {
      SectorRange(fs.g, |fs.disk.device|, chain, k, n, fs.winsect);
    }
  }

  lemma {:induction false} SectorRange(g: Layout, total: nat, chain: seq<nat>, k: nat, n: nat, w: nat)
    requires DataClusters(g, total, chain) && InChain(g, chain, k) && n > 0 && Rem(k, g.csize) + n <= g.csize
    requires Away(g, chain, w)
    ensures var s := FileSector(g, chain, k); g.database <= s && s + n <= total && !(s <= w < s + n)
  {
    var s := FileSector(g, chain, k);
    FileSectorOnDevice(g, total, chain, k);
    SameCluster(g, chain, k, n - 1);
    FileSectorOnDevice(g, total, chain, k + (n - 1));
    if s <= w < s + n {
      SameCluster(g, chain, k, w - s);
    }
  }
}
