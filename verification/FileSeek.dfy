/** f_lseek without a link map, for error-free runs of the disk. */
module FileSeek {
  import opened Arith
  import opened Bytes
  import opened BlockIo
  import opened FatEntries
  import opened Volume
  import opened FileImage
  import opened FileIo
  import opened FileRead

  /** Bytes of a cluster. */
  function ClusterBytes(g: Layout): nat { Times(g.csize, g.ss) }

  /** Byte i is in cluster x of the chain, at sector Quot(o, ss) of it. */
  lemma {:induction false} PlaceInCluster(g: Layout, x: nat, o: nat, i: nat)
    requires g.ss > 0 && g.csize > 0 && o < ClusterBytes(g) && i == Times(x, ClusterBytes(g)) + o
    ensures Quot(Quot(i, g.ss), g.csize) == x && Rem(Quot(i, g.ss), g.csize) == Quot(o, g.ss)
    ensures Rem(i, g.ss) == Rem(o, g.ss)
  {
    QuotUnique(ClusterBytes(g), x, o, i);
    QuotQuot(i, g.ss, g.csize);
    QuotRem(i, g.ss);
    QuotUnique(g.ss, Rem(Quot(i, g.ss), g.csize), Rem(i, g.ss), o);
  }

  /** The last of o bytes of cluster x, and the byte after. */
  lemma {:induction false} LastInCluster(g: Layout, chain: seq<nat>, x: nat, o: nat, p: nat)
    requires g.ss > 0 && g.csize > 0 && 0 < o <= ClusterBytes(g) && p == Times(x, ClusterBytes(g)) + o
    requires x < |chain| && forall i :: 0 <= i < |chain| ==> chain[i] >= 2
    ensures p > 0 && InFile(g, chain, p - 1) && ClusterOfByte(g, chain, p - 1) == chain[x]
    ensures Rem(p, g.ss) == Rem(o, g.ss)
    ensures Rem(o, g.ss) != 0 ==> InFile(g, chain, p) && o < ClusterBytes(g)
    ensures Rem(o, g.ss) != 0 ==> FileSector(g, chain, Quot(p, g.ss)) == ClusterSector(g, chain[x]) + Quot(o, g.ss)
  {
    PlaceInCluster(g, x, o - 1, p - 1);
    if o < ClusterBytes(g) {
      PlaceInCluster(g, x, o, p);
    } else {
      TimesTimes(x + 1, g.csize, g.ss);
      QuotUnique(g.ss, Times(x + 1, g.csize), 0, p);
      QuotUnique(g.ss, g.csize, 0, o);
    }
  }

  /** The target of f_lseek: below 4 GiB, and within a file that is not open for writing. */
  function Target(fp: Fil, ofs: nat): (t: nat)
    requires fp.objsize < TWO32
    reads fp`objsize
    ensures t < TWO32 && (!fp.canWrite ==> t <= fp.objsize)
  {
    var t := if ofs >= TWO32 then TWO32 - 1 else ofs;
    if t > fp.objsize && !fp.canWrite then fp.objsize else t
  }

  /** In the loop of f_lseek: at the start of cluster x, `rest` bytes before the target. */
  ghost predicate Seeking(fp: Fil, size: nat, x: nat, rest: nat)
    reads fp, fp.buf, fp.fs`freeClst, fp.fs`winsect, fp.fs`wflag, fp.fs.win, fp.fs.disk`device
  {
    && fp.Core() && Allocated(fp.fs.g, fp.chain, fp.objsize) && x < |fp.chain| && fp.clust == fp.chain[x]
    && fp.fptr == Times(x, ClusterBytes(fp.fs.g)) && 0 < rest && fp.fptr + rest < TWO32
    && size < TWO32 && fp.objsize == (if fp.canWrite then Grown(size, fp.fptr) else size)
    && (!fp.canWrite ==> fp.fptr + rest <= size)
  }

  /** Forward from the current cluster. */
  method SeekForward(fp: Fil, ofs: nat, ghost x: nat) returns (rest: nat)
    requires fp.Valid() && 0 < fp.fptr && 0 < ofs < TWO32 && (!fp.canWrite ==> ofs <= fp.objsize)
    requires ClusterBytes(fp.fs.g) > 0 && x == Quot(fp.fptr - 1, ClusterBytes(fp.fs.g))
    requires Quot(ofs - 1, ClusterBytes(fp.fs.g)) >= x
    modifies fp`fptr
    ensures Seeking(fp, fp.objsize, x, rest) && fp.fptr + rest == ofs
  {
    QuotQuot(fp.fptr - 1, fp.fs.g.ss, fp.fs.g.csize);
    QuotRem(fp.fptr - 1, ClusterBytes(fp.fs.g));
    QuotBelow(ClusterBytes(fp.fs.g), ofs - 1, x);
    fp.fptr := Times(Quot(fp.fptr - 1, ClusterBytes(fp.fs.g)), ClusterBytes(fp.fs.g));
    rest := ofs - fp.fptr;
  }

  /** The file ends with cluster x, the position is the end of that cluster, and no cluster is free. */
  ghost predicate Stopped(fp: Fil, size: nat, x: int)
    reads fp, fp.buf, fp.fs`freeClst, fp.fs`winsect, fp.fs`wflag, fp.fs.win, fp.fs.disk`device
  {
    && fp.Core() && Allocated(fp.fs.g, fp.chain, fp.objsize) && DiskFull(fp.fs)
    && x + 1 == |fp.chain| && (x >= 0 ==> fp.clust == fp.chain[x])
    && fp.fptr == Times(x + 1, ClusterBytes(fp.fs.g)) && fp.fptr < TWO32
    && size < TWO32 && fp.objsize == Grown(size, fp.fptr)
  }

  /** From the first cluster, which is allocated if there is none. */
  method SeekFirst(fp: Fil, ofs: nat) returns (clst: nat)
    requires fp.Core() && Allocated(fp.fs.g, fp.chain, fp.objsize) && fp.objsize < TWO32 && fp.fptr == 0
    requires 0 < ofs < TWO32 && (!fp.canWrite ==> ofs <= fp.objsize)
    modifies fp`chain, fp`sclust, fp`clust, fp.fs, fp.fs.win, fp.fs.disk, fp.fs.disk.shared
    ensures if clst == 0 then Stopped(fp, fp.objsize, -1) && fp.canWrite else Seeking(fp, fp.objsize, 0, ofs)
    ensures Kept(old(fp.Img()), old(fp.fs.Fat()), fp.Img(), fp.fs.Fat())
  {
    ghost var m := fp.Img();
    assert fp.objsize > 0 ==> InFile(fp.fs.g, fp.chain, 0);
    clst := fp.sclust;
    if clst == 0 {
      clst := fp.StretchChain(0, -1);
    } else {
      GrownSame(m, m);
    }
    SameContents(m, fp.Img(), fp.objsize);
    fp.clust := clst;
  }

  /** Everything up to the end of cluster x is allocated. */
  lemma {:induction false} AllocatedCluster(g: Layout, chain: seq<nat>, size: nat, x: nat)
    requires Allocated(g, chain, size) && x < |chain| && forall i :: 0 <= i < |chain| ==> chain[i] >= 2
    ensures Times(x + 1, ClusterBytes(g)) == Times(x, ClusterBytes(g)) + ClusterBytes(g)
    ensures Allocated(g, chain, Grown(size, Times(x + 1, ClusterBytes(g)))) && ClusterBytes(g) > 0
  {
    QuotQuot(0, g.ss, g.csize);
    var p := Times(x + 1, ClusterBytes(g));
    LastInCluster(g, chain, x, ClusterBytes(g), p);
    AllocatedUpTo(g, chain, size, p - 1);
  }

  /** At the end of cluster x, the file grown up to there. */
  ghost predicate AtEnd(fp: Fil, size: nat, x: nat)
    reads fp, fp.buf, fp.fs`freeClst, fp.fs`winsect, fp.fs`wflag, fp.fs.win, fp.fs.disk`device
  {
    && fp.Core() && Allocated(fp.fs.g, fp.chain, fp.objsize) && x < |fp.chain| && fp.clust == fp.chain[x]
    && fp.fptr == Times(x + 1, ClusterBytes(fp.fs.g)) && fp.fptr < TWO32
    && size < TWO32 && fp.objsize == Grown(size, fp.fptr)
  }

  /** The position moves over cluster x, and the file grows with it. */
  method PassCluster(fp: Fil, ghost size: nat, ghost x: nat, ghost rest: nat)
    requires Seeking(fp, size, x, rest) && rest > ClusterBytes(fp.fs.g) && fp.canWrite
    modifies fp`fptr, fp`objsize, fp`modified
    ensures AtEnd(fp, size, x) && fp.fptr == old(fp.fptr) + ClusterBytes(fp.fs.g)
    ensures fp.Img() == old(fp.Img()) && fp.fs.Fat() == old(fp.fs.Fat())
  {
    AllocatedCluster(fp.fs.g, fp.chain, fp.objsize, x);
    fp.fptr := fp.fptr + ClusterBytes(fp.fs.g);
    if fp.fptr > fp.objsize {
      fp.objsize := fp.fptr;
      fp.modified := true;
    }
  }

  /** The chain is followed or stretched. */
  method StretchSeek(fp: Fil, ghost size: nat, ghost x: nat, ghost rest: nat) returns (clst: nat)
    requires AtEnd(fp, size, x) && 0 < rest && fp.fptr + rest < TWO32 && fp.canWrite
    modifies fp`chain, fp`sclust, fp`clust, fp.fs, fp.fs.win, fp.fs.disk, fp.fs.disk.shared
    ensures if clst == 0 then Stopped(fp, size, x) else Seeking(fp, size, x + 1, rest)
    ensures Kept(old(fp.Img()), old(fp.fs.Fat()), fp.Img(), fp.fs.Fat())
  {
    ghost var m := fp.Img();
    clst := fp.StretchChain(fp.clust, x);
    SameContents(m, fp.Img(), fp.objsize);
    if clst != 0 {
      fp.clust := clst;
    }
  }

  /** A file is no longer than its clusters. */
  lemma {:induction false} AllocatedBound(g: Layout, chain: seq<nat>, size: nat)
    requires Allocated(g, chain, size)
    ensures size <= Times(|chain|, ClusterBytes(g))
  {
    QuotQuot(0, g.ss, g.csize);
    var p := Times(|chain|, ClusterBytes(g));
    if p < size {
      assert InFile(g, chain, p);
      PlaceInCluster(g, |chain|, 0, p);
    }
  }

  /** A turn of the loop in read mode. */
  method FollowSeek(fp: Fil, ghost size: nat, ghost x: nat, rest: nat)
    requires Seeking(fp, size, x, rest) && rest > ClusterBytes(fp.fs.g) && !fp.canWrite
    modifies fp`fptr, fp`clust, fp.fs`wflag, fp.fs`winsect, fp.fs.win, fp.fs.disk, fp.fs.disk.shared
    ensures Seeking(fp, size, x + 1, rest - ClusterBytes(fp.fs.g))
    ensures fp.fptr == old(fp.fptr) + ClusterBytes(fp.fs.g)
    ensures Kept(old(fp.Img()), old(fp.fs.Fat()), fp.Img(), fp.fs.Fat())
  {
    NextAllocated(fp.fs.g, fp.chain, fp.objsize, x);
    fp.fptr := fp.fptr + ClusterBytes(fp.fs.g);
    FollowFat(fp, x);
  }

  /** A file longer than x + 1 clusters has a further cluster. */
  lemma {:induction false} NextAllocated(g: Layout, chain: seq<nat>, size: nat, x: nat)
    requires Allocated(g, chain, size) && Times(x, ClusterBytes(g)) + ClusterBytes(g) < size
    ensures x + 1 < |chain| && Times(x + 1, ClusterBytes(g)) == Times(x, ClusterBytes(g)) + ClusterBytes(g)
  {
    QuotQuot(0, g.ss, g.csize);
    var p := Times(x + 1, ClusterBytes(g));
    assert InFile(g, chain, p);
    PlaceInCluster(g, x + 1, 0, p);
  }

  /** Where to start: the current cluster, or the first one of the file. */
  method SeekStart(fp: Fil, ofs: nat) returns (clst: nat, rest: nat, ghost x: nat)
    requires fp.Valid() && 0 < ofs < TWO32 && (!fp.canWrite ==> ofs <= fp.objsize)
    modifies fp`fptr, fp`chain, fp`sclust, fp`clust, fp.fs, fp.fs.win, fp.fs.disk, fp.fs.disk.shared
    ensures if clst == 0 then Stopped(fp, fp.objsize, -1) && fp.canWrite && fp.fptr < ofs
            else Seeking(fp, fp.objsize, x, rest) && fp.fptr + rest == ofs
    ensures Kept(old(fp.Img()), old(fp.fs.Fat()), fp.Img(), fp.fs.Fat())
  {
    QuotQuot(0, fp.fs.g.ss, fp.fs.g.csize);
    var bcs := ClusterBytes(fp.fs.g);
    if fp.fptr > 0 && Quot(ofs - 1, bcs) >= Quot(fp.fptr - 1, bcs) {
      x := Quot(fp.fptr - 1, bcs);
      GrownSame(fp.Img(), fp.Img());
      rest := SeekForward(fp, ofs, x);
      clst := fp.clust;
    } else {
      x := 0;
      fp.fptr := 0;
      clst := SeekFirst(fp, ofs);
      rest := ofs;
    }
  }

  /** A turn of the loop; the result is 0 if the disk is full. */
  method SeekTurn(fp: Fil, ghost size: nat, ghost x: nat, rest: nat) returns (clst: nat)
    requires Seeking(fp, size, x, rest) && rest > ClusterBytes(fp.fs.g)
    modifies fp`fptr, fp`objsize, fp`modified, fp`chain, fp`sclust, fp`clust
    modifies fp.fs, fp.fs.win, fp.fs.disk, fp.fs.disk.shared
    ensures fp.fptr == old(fp.fptr) + ClusterBytes(fp.fs.g)
    ensures if clst == 0 then Stopped(fp, size, x) && fp.canWrite
            else Seeking(fp, size, x + 1, rest - ClusterBytes(fp.fs.g))
    ensures Kept(old(fp.Img()), old(fp.fs.Fat()), fp.Img(), fp.fs.Fat())
  {
    if fp.canWrite {
      PassCluster(fp, size, x, rest);
      clst := StretchSeek(fp, size, x, rest - ClusterBytes(fp.fs.g));
    } else {
      FollowSeek(fp, size, x, rest);
      clst := fp.clust;
    }
  }

  /** A turn after the start of f_lseek, when the file was m. */
  method SeekMore(fp: Fil, ghost size: nat, ghost x: nat, rest: nat, ghost m: Image, ghost f: seq<nat>)
    returns (clst: nat)
    requires Seeking(fp, size, x, rest) && rest > ClusterBytes(fp.fs.g)
    requires Kept(m, f, fp.Img(), fp.fs.Fat())
    modifies fp`fptr, fp`objsize, fp`modified, fp`chain, fp`sclust, fp`clust
    modifies fp.fs, fp.fs.win, fp.fs.disk, fp.fs.disk.shared
    ensures fp.fptr == old(fp.fptr) + ClusterBytes(fp.fs.g)
    ensures if clst == 0 then Stopped(fp, size, x) && fp.canWrite
            else Seeking(fp, size, x + 1, rest - ClusterBytes(fp.fs.g))
    ensures Kept(m, f, fp.Img(), fp.fs.Fat())
  {
    ghost var m1, f1 := fp.Img(), fp.fs.Fat();
    clst := SeekTurn(fp, size, x, rest);
    KeptTransitive(m, f, m1, f1, fp.Img(), fp.fs.Fat());
  }

  /** The cluster following loop of f_lseek; nothing is left to go if the disk is full. */
  method SeekLoop(fp: Fil, ghost size: nat, ghost x0: nat, rest0: nat) returns (rest: nat, ghost x: nat)
    requires Seeking(fp, size, x0, rest0)
    modifies fp`fptr, fp`objsize, fp`modified, fp`chain, fp`sclust, fp`clust
    modifies fp.fs, fp.fs.win, fp.fs.disk, fp.fs.disk.shared
    ensures if rest == 0 then Stopped(fp, size, x) && fp.canWrite && fp.fptr < old(fp.fptr) + rest0
            else Seeking(fp, size, x, rest) && rest <= ClusterBytes(fp.fs.g) && fp.fptr + rest == old(fp.fptr) + rest0
    ensures Kept(old(fp.Img()), old(fp.fs.Fat()), fp.Img(), fp.fs.Fat())
  {
    ghost var m, f := fp.Img(), fp.fs.Fat();
    rest, x := rest0, x0;
    GrownSame(m, m);
    QuotQuot(0, fp.fs.g.ss, fp.fs.g.csize);
    while rest > ClusterBytes(fp.fs.g)
      invariant Seeking(fp, size, x, rest) && fp.fptr + rest == old(fp.fptr) + rest0
      invariant Kept(m, f, fp.Img(), fp.fs.Fat())
    {
      var clst := SeekMore(fp, size, x, rest, m, f);
      if clst == 0 {
        rest := 0;
        return;
      }
      rest, x := rest - ClusterBytes(fp.fs.g), x + 1;
    }
  }

  /** The position is settled; nsect is its sector if it lies within one. */
  ghost predicate Landed(fp: Fil, nsect: nat)
    reads fp, fp.buf, fp.fs`freeClst, fp.fs`winsect, fp.fs`wflag, fp.fs.win, fp.fs.disk`device
  {
    && fp.Core() && Allocated(fp.fs.g, fp.chain, fp.objsize) && fp.objsize < TWO32 && fp.fptr < TWO32
    && (fp.fptr > 0 ==> InFile(fp.fs.g, fp.chain, fp.fptr - 1)
                        && fp.clust == ClusterOfByte(fp.fs.g, fp.chain, fp.fptr - 1))
    && (Rem(fp.fptr, fp.fs.g.ss) != 0 ==>
          InFile(fp.fs.g, fp.chain, fp.fptr) && nsect == FileSector(fp.fs.g, fp.chain, Quot(fp.fptr, fp.fs.g.ss)))
  }

  /** The last step within a cluster. */
  method Land(fp: Fil, ghost size: nat, ghost x: nat, rest: nat) returns (nsect: nat)
    requires Seeking(fp, size, x, rest) && rest <= ClusterBytes(fp.fs.g)
    modifies fp`fptr
    ensures Landed(fp, nsect) && fp.fptr == old(fp.fptr) + rest
    ensures fp.Img() == old(fp.Img()) && fp.fs.Fat() == old(fp.fs.Fat())
  {
    fp.fptr := fp.fptr + rest;
    LastInCluster(fp.fs.g, fp.chain, x, rest, fp.fptr);
    nsect := 0;
    if Rem(rest, fp.fs.g.ss) != 0 {
      nsect := ClusterSector(fp.fs.g, fp.clust) + Quot(rest, fp.fs.g.ss);
    }
  }

  /** The disk was full: the position is the end of the last cluster of the file. */
  ghost predicate CutShort(fp: Fil, ofs: nat)
    requires fp.fs.Valid()
    reads fp`chain, fp`fptr, fp.fs`freeClst, fp.fs`winsect, fp.fs`wflag, fp.fs.win, fp.fs.disk`device
  {
    fp.canWrite && DiskFull(fp.fs) && fp.fptr == Times(|fp.chain|, ClusterBytes(fp.fs.g)) < ofs
  }

  lemma {:induction false} LandedWhenStopped(fp: Fil, size: nat, x: int, nsect: nat, ofs: nat)
    requires Stopped(fp, size, x) && fp.canWrite && fp.fptr < ofs
    ensures Landed(fp, nsect) && CutShort(fp, ofs) && fp.objsize == Grown(size, fp.fptr)
  {
    QuotQuot(0, fp.fs.g.ss, fp.fs.g.csize);
    assert Rem(0, fp.fs.g.ss) == 0;
    if x >= 0 {
      LastInCluster(fp.fs.g, fp.chain, x, ClusterBytes(fp.fs.g), fp.fptr);
      QuotUnique(fp.fs.g.ss, fp.fs.g.csize, 0, ClusterBytes(fp.fs.g));
    }
  }

  /** The file grows up to the position, and the buffer gets its sector. */
  method FinishSeek(fp: Fil, nsect: nat)
    requires Landed(fp, nsect)
    modifies fp`objsize, fp`modified, fp`sect, fp`cur, fp`dirty, fp.buf, fp.fs.disk, fp.fs.disk.shared
    ensures fp.Valid() && fp.objsize == Grown(old(fp.objsize), fp.fptr) && fp.fs.Fat() == old(fp.fs.Fat())
    ensures Kept(old(fp.Img()), old(fp.fs.Fat()), fp.Img(), fp.fs.Fat())
  {
    GrowTo(fp, nsect);
    FillLast(fp, nsect);
  }

  /** The buffer gets the sector of the position, unless that is at its start. */
  method FillLast(fp: Fil, nsect: nat)
    requires Landed(fp, nsect) && fp.fptr <= fp.objsize
    modifies fp`sect, fp`cur, fp`dirty, fp.buf, fp.fs.disk, fp.fs.disk.shared
    ensures fp.Valid() && fp.fs.Fat() == old(fp.fs.Fat())
    ensures Kept(old(fp.Img()), old(fp.fs.Fat()), fp.Img(), fp.fs.Fat())
  {
    if Rem(fp.fptr, fp.fs.g.ss) != 0 {
      LoadForRead(fp, Quot(fp.fptr, fp.fs.g.ss), nsect);
    } else {
      GrownSame(fp.Img(), fp.Img());
    }
  }

  method GrowTo(fp: Fil, ghost nsect: nat)
    requires Landed(fp, nsect)
    modifies fp`objsize, fp`modified
    ensures Landed(fp, nsect) && fp.objsize == Grown(old(fp.objsize), fp.fptr)
    ensures fp.Img() == old(fp.Img()) && fp.fs.Fat() == old(fp.fs.Fat())
  {
    if fp.fptr > fp.objsize {
      AllocatedUpTo(fp.fs.g, fp.chain, fp.objsize, fp.fptr - 1);
      fp.objsize := fp.fptr;
      fp.modified := true;
    }
  }

  /** From a start on: the loop and the last step. */
  method SeekOn(fp: Fil, ghost size: nat, ghost x0: nat, rest0: nat, ghost ofs: nat) returns (nsect: nat)
    requires Seeking(fp, size, x0, rest0) && fp.fptr + rest0 == ofs
    modifies fp`fptr, fp`objsize, fp`modified, fp`chain, fp`sclust, fp`clust
    modifies fp.fs, fp.fs.win, fp.fs.disk, fp.fs.disk.shared
    ensures Landed(fp, nsect) && Grown(fp.objsize, fp.fptr) == Grown(size, fp.fptr)
    ensures fp.fptr == ofs || CutShort(fp, ofs)
    ensures Kept(old(fp.Img()), old(fp.fs.Fat()), fp.Img(), fp.fs.Fat())
  {
    nsect := 0;
    var rest;
    ghost var x;
    rest, x := SeekLoop(fp, size, x0, rest0);
    if rest > 0 {
      nsect := Land(fp, size, x, rest);
    } else {
      LandedWhenStopped(fp, size, x, nsect, ofs);
    }
  }

  /** f_lseek to a target that is not 0. */
  method SeekTo(fp: Fil, ofs: nat) returns (nsect: nat)
    requires fp.Valid() && 0 < ofs < TWO32 && (!fp.canWrite ==> ofs <= fp.objsize)
    modifies fp`fptr, fp`objsize, fp`modified, fp`chain, fp`sclust, fp`clust
    modifies fp.fs, fp.fs.win, fp.fs.disk, fp.fs.disk.shared
    ensures Landed(fp, nsect) && Grown(fp.objsize, fp.fptr) == Grown(old(fp.objsize), fp.fptr)
    ensures fp.fptr == ofs || CutShort(fp, ofs)
    ensures Kept(old(fp.Img()), old(fp.fs.Fat()), fp.Img(), fp.fs.Fat())
  {
    ghost var m, f, size := fp.Img(), fp.fs.Fat(), fp.objsize;
    nsect := 0;
    var clst, rest;
    ghost var x;
    clst, rest, x := SeekStart(fp, ofs);
    if clst != 0 {
      ghost var m1, f1 := fp.Img(), fp.fs.Fat();
      nsect := SeekOn(fp, size, x, rest, ofs);
      KeptTransitive(m, f, m1, f1, fp.Img(), fp.fs.Fat());
    } else {
      LandedWhenStopped(fp, size, -1, nsect, ofs);
    }
  }

  /** The position for a target, before the file grows up to it. */
  method SeekAny(fp: Fil, t: nat) returns (nsect: nat)
    requires fp.Valid() && t < TWO32 && (!fp.canWrite ==> t <= fp.objsize)
    modifies fp`fptr, fp`objsize, fp`modified, fp`chain, fp`sclust, fp`clust
    modifies fp.fs, fp.fs.win, fp.fs.disk, fp.fs.disk.shared
    ensures Landed(fp, nsect) && Grown(fp.objsize, fp.fptr) == Grown(old(fp.objsize), fp.fptr)
    ensures fp.fptr == t || CutShort(fp, t)
    ensures Kept(old(fp.Img()), old(fp.fs.Fat()), fp.Img(), fp.fs.Fat())
  {
    nsect := 0;
    if t > 0 {
      nsect := SeekTo(fp, t);
    } else {
      GrownSame(fp.Img(), fp.Img());
      assert Rem(0, fp.fs.g.ss) == 0;
      fp.fptr := 0;
    }
  }

  /**
   * f_lseek.  The bytes of the file stay; those it gains have no specified value.  The target
   * is missed only if it lies beyond the end of the file and no cluster is free.
   */
  method Seek(fp: Fil, ofs: nat) returns (res: FResult)
    requires fp.Valid()
    modifies fp, fp.buf, fp.fs, fp.fs.win, fp.fs.disk, fp.fs.disk.shared
    ensures fp.Valid() && res == FR_OK
    ensures fp.fptr == old(Target(fp, ofs)) || (CutShort(fp, old(Target(fp, ofs))) && fp.Full())
    ensures fp.objsize == Grown(old(fp.objsize), fp.fptr)
    ensures fp.Content()[..old(fp.objsize)] == old(fp.Content())
    ensures Kept(old(fp.Img()), old(fp.fs.Fat()), fp.Img(), fp.fs.Fat())
  {
    ghost var m, f, size, t := fp.Img(), fp.fs.Fat(), fp.objsize, Target(fp, ofs);
    var nsect := SeekAny(fp, Target(fp, ofs));
    ghost var m1, f1 := fp.Img(), fp.fs.Fat();
    FinishSeek(fp, nsect);
    KeptTransitive(m, f, m1, f1, fp.Img(), fp.fs.Fat());
    PrefixSame(m, fp.Img(), size, fp.objsize);
    if DiskFull(fp.fs) {
      fp.FullIsFull();
    }
    res := FR_OK;
  }

  lemma {:induction false} PrefixSame(m: Image, e: Image, size: nat, size': nat)
    requires SameData(m, e) && Allocated(m.g, m.chain, size) && size <= size' && Allocated(e.g, e.chain, size')
    ensures Contents(e, size')[..size] == Contents(m, size)
  {
    SameContents(m, e, size);
  }
}
