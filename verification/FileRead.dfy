/** f_read on an open file, for error-free runs of the disk. */
module FileRead {
  import opened Arith
  import opened Bytes
  import opened BlockIo
  import opened FatEntries
  import opened Volume
  import opened FileImage
  import opened FileIo

  /** The chain goes on to byte p of the file. */
  lemma {:induction false} ChainGoesOn(f: seq<nat>, sclust: nat, chain: seq<nat>, x: int)
    requires OwnsChain(f, sclust, chain) && -1 <= x && x + 1 < |chain|
    ensures if x == -1 then sclust == chain[0] else chain[x] < |f| && f[chain[x]] == chain[x + 1]
  {
  }

  /** get_fat on the current cluster, which is not the last. */
  method FollowFat(fp: Fil, ghost x: nat)
    requires fp.Core() && x + 1 < |fp.chain| && fp.clust == fp.chain[x]
    modifies fp`clust, fp.fs`wflag, fp.fs`winsect, fp.fs.win, fp.fs.disk, fp.fs.disk.shared
    ensures fp.Core() && fp.fs.Fat() == old(fp.fs.Fat()) && fp.clust == fp.chain[x + 1]
    ensures Kept(old(fp.Img()), old(fp.fs.Fat()), fp.Img(), fp.fs.Fat())
  {
    ghost var m, f, w := fp.Img(), fp.fs.Fat(), fp.fs.winsect;
    ChainGoesOn(f, fp.sclust, fp.chain, x);
    fp.clust := fp.fs.GetFat(fp.clust);
    StretchedInv(m, f, w, fp.sclust, fp.sect, fp.fs.Logical(), f, fp.chain, fp.fs.winsect, fp.sclust);
    assert fp.Img() == m.(d := fp.fs.Logical(), chain := fp.chain);
  }

  /** At a cluster boundary within the file. */
  ghost predicate AtCluster(fp: Fil)
    reads fp, fp.buf, fp.fs`freeClst, fp.fs`winsect, fp.fs`wflag, fp.fs.win, fp.fs.disk`device
  {
    && fp.Valid() && fp.fptr < fp.objsize && InFile(fp.fs.g, fp.chain, fp.fptr)
    && Quot(Quot(fp.fptr, fp.fs.g.ss), fp.fs.g.csize) == fp.Before() + 1
  }

  /** The cluster of the byte at the position. */
  method NextReadCluster(fp: Fil)
    requires AtCluster(fp)
    modifies fp`clust, fp.fs`wflag, fp.fs`winsect, fp.fs.win, fp.fs.disk, fp.fs.disk.shared
    ensures fp.Positioned() && Kept(old(fp.Img()), old(fp.fs.Fat()), fp.Img(), fp.fs.Fat())
  {
    if fp.fptr == 0 {
      FirstCluster(fp);
    } else {
      FollowFat(fp, fp.Before());
    }
  }

  method FirstCluster(fp: Fil)
    requires AtCluster(fp) && fp.fptr == 0
    modifies fp`clust
    ensures fp.Positioned() && Kept(old(fp.Img()), old(fp.fs.Fat()), fp.Img(), fp.fs.Fat())
  {
    ChainGoesOn(fp.fs.Fat(), fp.sclust, fp.chain, -1);
    GrownSame(fp.Img(), fp.Img());
    fp.clust := fp.sclust;
  }

  /** disk_read of sectors of one cluster, the dirty buffer in place of its own sector. */
  method ReadSectors(fp: Fil, ghost k: nat, sct: nat, n: nat) returns (r: seq<Sector>)
    requires fp.Core() && InChain(fp.fs.g, fp.chain, k) && sct == FileSector(fp.fs.g, fp.chain, k)
    requires n > 0 && Rem(k, fp.fs.g.csize) + n <= fp.fs.g.csize
    modifies fp.fs.disk, fp.fs.disk.shared
    ensures fp.Core() && fp.fs.Logical() == old(fp.fs.Logical())
    ensures |r| == n && forall j :: 0 <= j < n ==> IsSector(fp.Img(), k + j, r[j])
  {
    fp.DirectRange(k, n);
    Sub32Range(fp.sect, sct, n);
    r := fp.fs.ReadData(sct, n, fp.chain[Quot(k, fp.fs.g.csize)], Rem(k, fp.fs.g.csize));
    ghost var raw := r;
    if fp.dirty && Sub32(fp.sect, sct) < n {
      r := r[fp.sect - sct := fp.buf[..]];
    }
    SectorsRead(fp.Img(), k, sct, raw, fp.sect, r);
  }

  /** On the sector boundary: the cluster and the disk sector to use. */
  method EnterReadSector(fp: Fil) returns (sct: nat)
    requires fp.Valid() && fp.fptr < fp.objsize && Rem(fp.fptr, fp.fs.g.ss) == 0
    modifies fp`clust, fp.fs`wflag, fp.fs`winsect, fp.fs.win, fp.fs.disk, fp.fs.disk.shared
    ensures fp.Positioned() && sct == FileSector(fp.fs.g, fp.chain, Quot(fp.fptr, fp.fs.g.ss))
    ensures Kept(old(fp.Img()), old(fp.fs.Fat()), fp.Img(), fp.fs.Fat())
  {
    var csect := Rem(Quot(fp.fptr, fp.fs.g.ss), fp.fs.g.csize);
    assert InFile(fp.fs.g, fp.chain, fp.fptr);
    if csect == 0 {
      fp.AfterBefore();
      NextReadCluster(fp);
    } else {
      fp.StayInCluster();
    }
    sct := ClusterSector(fp.fs.g, fp.clust) + csect;
  }

  /** Sector k of the file into the buffer, the old sector written back. */
  method LoadForRead(fp: Fil, k: nat, sct: nat)
    requires fp.Core() && InChain(fp.fs.g, fp.chain, k) && sct == FileSector(fp.fs.g, fp.chain, k)
    modifies fp`sect, fp`cur, fp`dirty, fp.buf, fp.fs.disk, fp.fs.disk.shared
    ensures fp.Core() && fp.sect == sct != 0 && fp.cur == k && fp.fs.Fat() == old(fp.fs.Fat())
    ensures Kept(old(fp.Img()), old(fp.fs.Fat()), fp.Img(), fp.fs.Fat())
  {
    ghost var m := fp.Img();
    if fp.sect != sct {
      FlushAndFill(fp, k, sct);
    } else {
      GrownSame(m, m);
      FileSectorOnDevice(fp.fs.g, |fp.fs.disk.device|, fp.chain, k);
      FileSectorInjective(fp.fs.g, |fp.fs.disk.device|, fp.chain, k, fp.cur);
    }
  }

  method FlushAndFill(fp: Fil, k: nat, sct: nat)
    requires fp.Core() && InChain(fp.fs.g, fp.chain, k) && sct == FileSector(fp.fs.g, fp.chain, k) != fp.sect
    modifies fp`sect, fp`cur, fp`dirty, fp.buf, fp.fs.disk, fp.fs.disk.shared
    ensures fp.Core() && fp.sect == sct != 0 && fp.cur == k && fp.fs.Fat() == old(fp.fs.Fat())
    ensures Kept(old(fp.Img()), old(fp.fs.Fat()), fp.Img(), fp.fs.Fat())
  {
    ghost var m := fp.Img();
    fp.Flush();
    ghost var e := fp.Img();
    fp.LoadSector(k, sct, true);
    CleanSame(e, k, fp.buf[..]);
    assert fp.Img() == e.(cur := k, buf := fp.buf[..]);
    SameDataTransitive(m, e, fp.Img());
    OthersUntouchedTransitive(m, e, fp.Img());
  }

  /** A clean buffer has no part in the contents of the file. */
  lemma {:induction false} CleanSame(m: Image, k: nat, s: Sector)
    requires ValidImage(m) && !m.dirty && |s| == m.g.ss
    ensures var e := m.(cur := k, buf := s); SameData(m, e) && OthersUntouched(m, e)
  {
  }

  /** Moving the position past bytes just read. */
  method MoveOn(fp: Fil, n: nat, ghost next: nat)
    requires next == fp.fptr + n && fp.Core() && fp.Placed(next, fp.objsize)
    modifies fp`fptr
    ensures fp.Valid() && fp.fptr == next && fp.Img() == old(fp.Img()) && fp.fs.Fat() == old(fp.fs.Fat())
  {
    fp.fptr := fp.fptr + n;
  }

  lemma {:induction false} PlacedAfterSectors(fp: Fil, n: nat, next: nat)
    requires fp.Positioned() && Rem(fp.fptr, fp.fs.g.ss) == 0 && next == fp.fptr + Times(n, fp.fs.g.ss)
    requires n > 0 && Rem(Quot(fp.fptr, fp.fs.g.ss), fp.fs.g.csize) + n <= fp.fs.g.csize && next <= fp.objsize
    ensures fp.Placed(next, fp.objsize) && fp.fptr == Times(Quot(fp.fptr, fp.fs.g.ss), fp.fs.g.ss)
  {
    fp.RoomForSectors(n, next);
  }

  /** n whole sectors directly from the disk. */
  method ReadWhole(fp: Fil, sct: nat, n: nat) returns (data: seq<byte>)
    requires fp.Positioned() && Rem(fp.fptr, fp.fs.g.ss) == 0
    requires sct == FileSector(fp.fs.g, fp.chain, Quot(fp.fptr, fp.fs.g.ss))
    requires n > 0 && Rem(Quot(fp.fptr, fp.fs.g.ss), fp.fs.g.csize) + n <= fp.fs.g.csize
    requires fp.fptr + Times(n, fp.fs.g.ss) <= fp.objsize
    modifies fp`fptr, fp.fs.disk, fp.fs.disk.shared
    ensures fp.Valid() && Kept(old(fp.Img()), old(fp.fs.Fat()), fp.Img(), fp.fs.Fat())
    ensures |data| == Times(n, fp.fs.g.ss) && fp.fptr == old(fp.fptr) + |data| <= fp.objsize
    ensures data == Contents(fp.Img(), fp.objsize)[old(fp.fptr)..fp.fptr]
  {
    ghost var next := fp.fptr + Times(n, fp.fs.g.ss);
    PlacedAfterSectors(fp, n, next);
    data := CopySectors(fp, Quot(fp.fptr, fp.fs.g.ss), fp.fptr, sct, n);
    MoveOn(fp, |data|, next);
  }

  /** disk_read into the caller's buffer. */
  method CopySectors(fp: Fil, ghost k: nat, ghost at: nat, sct: nat, n: nat) returns (data: seq<byte>)
    requires fp.Core() && InChain(fp.fs.g, fp.chain, k) && sct == FileSector(fp.fs.g, fp.chain, k)
    requires n > 0 && Rem(k, fp.fs.g.csize) + n <= fp.fs.g.csize && at == Times(k, fp.fs.g.ss)
    requires Allocated(fp.fs.g, fp.chain, fp.objsize) && at + Times(n, fp.fs.g.ss) <= fp.objsize
    modifies fp.fs.disk, fp.fs.disk.shared
    ensures fp.Core() && Kept(old(fp.Img()), old(fp.fs.Fat()), fp.Img(), fp.fs.Fat())
    ensures |data| == Times(n, fp.fs.g.ss)
    ensures data == Contents(fp.Img(), fp.objsize)[at..at + |data|]
  {
    ghost var m := fp.Img();
    var r := ReadSectors(fp, k, sct, n);
    data := Flat(r);
    FlatShows(fp.Img(), k, at, r, n, fp.objsize);
    GrownSame(m, fp.Img());
  }

  /** n bytes out of one sector, through the buffer. */
  method ReadPart(fp: Fil, sct: nat, n: nat, boundary: bool) returns (data: seq<byte>)
    requires fp.Positioned() && n > 0 && Rem(fp.fptr, fp.fs.g.ss) + n <= fp.fs.g.ss && fp.fptr + n <= fp.objsize
    requires boundary <==> Rem(fp.fptr, fp.fs.g.ss) == 0
    requires if boundary then sct == FileSector(fp.fs.g, fp.chain, Quot(fp.fptr, fp.fs.g.ss))
             else fp.sect != 0 && fp.cur == Quot(fp.fptr, fp.fs.g.ss)
    modifies fp`fptr, fp`sect, fp`cur, fp`dirty, fp.buf, fp.fs.disk, fp.fs.disk.shared
    ensures fp.Valid() && Kept(old(fp.Img()), old(fp.fs.Fat()), fp.Img(), fp.fs.Fat())
    ensures |data| == n && fp.fptr == old(fp.fptr) + n <= fp.objsize
    ensures data == Contents(fp.Img(), fp.objsize)[old(fp.fptr)..fp.fptr]
  {
    ghost var next := fp.fptr + n;
    fp.RoomInSector(next);
    ghost var at := fp.fptr;
    data := CopyPart(fp, Quot(fp.fptr, fp.fs.g.ss), sct, Rem(fp.fptr, fp.fs.g.ss), n, boundary);
    assert data == Contents(fp.Img(), fp.objsize)[at..next];
    MoveOn(fp, n, next);
  }

  method CopyPart(fp: Fil, k: nat, sct: nat, j: nat, n: nat, boundary: bool) returns (data: seq<byte>)
    requires fp.Core() && InChain(fp.fs.g, fp.chain, k) && Allocated(fp.fs.g, fp.chain, fp.objsize)
    requires j + n <= fp.fs.g.ss && fp.fptr == Times(k, fp.fs.g.ss) + j && fp.fptr + n <= fp.objsize
    requires if boundary then sct == FileSector(fp.fs.g, fp.chain, k) else fp.sect != 0 && fp.cur == k
    modifies fp`sect, fp`cur, fp`dirty, fp.buf, fp.fs.disk, fp.fs.disk.shared
    ensures fp.Core() && fp.sect != 0 && fp.cur == k
    ensures Kept(old(fp.Img()), old(fp.fs.Fat()), fp.Img(), fp.fs.Fat())
    ensures |data| == n && data == Contents(fp.Img(), fp.objsize)[fp.fptr..fp.fptr + n]
  {
    if boundary {
      LoadForRead(fp, k, sct);
    } else {
      GrownSame(fp.Img(), fp.Img());
    }
    data := CopyOut(fp, k, j, n);
  }

  /** memcpy out of the buffer. */
  method CopyOut(fp: Fil, ghost k: nat, j: nat, n: nat) returns (data: seq<byte>)
    requires fp.Core() && fp.sect != 0 && fp.cur == k && j + n <= fp.fs.g.ss
    requires fp.fptr == Times(k, fp.fs.g.ss) + j && fp.fptr + n <= fp.objsize
    requires Allocated(fp.fs.g, fp.chain, fp.objsize)
    ensures |data| == n && data == Contents(fp.Img(), fp.objsize)[fp.fptr..fp.fptr + n]
  {
    fp.BufferShows();
    data := fp.buf[j..j + n];
    PartShows(fp.Img(), k, j, fp.fptr, fp.buf[..], n, fp.objsize);
    assert data == fp.buf[..][j..j + n];
  }

  /** The rest of a turn: as many whole sectors as the cluster holds, or part of one sector. */
  method ReadHere(fp: Fil, btr: nat, boundary: bool, sct: nat) returns (data: seq<byte>)
    requires fp.Positioned() && 0 < btr && fp.fptr + btr <= fp.objsize
    requires boundary <==> Rem(fp.fptr, fp.fs.g.ss) == 0
    requires if boundary then sct == FileSector(fp.fs.g, fp.chain, Quot(fp.fptr, fp.fs.g.ss))
             else fp.sect != 0 && fp.cur == Quot(fp.fptr, fp.fs.g.ss)
    modifies fp`fptr, fp`sect, fp`cur, fp`dirty, fp.buf, fp.fs.disk, fp.fs.disk.shared
    ensures fp.Valid() && Kept(old(fp.Img()), old(fp.fs.Fat()), fp.Img(), fp.fs.Fat())
    ensures 0 < |data| <= btr && fp.fptr == old(fp.fptr) + |data| <= fp.objsize
    ensures data == Contents(fp.Img(), fp.objsize)[old(fp.fptr)..fp.fptr]
  {
    var rcnt;
    QuotRem(fp.fptr, fp.fs.g.ss);
    if boundary {
      var csect := Rem(Quot(fp.fptr, fp.fs.g.ss), fp.fs.g.csize);
      var cc := Quot(btr, fp.fs.g.ss);
      if cc > 0 {
        cc, rcnt := fp.ClipToCluster(csect, cc, btr);
        data := ReadWhole(fp, sct, cc);
        return;
      }
    }
    rcnt := fp.fs.g.ss - Rem(fp.fptr, fp.fs.g.ss);
    if rcnt > btr {
      rcnt := btr;
    }
    data := ReadPart(fp, sct, rcnt, boundary);
  }

  /** One turn of the loop of f_read: it shows bytes of the file and changes none. */
  method ReadTurn(fp: Fil, btr: nat) returns (data: seq<byte>)
    requires fp.Valid() && 0 < btr && fp.fptr + btr <= fp.objsize
    modifies fp`fptr, fp`clust, fp`sect, fp`cur, fp`dirty, fp.buf
    modifies fp.fs`wflag, fp.fs`winsect, fp.fs.win, fp.fs.disk, fp.fs.disk.shared
    ensures fp.Valid() && Kept(old(fp.Img()), old(fp.fs.Fat()), fp.Img(), fp.fs.Fat())
    ensures 0 < |data| <= btr && fp.fptr == old(fp.fptr) + |data| <= fp.objsize
    ensures data == Contents(fp.Img(), fp.objsize)[old(fp.fptr)..fp.fptr]
  {
    ghost var m, f := fp.Img(), fp.fs.Fat();
    var boundary := Rem(fp.fptr, fp.fs.g.ss) == 0;
    var sct := 0;
    if boundary {
      sct := EnterReadSector(fp);
    } else {
      fp.StayInSector();
    }
    ghost var m1, f1 := fp.Img(), fp.fs.Fat();
    data := ReadHere(fp, btr, boundary, sct);
    KeptTransitive(m, f, m1, f1, fp.Img(), fp.fs.Fat());
  }

  /** The file e is still the file m, and data are its bytes from p to q. */
  ghost predicate ReadSoFar(m: Image, f: seq<nat>, e: Image, h: seq<nat>, size: nat, p: nat, q: nat, data: seq<byte>) {
    && Kept(m, f, e, h) && Allocated(m.g, m.chain, size) && p <= q <= size && data == Contents(m, size)[p..q]
  }

  lemma {:induction false} ReadNothing(m: Image, f: seq<nat>, size: nat, p: nat)
    requires ValidImage(m) && Allocated(m.g, m.chain, size) && p <= size
    ensures ReadSoFar(m, f, m, f, size, p, p, [])
  {
    GrownSame(m, m);
  }

  lemma {:induction false} ReadMoreBytes(m: Image, f: seq<nat>, d: Image, g: seq<nat>, e: Image, h: seq<nat>, size: nat,
                                         p: nat, q: nat, data: seq<byte>, r: nat, more: seq<byte>)
    requires ReadSoFar(m, f, d, g, size, p, q, data) && Kept(d, g, e, h) && q <= r <= size
    requires Allocated(e.g, e.chain, size) && more == Contents(e, size)[q..r]
    ensures ReadSoFar(m, f, e, h, size, p, r, data + more)
  {
    KeptTransitive(m, f, d, g, e, h);
    SameContents(m, e, size);
    var c := Contents(m, size);
    assert c[p..q] + c[q..r] == c[p..r];
  }

  /** The loop of f_read. */
  method ReadLoop(fp: Fil, total: nat) returns (data: seq<byte>)
    requires fp.Valid() && fp.fptr + total <= fp.objsize
    modifies fp`fptr, fp`clust, fp`sect, fp`cur, fp`dirty, fp.buf
    modifies fp.fs`wflag, fp.fs`winsect, fp.fs.win, fp.fs.disk, fp.fs.disk.shared
    ensures fp.Valid() && fp.fptr == old(fp.fptr) + total
    ensures ReadSoFar(old(fp.Img()), old(fp.fs.Fat()), fp.Img(), fp.fs.Fat(), fp.objsize, old(fp.fptr), fp.fptr, data)
  {
    ghost var m, f, p := fp.Img(), fp.fs.Fat(), fp.fptr;
    data := [];
    ReadNothing(m, f, fp.objsize, p);
    var btr: nat := total;
    while btr > 0
      invariant fp.Valid() && fp.fptr + btr == p + total
      invariant ReadSoFar(m, f, fp.Img(), fp.fs.Fat(), fp.objsize, p, fp.fptr, data)
    {
      btr, data := ReadMore(fp, btr, data, m, f, p);
    }
  }

  /** A turn of the loop after `data` has been read. */
  method ReadMore(fp: Fil, btr: nat, data: seq<byte>, ghost m: Image, ghost f: seq<nat>, ghost p: nat)
    returns (rest: nat, longer: seq<byte>)
    requires fp.Valid() && 0 < btr && fp.fptr + btr <= fp.objsize
    requires ReadSoFar(m, f, fp.Img(), fp.fs.Fat(), fp.objsize, p, fp.fptr, data)
    modifies fp`fptr, fp`clust, fp`sect, fp`cur, fp`dirty, fp.buf
    modifies fp.fs`wflag, fp.fs`winsect, fp.fs.win, fp.fs.disk, fp.fs.disk.shared
    ensures fp.Valid() && rest < btr && fp.fptr + rest == old(fp.fptr) + btr
    ensures ReadSoFar(m, f, fp.Img(), fp.fs.Fat(), fp.objsize, p, fp.fptr, longer)
  {
    ghost var d, g, q := fp.Img(), fp.fs.Fat(), fp.fptr;
    var more := ReadTurn(fp, btr);
    ReadMoreBytes(m, f, d, g, fp.Img(), fp.fs.Fat(), fp.objsize, p, q, data, fp.fptr, more);
    rest, longer := btr - |more|, data + more;
  }

  /** The data are the bytes that the sectors of the chain hold from byte p of the file on. */
  ghost predicate AreStored(m: Image, p: nat, data: seq<byte>) {
    ValidImage(m) && forall j: nat :: j < |data| ==> InFile(m.g, m.chain, p + j) && data[j] == StoredByte(m, p + j)
  }

  lemma {:induction false} DataStored(m: Image, size: nat, p: nat, q: nat, data: seq<byte>)
    requires ValidImage(m) && Allocated(m.g, m.chain, size) && p <= q <= size && data == Contents(m, size)[p..q]
    ensures AreStored(m, p, data)
  {
    ContentsStored(m, size);
  }

  /** f_read: the bytes of the file from the position on, as many as asked for or up to its end. */
  method Read(fp: Fil, btr: nat) returns (res: FResult, data: seq<byte>)
    requires fp.Valid()
    modifies fp`fptr, fp`clust, fp`sect, fp`cur, fp`dirty, fp.buf
    modifies fp.fs`wflag, fp.fs`winsect, fp.fs.win, fp.fs.disk, fp.fs.disk.shared
    ensures fp.Valid() && res == if fp.canRead then FR_OK else FR_DENIED
    ensures var n := if !fp.canRead then 0 else if btr > fp.objsize - old(fp.fptr) then fp.objsize - old(fp.fptr) else btr;
            fp.fptr == old(fp.fptr) + n && data == old(fp.Content())[old(fp.fptr)..fp.fptr]
    ensures AreStored(old(fp.Img()), old(fp.fptr), data)
    ensures fp.Content() == old(fp.Content()) && Kept(old(fp.Img()), old(fp.fs.Fat()), fp.Img(), fp.fs.Fat())
  {
    if !fp.canRead {
      ReadNothing(fp.Img(), fp.fs.Fat(), fp.objsize, fp.fptr);
      DataStored(fp.Img(), fp.objsize, fp.fptr, fp.fptr, []);
      return FR_DENIED, [];
    }
    ghost var m := fp.Img();
    ghost var p := fp.fptr;
    var remain := fp.objsize - fp.fptr;
    data := ReadLoop(fp, if btr > remain then remain else btr);
    SameContents(m, fp.Img(), fp.objsize);
    DataStored(m, fp.objsize, p, fp.fptr, data);
    res := FR_OK;
  }
}
