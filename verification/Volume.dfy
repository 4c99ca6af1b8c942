/** A mounted volume: the one-sector window on the disk and the FAT seen through it. */
module Volume {
  import opened Arith
  import opened Bytes
  import opened BlockIo
  import opened FatEntries

  datatype FResult = FR_OK | FR_DISK_ERR | FR_INT_ERR | FR_DENIED | FR_NOT_ENOUGH_CORE

  const ANY_ERROR: nat := 0xFFFF_FFFF   // (DWORD)-1: disk error as a FAT value, EOC when stored

  /** A transfer of a whole cluster fits a buffer of so many sectors. */
  ghost predicate ClusterMoves(g: Layout, t: nat, len: nat, c: nat)
    requires t > 0 && c >= 2
  {
    0 <= TransferCount(t, ClusterSector(g, c), g.csize) && Times(TransferCount(t, ClusterSector(g, c), g.csize), t) <= len
  }

  /** Transfers of a sector, and of any cluster of the volume, fit: what the block layer asserts. */
  ghost predicate ClustersMove(g: Layout, t: nat, len: nat) {
    0 < t <= len && g.csize < 0x4000_0000 && forall c: nat :: 2 <= c < g.nFatent ==> ClusterMoves(g, t, len, c)
  }

  lemma {:induction false} OneTime(t: nat)
    ensures Times(1, t) == t
  {
    assert Times(0, t) == 0;
  }

  /** They fit if there is room in the worst place. */
  lemma {:induction false} LargeBuffer(g: Layout, t: nat, len: nat)
    requires 0 < t <= len && 0 < g.csize < 0x4000_0000 && Times(Quot(g.csize + 2 * t - 2, t), t) <= len
    ensures ClustersMove(g, t, len)
  {
    forall c: nat | 2 <= c < g.nFatent
      ensures ClusterMoves(g, t, len, c)
    {
      var s := ClusterSector(g, c);
      WorstTransfer(t, s, g.csize);
      QuotMono(t, s, s + g.csize + t - 1);
      TimesMono(TransferCount(t, s, g.csize), Quot(g.csize + 2 * t - 2, t), t);
    }
  }

  /** Where clusters are as large as the buffer, they fit exactly if the data area is aligned to units. */
  lemma {:induction false} LargestCluster(g: Layout, t: nat, k: nat)
    requires 0 < t && k > 0 && g.csize == Times(k, t) < 0x4000_0000 && g.nFatent > 2
    ensures ClustersMove(g, t, g.csize) <==> Rem(g.database, t) == 0
  {
    TimesMono(1, k, t);
    OneTime(t);
    forall c: nat | 2 <= c < g.nFatent
      ensures ClusterMoves(g, t, g.csize, c) <==> Rem(g.database, t) == 0
    {
      var s := ClusterSector(g, c);
      ClusterAlignment(g, t, k, c);
      WholeUnits(t, s, k);
      TimesMono(k, TransferCount(t, s, g.csize), t);
    }
    assert ClustersMove(g, t, g.csize) ==> ClusterMoves(g, t, g.csize, 2);
  }

  lemma {:induction false} ClusterAlignment(g: Layout, t: nat, k: nat, c: nat)
    requires 0 < t && g.csize == Times(k, t) && c >= 2
    ensures Rem(ClusterSector(g, c), t) == Rem(g.database, t)
  {
    TimesTimes(c - 2, k, t);
    QuotRem(g.database, t);
    TimesAdd(Times(c - 2, k), Quot(g.database, t), t);
    QuotUnique(t, Times(c - 2, k) + Quot(g.database, t), Rem(g.database, t), ClusterSector(g, c));
  }

  /** FATFS. */
  class FatFs {
    const g: Layout
    const disk: Disk
    const win: array<byte>
    var winsect: nat      // sector in win[], 0xFFFFFFFF if none
    var wflag: bool       // win[] is newer than the disk
    var lastClst: nat
    var freeClst: nat     // number of free clusters, greater than n_fatent - 2 if unknown
    var fsiDirty: bool    // bit 0 of fsi_flag

    ghost predicate Valid()
      reads this`winsect, this`wflag, win, disk`device
    {
      && disk.Valid() && disk.sectorSize == g.ss == win.Length
      && InRange(g, |disk.device|) && Shaped(g, disk.device)
      && TableFits(g) && ClustersFit(g, |disk.device|)
      && ClustersMove(g, disk.sectorsPerTransfer, disk.shared.Length)
      && (winsect < |disk.device| || (winsect == ANY_ERROR && !wflag))
      && (winsect < |disk.device| && !wflag ==> win[..] == disk.device[winsect])
    }

    /** The disk overlaid by a dirty window. */
    ghost function Logical(): (d: seq<Sector>)
      requires Valid()
      reads this`winsect, this`wflag, win, disk`device
      ensures Shaped(g, d) && |d| == |disk.device|
      ensures winsect < |d| ==> d[winsect] == win[..]
    {
      if wflag then Overlay(g, disk.device, winsect, win[..]) else disk.device
    }

    /** The FAT: cluster number to entry value. */
    ghost function Fat(): (f: seq<nat>)
      requires Valid()
      reads this`winsect, this`wflag, win, disk`device
      ensures |f| == g.nFatent
    {
      FatOf(g, Logical())
    }

    constructor (g: Layout, disk: Disk, win: array<byte>)
      requires disk.Valid() && disk.sectorSize == g.ss == win.Length && ValidLayout(g, |disk.device|)
      requires ClustersMove(g, disk.sectorsPerTransfer, disk.shared.Length)
      ensures Valid() && this.g == g && this.disk == disk && this.win == win
      ensures !wflag && Logical() == disk.device && freeClst == lastClst == ANY_ERROR
    {
      this.g, this.disk, this.win := g, disk, win;
      winsect, wflag := ANY_ERROR, false;
      lastClst, freeClst, fsiDirty := ANY_ERROR, ANY_ERROR, false;
      new;
      LayoutTableFits(g, |disk.device|);
      LayoutClustersFit(g, |disk.device|);
    }

    /** A sector always fits the block layer's buffer. */
    lemma {:induction false} SectorMoves(s: nat)
      requires Valid()
      ensures disk.Fits(s, 1)
    {
      PartTransfer(disk.sectorsPerTransfer, s, 1, 0, 1);
      OneTime(disk.sectorsPerTransfer);
    }

    /** The n sectors from sect on are those of cluster c from its o-th on. */
    ghost predicate Run(sect: nat, n: nat, c: nat, o: nat) {
      2 <= c < g.nFatent && o + n <= g.csize && sect == ClusterSector(g, c) + o
    }

    /** So do sectors of one cluster. */
    lemma {:induction false} RunMoves(c: nat, o: nat, n: nat)
      requires Valid() && 2 <= c < g.nFatent && o + n <= g.csize
      ensures disk.Fits(ClusterSector(g, c) + o, n)
    {
      var t, s := disk.sectorsPerTransfer, ClusterSector(g, c);
      assert ClusterMoves(g, t, disk.shared.Length, c);
      PartTransfer(t, s, g.csize, o, n);
      TimesMono(TransferCount(t, s + o, n), TransferCount(t, s, g.csize), t);
    }

    /** sync_window */
    method SyncWindow() returns (res: FResult)
      requires Valid()
      modifies this`wflag, disk, disk.shared
      ensures Valid() && res in {FR_OK, FR_DISK_ERR}
      ensures SamePrimary(g, old(Logical()), Logical())
      ensures disk.reliable ==> res == FR_OK && Logical() == old(Logical())
      ensures res == FR_OK ==> !wflag
      ensures disk.reliable && Mirrored(g, old(Logical())) ==> Mirrored(g, disk.device)
    {
      res := FR_OK;
      if wflag {
        res := WriteWindow();
      }
    }

    /** The dirty window written back. */
    method WriteWindow() returns (res: FResult)
      requires Valid() && wflag
      modifies this`wflag, disk, disk.shared
      ensures Valid() && res in {FR_OK, FR_DISK_ERR}
      ensures SamePrimary(g, old(Logical()), Logical())
      ensures disk.reliable ==> res == FR_OK && Logical() == old(Logical())
      ensures res == FR_OK ==> !wflag
    {
      var ok := StoreWindow();
      res := if ok then FR_OK else FR_DISK_ERR;
      if ok && Sub32(winsect, g.fatbase) < g.fsize {
        assert InFat1(g, winsect);
        if g.nFats == 2 {
          Reflect(win[..]);
        }
      }
    }

    /** disk_write of the window; it stays dirty if that fails. */
    method StoreWindow() returns (ok: bool)
      requires Valid() && wflag
      modifies this`wflag, disk, disk.shared
      ensures Valid() && (disk.reliable ==> ok) && wflag == !ok
      ensures disk.device == if ok then old(disk.device)[winsect := win[..]] else old(disk.device)
    {
      SectorMoves(winsect);
      var data := win[..];
      var wrote := disk.Write([data], winsect);
      ok := wrote == RES_OK;
      if ok {
        assert disk.device == old(disk.device)[winsect := data];
        wflag := false;
      }
    }

    /** The window's sector of the first FAT also goes to the second; the result is ignored. */
    method Reflect(data: Sector)
      requires Valid() && !wflag && InFat1(g, winsect) && g.nFats == 2 && |data| == g.ss
      modifies disk, disk.shared
      ensures Valid()
      ensures SamePrimary(g, old(disk.device), disk.device)
      ensures disk.reliable ==> disk.device == old(disk.device)[winsect + g.fsize := data]
    {
      SectorMoves(winsect + g.fsize);
      var _ := disk.Write([data], winsect + g.fsize);
    }

    /** move_window */
    method MoveWindow(sect: nat) returns (res: FResult)
      requires Valid() && sect < |disk.device|
      modifies this`wflag, this`winsect, win, disk, disk.shared
      ensures Valid() && res in {FR_OK, FR_DISK_ERR}
      ensures SamePrimary(g, old(Logical()), Logical())
      ensures disk.reliable ==> res == FR_OK && Logical() == old(Logical())
      ensures res == FR_OK ==> winsect == sect && win[..] == Logical()[sect]
    {
      res := FR_OK;
      if sect != winsect {
        res := SyncWindow();
        if res == FR_OK {
          var s := sect;
          SectorMoves(s);
          var read, data := disk.Read(s, 1);
          if read == RES_OK {
            assert data[0] == disk.device[s];
            forall i | 0 <= i < win.Length { win[i] := data[0][i]; }
            assert win[..] == data[0];
          } else {
            s := ANY_ERROR;
            res := FR_DISK_ERR;
          }
          winsect := s;
        }
      }
    }

    /** disk_read of data sectors, which the window does not show. */
    method ReadData(sect: nat, n: nat, ghost c: nat, ghost o: nat) returns (data: seq<Sector>)
      requires Valid() && disk.reliable && Run(sect, n, c, o)
      requires g.database <= sect && sect + n <= |disk.device| && !(sect <= winsect < sect + n)
      modifies disk, disk.shared
      ensures Valid() && Logical() == old(Logical())
      ensures data == Logical()[sect..sect + n]
    {
      RunMoves(c, o, n);
      var res;
      res, data := disk.Read(sect, n);
      forall i | sect <= i < sect + n
        ensures Logical()[i] == disk.device[i]
      {
        assert !InMirror(g, i);
      }
    }

    /** disk_write of data sectors, which the window does not show. */
    method WriteData(data: seq<Sector>, sect: nat, ghost c: nat, ghost o: nat)
      requires Valid() && disk.reliable && Run(sect, |data|, c, o)
      requires forall j :: 0 <= j < |data| ==> |data[j]| == g.ss
      requires g.database <= sect && sect + |data| <= |disk.device| && !(sect <= winsect < sect + |data|)
      modifies disk, disk.shared
      ensures Valid() && Logical() == Splice(old(Logical()), sect, data)
    {
      RunMoves(c, o, |data|);
      ghost var d := disk.device;
      var _ := disk.Write(data, sect);
      if wflag {
        OverlaySplice(g, d, winsect, win[..], sect, data);
      }
    }

    /** Storing a byte into a window that shows the FAT sector of byte k. */
    method PokeFat(ghost k: nat, off: nat, v: byte)
      requires Valid() && InTable(g, k) && winsect == g.fatbase + Quot(k, g.ss)
      requires off == Rem(k, g.ss)
      modifies this`wflag, win
      ensures Valid() && wflag
      ensures ByteStored(g, old(Logical()), Logical(), k, v)
      ensures MirrorKept(g, old(Logical()), Logical())
    {
      QuotRem(k, g.ss);
      ghost var before, w := Logical(), win[..];
      StoreInWindow(off, v);
      OverlayStoresByte(g, before, k, v, w[off := v]);
    }

    method StoreInWindow(off: nat, v: byte)
      requires Valid() && off < g.ss && winsect < |disk.device| && InFat1(g, winsect)
      modifies this`wflag, win
      ensures Valid() && wflag && Logical() == Overlay(g, old(Logical()), winsect, old(win[..])[off := v])
    {
      ghost var before, w := Logical(), win[..];
      win[off] := v;
      wflag := true;
      assert win[..] == w[off := v];
      assert Logical() == Overlay(g, before, winsect, w[off := v]);
    }

    /** move_window to the sector of byte k of the FAT, and the byte there. */
    method LoadFatByte(k: nat) returns (res: FResult, b: byte)
      requires Valid() && InTable(g, k)
      modifies this`wflag, this`winsect, win, disk, disk.shared
      ensures Valid() && res in {FR_OK, FR_DISK_ERR}
      ensures SamePrimary(g, old(Logical()), Logical())
      ensures disk.reliable ==> res == FR_OK && Logical() == old(Logical())
      ensures res == FR_OK ==> winsect == g.fatbase + Quot(k, g.ss) && b == FatByte(g, Logical(), k)
    {
      QuotRem(k, g.ss);
      b := 0;
      res := MoveWindow(g.fatbase + Quot(k, g.ss));
      if res == FR_OK {
        b := win[Rem(k, g.ss)];
      }
    }

    /** The window shows byte k of the FAT. */
    lemma {:induction false} WindowByte(k: nat)
      requires Valid() && InTable(g, k) && winsect == g.fatbase + Quot(k, g.ss)
      ensures Rem(k, g.ss) < g.ss && win[Rem(k, g.ss)] == FatByte(g, Logical(), k)
    {
      QuotRem(k, g.ss);
    }

    /** The window shows the four bytes of a FAT32 entry. */
    lemma {:induction false} WindowDword(c: nat)
      requires Valid() && DwordInTable(g, c * 4) && winsect == g.fatbase + Quot(c, g.ss / 4)
      ensures winsect == g.fatbase + Quot(c * 4, g.ss) && Rem(c * 4, g.ss) + 3 < g.ss
      ensures win[Rem(c * 4, g.ss)] == FatByte(g, Logical(), c * 4)
      ensures win[Rem(c * 4, g.ss) + 1] == FatByte(g, Logical(), c * 4 + 1)
      ensures win[Rem(c * 4, g.ss) + 2] == FatByte(g, Logical(), c * 4 + 2)
      ensures win[Rem(c * 4, g.ss) + 3] == FatByte(g, Logical(), c * 4 + 3)
    {
      DwordPlace(g.ss, c);
      WindowByte(c * 4);
      WindowByte(c * 4 + 1);
      WindowByte(c * 4 + 2);
      WindowByte(c * 4 + 3);
    }

    /** get_fat: 1 for a cluster number out of range, 0xFFFFFFFF on a disk error. */
    method GetFat(clst: nat) returns (val: nat)
      requires Valid()
      modifies this`wflag, this`winsect, win, disk, disk.shared
      ensures Valid() && SamePrimary(g, old(Logical()), Logical()) && Fat() == old(Fat())
      ensures clst < 2 || clst >= g.nFatent ==> val == 1 && Logical() == old(Logical())
      ensures 2 <= clst < g.nFatent ==> val == Fat()[clst] || val == ANY_ERROR
      ensures disk.reliable ==> Logical() == old(Logical())
      ensures disk.reliable && 2 <= clst < g.nFatent ==> val == Fat()[clst] && InFat1(g, winsect)
      ensures clst < 2 || clst >= g.nFatent ==> winsect == old(winsect)
    {
      if clst < 2 || clst >= g.nFatent {
        return 1;
      }
      assert EntryFits(g, clst);
      match g.fsType {
        case FAT12 => val := GetFat12(clst);
        case FAT16 => val := GetFat16(clst);
        case FAT32 => val := GetFat32(clst);
      }
      PrimaryEntries(g, old(Logical()), Logical());
    }

    method GetFat12(clst: nat) returns (val: nat)
      requires Valid() && g.fsType == FAT12 && clst < g.nFatent && EntryFits(g, clst)
      modifies this`wflag, this`winsect, win, disk, disk.shared
      ensures Valid() && SamePrimary(g, old(Logical()), Logical())
      ensures val == Fat()[clst] || val == ANY_ERROR
      ensures disk.reliable ==> val == Fat()[clst] && Logical() == old(Logical()) && InFat1(g, winsect)
    {
      val := ANY_ERROR;
      var bc := clst + clst / 2;
      var res, b0 := LoadFatByte(bc);
      if res == FR_OK {
        ghost var mid := Logical();
        var b1;
        res, b1 := LoadFatByte(bc + 1);
        if res == FR_OK {
          EntryIs12(g, mid, Logical(), clst, b0, b1);
          val := Decode12(clst, b0, b1);
        }
      }
    }

    method GetFat16(clst: nat) returns (val: nat)
      requires Valid() && g.fsType == FAT16 && clst < g.nFatent && EntryFits(g, clst)
      modifies this`wflag, this`winsect, win, disk, disk.shared
      ensures Valid() && SamePrimary(g, old(Logical()), Logical())
      ensures val == Fat()[clst] || val == ANY_ERROR
      ensures disk.reliable ==> val == Fat()[clst] && Logical() == old(Logical()) && InFat1(g, winsect)
    {
      val := ANY_ERROR;
      WordPlace(g.ss, clst);
      var res := MoveWindow(g.fatbase + Quot(clst, g.ss / 2));
      if res == FR_OK {
        val := WindowEntry16(clst);
      }
    }

    /** ld_word from the window. */
    method WindowEntry16(clst: nat) returns (val: nat)
      requires Valid() && g.fsType == FAT16 && clst < g.nFatent && EntryFits(g, clst)
      requires winsect == g.fatbase + Quot(clst, g.ss / 2)
      ensures val == Fat()[clst]
    {
      WordPlace(g.ss, clst);
      WindowByte(clst * 2);
      WindowByte(clst * 2 + 1);
      var off := Rem(clst * 2, g.ss);
      val := Word(win[off], win[off + 1]);
    }

    method GetFat32(clst: nat) returns (val: nat)
      requires Valid() && g.fsType == FAT32 && clst < g.nFatent && DwordInTable(g, clst * 4)
      modifies this`wflag, this`winsect, win, disk, disk.shared
      ensures Valid() && SamePrimary(g, old(Logical()), Logical())
      ensures val == Fat()[clst] || val == ANY_ERROR
      ensures disk.reliable ==> val == Fat()[clst] && Logical() == old(Logical()) && InFat1(g, winsect)
    {
      val := ANY_ERROR;
      DwordPlace(g.ss, clst);
      var res := MoveWindow(g.fatbase + Quot(clst, g.ss / 4));
      if res == FR_OK {
        val := WindowEntry32(clst);
      }
    }

    /** ld_dword from the window, without the reserved bits. */
    method WindowEntry32(clst: nat) returns (val: nat)
      requires Valid() && g.fsType == FAT32 && clst < g.nFatent && DwordInTable(g, clst * 4)
      requires winsect == g.fatbase + Quot(clst, g.ss / 4)
      ensures val == Fat()[clst]
    {
      WindowDword(clst);
      var off := Rem(clst * 4, g.ss);
      val := Low28(win[off], win[off + 1], win[off + 2], win[off + 3]);
      EntryIs32(g, Logical(), clst);
    }

    /** The top byte of the entry, which holds the reserved bits. */
    method WindowTop32(clst: nat) returns (top: byte)
      requires Valid() && DwordInTable(g, clst * 4) && winsect == g.fatbase + Quot(clst, g.ss / 4)
      ensures top == FatByte(g, Logical(), clst * 4 + 3)
    {
      WindowDword(clst);
      top := win[Rem(clst * 4, g.ss) + 3];
    }

    /** put_fat */
    method PutFat(clst: nat, val: nat) returns (res: FResult)
      requires Valid() && val < TWO32
      modifies this`wflag, this`winsect, win, disk, disk.shared
      ensures Valid() && SameOutsideFats(g, old(Logical()), Logical())
      ensures res in {FR_OK, FR_DISK_ERR, FR_INT_ERR}
      ensures clst < 2 || clst >= g.nFatent <==> res == FR_INT_ERR
      ensures res == FR_INT_ERR ==> Logical() == old(Logical()) && winsect == old(winsect)
      ensures res == FR_OK ==> EntryStored(g, old(Logical()), Logical(), clst, val) && InFat1(g, winsect)
      ensures disk.reliable ==> res != FR_DISK_ERR && MirrorKept(g, old(Logical()), Logical())
    {
      if clst < 2 || clst >= g.nFatent {
        return FR_INT_ERR;
      }
      assert EntryFits(g, clst);
      match g.fsType {
        case FAT12 => res := PutFat12(clst, val);
        case FAT16 => res := PutFat16(clst, val);
        case FAT32 => res := PutFat32(clst, val);
      }
    }

    /** One of the two bytes of a FAT12 entry: the other entry's nibble in it is kept. */
    method StoreNibbles(clst: nat, k: nat, high: bool, val: nat) returns (res: FResult)
      requires Valid() && InTable(g, k)
      modifies this`wflag, this`winsect, win, disk, disk.shared
      ensures Valid() && res in {FR_OK, FR_DISK_ERR} && SameOutsideFats(g, old(Logical()), Logical())
      ensures res == FR_OK ==>
                && InFat1(g, winsect)
                && var b := FatByte(g, old(Logical()), k);
                   ByteStored(g, old(Logical()), Logical(), k, if high then High12(clst, b, val) else Low12(clst, b, val))
      ensures disk.reliable ==> res == FR_OK && MirrorKept(g, old(Logical()), Logical())
    {
      ghost var d := Logical();
      var b;
      res, b := LoadFatByte(k);
      ghost var m := Logical();
      PrimaryBytes(g, d, m);
      if res == FR_OK {
        var v: byte := if high then High12(clst, b, val) else Low12(clst, b, val);
        PokeFat(k, Rem(k, g.ss), v);
        PrimaryThenByte(g, d, m, Logical(), k, v);
      }
    }

    method PutFat12(clst: nat, val: nat) returns (res: FResult)
      requires Valid() && g.fsType == FAT12 && clst < g.nFatent && EntryFits(g, clst)
      modifies this`wflag, this`winsect, win, disk, disk.shared
      ensures Valid() && SameOutsideFats(g, old(Logical()), Logical()) && res in {FR_OK, FR_DISK_ERR}
      ensures res == FR_OK ==> EntryStored(g, old(Logical()), Logical(), clst, val) && InFat1(g, winsect)
      ensures disk.reliable ==> res == FR_OK && MirrorKept(g, old(Logical()), Logical())
    {
      var bc := clst + clst / 2;
      ghost var d := Logical();
      res := StoreNibbles(clst, bc, false, val);
      if res == FR_OK {
        ghost var m := Logical();
        res := StoreNibbles(clst, bc + 1, true, val);
        if res == FR_OK {
          StoredFat12(g, d, m, Logical(), clst, val);
        }
      }
    }

    method PutFat16(clst: nat, val: nat) returns (res: FResult)
      requires Valid() && g.fsType == FAT16 && clst < g.nFatent && EntryFits(g, clst)
      modifies this`wflag, this`winsect, win, disk, disk.shared
      ensures Valid() && SameOutsideFats(g, old(Logical()), Logical()) && res in {FR_OK, FR_DISK_ERR}
      ensures res == FR_OK ==> EntryStored(g, old(Logical()), Logical(), clst, val) && InFat1(g, winsect)
      ensures disk.reliable ==> res == FR_OK && MirrorKept(g, old(Logical()), Logical())
    {
      WordPlace(g.ss, clst);
      ghost var d := Logical();
      res := MoveWindow(g.fatbase + Quot(clst, g.ss / 2));
      ghost var m := Logical();
      PrimaryBytes(g, d, m);
      if res == FR_OK {
        StoreWord(clst * 2, Rem(clst * 2, g.ss), val);
        StoredWord16(g, m, Logical(), clst, val);
        PrimaryThenEntry(g, d, m, Logical(), clst, val);
      }
    }

    method PutFat32(clst: nat, val: nat) returns (res: FResult)
      requires Valid() && g.fsType == FAT32 && clst < g.nFatent && EntryFits(g, clst)
      modifies this`wflag, this`winsect, win, disk, disk.shared
      ensures Valid() && SameOutsideFats(g, old(Logical()), Logical()) && res in {FR_OK, FR_DISK_ERR}
      ensures res == FR_OK ==> EntryStored(g, old(Logical()), Logical(), clst, val) && InFat1(g, winsect)
      ensures disk.reliable ==> res == FR_OK && MirrorKept(g, old(Logical()), Logical())
    {
      DwordPlace(g.ss, clst);
      ghost var d := Logical();
      res := MoveWindow(g.fatbase + Quot(clst, g.ss / 4));
      ghost var m := Logical();
      PrimaryBytes(g, d, m);
      if res == FR_OK {
        StoreEntry32(clst, val);
        PrimaryThenEntry(g, d, m, Logical(), clst, val);
      }
    }

    /** The new 28 bits of the entry under the reserved bits it has now. */
    method StoreEntry32(clst: nat, val: nat)
      requires Valid() && g.fsType == FAT32 && clst < g.nFatent && EntryFits(g, clst)
      requires DwordInTable(g, clst * 4) && winsect == g.fatbase + Quot(clst, g.ss / 4)
      modifies this`wflag, win
      ensures Valid() && EntryStored(g, old(Logical()), Logical(), clst, val)
      ensures MirrorKept(g, old(Logical()), Logical())
    {
      ghost var d := Logical();
      var top := WindowTop32(clst);
      DwordPlace(g.ss, clst);
      StoreDword(clst * 4, Rem(clst * 4, g.ss), WithReserved(val, top));
      StoredDword32(g, d, Logical(), clst, val);
    }

    /** st_word into a window that shows the FAT sector of byte k. */
    method StoreWord(ghost k: nat, off: nat, w: nat)
      requires Valid() && InTable(g, k) && InTable(g, k + 1)
      requires winsect == g.fatbase + Quot(k, g.ss) && off == Rem(k, g.ss)
      requires Quot(k + 1, g.ss) == Quot(k, g.ss) && Rem(k + 1, g.ss) == off + 1
      modifies this`wflag, win
      ensures Valid() && wflag && MirrorKept(g, old(Logical()), Logical())
      ensures WordStored(g, old(Logical()), Logical(), k, w)
    {
      PokeFat(k, off, w % 256);
      PokeFat(k + 1, off + 1, w / 256 % 256);
    }

    /** st_dword into a window that shows the FAT sector of byte k. */
    method StoreDword(ghost k: nat, off: nat, w: nat)
      requires Valid() && DwordInTable(g, k)
      requires winsect == g.fatbase + Quot(k, g.ss) && off == Rem(k, g.ss)
      requires Quot(k + 1, g.ss) == Quot(k + 2, g.ss) == Quot(k + 3, g.ss) == Quot(k, g.ss)
      requires Rem(k + 1, g.ss) == off + 1 && Rem(k + 2, g.ss) == off + 2 && Rem(k + 3, g.ss) == off + 3
      modifies this`wflag, win
      ensures Valid() && wflag && MirrorKept(g, old(Logical()), Logical())
      ensures DwordStored(g, old(Logical()), Logical(), k, w)
    {
      ghost var d := Logical();
      StoreWord(k, off, w);
      ghost var m := Logical();
      StoreWord(k + 2, off + 2, w / 65536);
      WordsStored(g, d, m, Logical(), k, w);
    }
  }

  /** Writing data sectors and overlaying the window commute. */
  lemma {:induction false} OverlaySplice(g: Layout, d: seq<Sector>, s: nat, w: Sector, at: nat, data: seq<Sector>)
    requires Shaped(g, d) && FatEnd(g) <= g.database <= at && at + |data| <= |d| && s < |d| && |w| == g.ss
    requires (forall j :: 0 <= j < |data| ==> |data[j]| == g.ss) && !(at <= s < at + |data|)
    requires Shaped(g, Splice(d, at, data))
    ensures Overlay(g, Splice(d, at, data), s, w) == Splice(Overlay(g, d, s, w), at, data)
  {
  }

  /** The two bytes of a FAT16 entry lie in one sector. */
  lemma {:induction false} WordPlace(ss: nat, c: nat)
    requires ss in {512, 1024, 2048, 4096}
    ensures Quot(c * 2, ss) == Quot(c, ss / 2) == Quot(c * 2 + 1, ss)
    ensures Rem(c * 2 + 1, ss) == Rem(c * 2, ss) + 1 < ss
  {
    DoubledUnit(c, ss / 2);
    SameUnit(ss, c * 2, 1);
  }

  /** The four bytes of a FAT32 entry lie in one sector. */
  lemma {:induction false} DwordPlace(ss: nat, c: nat)
    requires ss in {512, 1024, 2048, 4096}
    ensures Quot(c * 4, ss) == Quot(c, ss / 4) == Quot(c * 4 + 1, ss)
            == Quot(c * 4 + 2, ss) == Quot(c * 4 + 3, ss)
    ensures Rem(c * 4 + 1, ss) == Rem(c * 4, ss) + 1 && Rem(c * 4 + 2, ss) == Rem(c * 4, ss) + 2
    ensures Rem(c * 4 + 3, ss) == Rem(c * 4, ss) + 3 < ss
  {
    DoubledUnit(c, ss / 4);
    DoubledUnit(2 * c, ss / 2);
    assert 2 * (2 * c) == c * 4 && 2 * (ss / 4) == ss / 2 && 2 * (ss / 2) == ss;
    SameUnit(ss, c * 4, 1);
    SameUnit(ss, c * 4, 2);
    SameUnit(ss, c * 4, 3);
  }
}
