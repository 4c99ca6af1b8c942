/**
 * The bytes of a file: its cluster chain, the sectors of the disk, and the one sector kept in
 * the file's own buffer.
 */
module FileImage {
  import opened Arith
  import opened Bytes
  import opened BlockIo
  import opened FatEntries
  import opened Chains

  /** Sector number k of the file lies in its chain. */
  predicate InChain(g: Layout, chain: seq<nat>, k: nat)
    requires g.csize > 0
  {
    Quot(k, g.csize) < |chain|
  }

  /** Byte i of the file lies in its chain. */
  predicate InFile(g: Layout, chain: seq<nat>, i: nat)
    requires g.csize > 0 && g.ss > 0
  {
    InChain(g, chain, Quot(i, g.ss))
  }

  /** The cluster of byte i. */
  function ClusterOfByte(g: Layout, chain: seq<nat>, i: nat): nat
    requires g.csize > 0 && g.ss > 0 && InFile(g, chain, i)
  {
    chain[Quot(Quot(i, g.ss), g.csize)]
  }

  /** The first `size` bytes lie in the chain. */
  ghost predicate Allocated(g: Layout, chain: seq<nat>, size: nat) {
    g.csize > 0 && g.ss > 0 && forall i: nat :: i < size ==> InFile(g, chain, i)
  }

  /** Distinct data clusters of the volume. */
  ghost predicate DataClusters(g: Layout, total: nat, chain: seq<nat>) {
    && g.csize > 0 && g.ss > 0 && ClustersFit(g, total)
    && (forall i :: 0 <= i < |chain| ==> 2 <= chain[i] < g.nFatent)
    && Distinct(chain)
  }

  /** Disk sector of sector k of the file. */
  function FileSector(g: Layout, chain: seq<nat>, k: nat): nat
    requires g.csize > 0 && InChain(g, chain, k) && forall i :: 0 <= i < |chain| ==> chain[i] >= 2
  {
    ClusterSector(g, chain[Quot(k, g.csize)]) + Rem(k, g.csize)
  }

  /** File sectors are data sectors on the device. */
  lemma {:induction false} FileSectorOnDevice(g: Layout, total: nat, chain: seq<nat>, k: nat)
    requires DataClusters(g, total, chain) && InChain(g, chain, k)
    ensures g.database <= FileSector(g, chain, k) < total
    ensures Rem(k, g.csize) < g.csize
  {
    QuotRem(k, g.csize);
    assert ClusterFits(g, total, chain[Quot(k, g.csize)]);
  }

  lemma {:induction false} ClustersApart(g: Layout, c: nat, d: nat, x: nat, y: nat)
    requires c >= 2 && d >= 2 && x < g.csize && y < g.csize
    requires ClusterSector(g, c) + x == ClusterSector(g, d) + y
    ensures c == d && x == y
  {
    TimesMono(c - 2, d - 2, g.csize);
    TimesMono(d - 2, c - 2, g.csize);
  }

  /** Different file sectors are different disk sectors. */
  lemma {:induction false} FileSectorInjective(g: Layout, total: nat, chain: seq<nat>, k: nat, l: nat)
    requires DataClusters(g, total, chain) && InChain(g, chain, k) && InChain(g, chain, l)
    requires FileSector(g, chain, k) == FileSector(g, chain, l)
    ensures k == l
  {
    QuotRem(k, g.csize);
    QuotRem(l, g.csize);
    ClustersApart(g, chain[Quot(k, g.csize)], chain[Quot(l, g.csize)], Rem(k, g.csize), Rem(l, g.csize));
    assert Different(chain, Quot(k, g.csize), Quot(l, g.csize));
  }

  /** Sectors of one cluster are adjacent. */
  lemma {:induction false} SameCluster(g: Layout, chain: seq<nat>, k: nat, j: nat)
    requires g.csize > 0 && InChain(g, chain, k) && Rem(k, g.csize) + j < g.csize
    requires forall i :: 0 <= i < |chain| ==> chain[i] >= 2
    ensures InChain(g, chain, k + j) && FileSector(g, chain, k + j) == FileSector(g, chain, k) + j
  {
    SameUnit(g.csize, k, j);
  }

  // Contents ------------------------------------------------------------------------------------

  /** What is known of the file beyond its size: the disk, the chain and the buffered sector. */
  datatype Image = Image(g: Layout, d: seq<Sector>, chain: seq<nat>, dirty: bool, cur: nat, buf: Sector)

  /** The buffer holds sector `cur` of the file and may be newer than the disk. */
  ghost predicate ValidImage(m: Image) {
    && Shaped(m.g, m.d) && InRange(m.g, |m.d|) && DataClusters(m.g, |m.d|, m.chain)
    && |m.buf| == m.g.ss && (m.dirty ==> InChain(m.g, m.chain, m.cur))
  }

  /** Contents of sector k of the file. */
  ghost function SectorData(m: Image, k: nat): (s: Sector)
    requires ValidImage(m) && InChain(m.g, m.chain, k)
    ensures |s| == m.g.ss
  {
    FileSectorOnDevice(m.g, |m.d|, m.chain, k);
    if m.dirty && m.cur == k then m.buf else m.d[FileSector(m.g, m.chain, k)]
  }

  /** Byte i of the file. */
  ghost function ByteAt(m: Image, i: nat): byte
    requires ValidImage(m) && InFile(m.g, m.chain, i)
  {
    QuotRem(i, m.g.ss);
    SectorData(m, Quot(i, m.g.ss))[Rem(i, m.g.ss)]
  }

  /**
   * Where byte i of the file lies, in plain arithmetic: in the cluster of the chain that i belongs
   * to, that many sectors behind the first of the data area.
   */
  lemma {:induction false} PlainPlace(m: Image, i: nat)
    requires ValidImage(m) && InFile(m.g, m.chain, i)
    ensures var g, bcs := m.g, m.g.ss * m.g.csize;
            && bcs > 0 && 0 <= i / bcs < |m.chain|
            && var s := g.database + (m.chain[i / bcs] - 2) * g.csize + i % bcs / g.ss;
               && 0 <= s < |m.d| && |m.d[s]| == g.ss
               && FileSector(g, m.chain, Quot(i, g.ss)) == s && Quot(i, g.ss) == i / g.ss && Rem(i, g.ss) == i % g.ss
  {
    var g := m.g;
    PlainUnits(i, g.ss, g.csize);
    ClusterPlaces(g, m.chain[Quot(Quot(i, g.ss), g.csize)]);
    FileSectorOnDevice(g, |m.d|, m.chain, Quot(i, g.ss));
  }

  /** The byte stored for byte i, in the buffer if that is newer than the disk. */
  ghost function StoredByte(m: Image, i: nat): byte
    requires ValidImage(m) && InFile(m.g, m.chain, i)
  {
    PlainPlace(m, i);
    var bcs := m.g.ss * m.g.csize;
    if m.dirty && m.cur == i / m.g.ss then m.buf[i % m.g.ss]
    else m.d[m.g.database + (m.chain[i / bcs] - 2) * m.g.csize + i % bcs / m.g.ss][i % m.g.ss]
  }

  lemma {:induction false} ByteIsStored(m: Image, i: nat)
    requires ValidImage(m) && InFile(m.g, m.chain, i)
    ensures ByteAt(m, i) == StoredByte(m, i)
  {
    PlainPlace(m, i);
  }

  /** The first `size` bytes of the file. */
  ghost function Contents(m: Image, size: nat): (c: seq<byte>)
    requires ValidImage(m) && Allocated(m.g, m.chain, size)
    ensures |c| == size && forall i :: 0 <= i < size ==> c[i] == ByteAt(m, i)
  {
    seq(size, i requires 0 <= i < size => ByteAt(m, i))
  }

  /** The contents are the bytes stored. */
  lemma {:induction false} ContentsStored(m: Image, size: nat)
    requires ValidImage(m) && Allocated(m.g, m.chain, size)
    ensures forall i: nat :: i < size ==> InFile(m.g, m.chain, i) && Contents(m, size)[i] == StoredByte(m, i)
  {
    forall i: nat | i < size
      ensures InFile(m.g, m.chain, i) && Contents(m, size)[i] == StoredByte(m, i)
    {
      ByteIsStored(m, i);
    }
  }

  /** `e` shows the same file sectors as `m`, and at least as many. */
  ghost predicate SameData(m: Image, e: Image) {
    && ValidImage(m) && ValidImage(e) && m.g == e.g && m.chain <= e.chain
    && forall k: nat :: InChain(m.g, m.chain, k) ==> InChain(e.g, e.chain, k) && SectorData(e, k) == SectorData(m, k)
  }

  lemma {:induction false} SameContents(m: Image, e: Image, size: nat)
    requires SameData(m, e) && Allocated(m.g, m.chain, size)
    ensures Allocated(e.g, e.chain, size) && Contents(e, size) == Contents(m, size)
  {
    forall i: nat | i < size
      ensures InFile(e.g, e.chain, i) && ByteAt(e, i) == ByteAt(m, i)
    {
      assert InFile(m.g, m.chain, i);
    }
  }

  /** Writing the dirty buffer back. */
  lemma {:induction false} FlushSame(m: Image)
    requires ValidImage(m) && m.dirty
    ensures var s := FileSector(m.g, m.chain, m.cur);
            && m.g.database <= s < |m.d|
            && var e := m.(d := m.d[s := m.buf], dirty := false);
               SameData(m, e) && OthersUntouched(m, e)
  {
    var s := FileSector(m.g, m.chain, m.cur);
    FileSectorOnDevice(m.g, |m.d|, m.chain, m.cur);
    var e := m.(d := m.d[s := m.buf], dirty := false);
    DataUpkeep(m.g, m.d, e.d);
    forall k: nat | InChain(m.g, m.chain, k)
      ensures SectorData(e, k) == SectorData(m, k)
    {
      FileSectorOnDevice(m.g, |m.d|, m.chain, k);
      if FileSector(m.g, m.chain, k) == s {
        FileSectorInjective(m.g, |m.d|, m.chain, k, m.cur);
      }
    }
  }

  /** Changes of the FAT and of the window's sector do not reach the file. */
  lemma {:induction false} DiskFrameSame(m: Image, d: seq<Sector>)
    requires ValidImage(m) && Shaped(m.g, d) && |d| == |m.d|
    requires forall i :: m.g.database <= i < |d| ==> d[i] == m.d[i]
    ensures SameData(m, m.(d := d))
  {
    forall k: nat | InChain(m.g, m.chain, k)
      ensures SectorData(m.(d := d), k) == SectorData(m, k)
    {
      FileSectorOnDevice(m.g, |m.d|, m.chain, k);
    }
  }

  /** A longer chain. */
  lemma {:induction false} LongerChainSame(m: Image, chain: seq<nat>)
    requires ValidImage(m) && m.chain <= chain && DataClusters(m.g, |m.d|, chain)
    ensures SameData(m, m.(chain := chain))
  {
    forall k: nat | InChain(m.g, m.chain, k)
      ensures SectorData(m.(chain := chain), k) == SectorData(m, k)
    {
      assert m.chain[Quot(k, m.g.csize)] == chain[Quot(k, m.g.csize)];
    }
  }

  lemma {:induction false} ChainDataClusters(g: Layout, total: nat, f: seq<nat>, chain: seq<nat>)
    requires g.csize > 0 && g.ss > 0 && ClustersFit(g, total) && |f| == g.nFatent && IsChain(f, chain)
    ensures DataClusters(g, total, chain)
  {
    ChainDistinct(f, chain);
  }

  /** Everything up to an allocated byte is allocated. */
  lemma {:induction false} AllocatedUpTo(g: Layout, chain: seq<nat>, size: nat, last: nat)
    requires Allocated(g, chain, size) && InFile(g, chain, last)
    ensures Allocated(g, chain, if size < last + 1 then last + 1 else size)
  {
    forall i: nat | i <= last
      ensures InFile(g, chain, i)
    {
      QuotMono(g.ss, i, last);
      QuotMono(g.csize, Quot(i, g.ss), Quot(last, g.ss));
    }
  }

  /** The last of n > 0 bytes at place j of sector k. */
  lemma {:induction false} LastInSector(g: Layout, chain: seq<nat>, at: nat, n: nat)
    requires g.ss > 0 && g.csize > 0 && InFile(g, chain, at) && n > 0 && Rem(at, g.ss) + n <= g.ss
    ensures InFile(g, chain, at + n - 1)
    ensures ClusterOfByte(g, chain, at + n - 1) == ClusterOfByte(g, chain, at)
    ensures Rem(at + n, g.ss) != 0 ==> Quot(at + n, g.ss) == Quot(at, g.ss)
  {
    SameUnit(g.ss, at, n - 1);
    if Rem(at, g.ss) + n < g.ss {
      SameUnit(g.ss, at, n);
    } else {
      QuotRem(at, g.ss);
      QuotUnique(g.ss, Quot(at, g.ss) + 1, 0, at + n);
    }
  }

  /** The last byte of n > 0 sectors of one cluster. */
  lemma {:induction false} LastOfSectors(g: Layout, chain: seq<nat>, at: nat, n: nat)
    requires g.ss > 0 && g.csize > 0 && InFile(g, chain, at) && n > 0 && Rem(at, g.ss) == 0
    requires Rem(Quot(at, g.ss), g.csize) + n <= g.csize
    ensures Times(n, g.ss) > 0 && Rem(at + Times(n, g.ss), g.ss) == 0
    ensures InFile(g, chain, at + Times(n, g.ss) - 1)
    ensures ClusterOfByte(g, chain, at + Times(n, g.ss) - 1) == ClusterOfByte(g, chain, at)
  {
    var k := Quot(at, g.ss);
    QuotRem(at, g.ss);
    TimesAdd(k, n, g.ss);
    TimesMono(0, n, g.ss);
    QuotUnique(g.ss, k + n, 0, at + Times(n, g.ss));
    QuotUnique(g.ss, k + n - 1, g.ss - 1, at + Times(n, g.ss) - 1);
    SameUnit(g.csize, k, n - 1);
  }

  /** Within a cluster, the byte at a sector boundary is in the cluster of the byte before. */
  lemma {:induction false} SameClusterOf(g: Layout, chain: seq<nat>, i: nat)
    requires g.ss > 0 && g.csize > 0 && i > 0 && InFile(g, chain, i - 1)
    requires Rem(i, g.ss) != 0 || Rem(Quot(i, g.ss), g.csize) != 0
    ensures InFile(g, chain, i) && ClusterOfByte(g, chain, i) == ClusterOfByte(g, chain, i - 1)
  {
    QuotRem(i, g.ss);
    if Rem(i, g.ss) != 0 {
      QuotUnique(g.ss, Quot(i, g.ss), Rem(i, g.ss) - 1, i - 1);
    } else {
      var q := Quot(i, g.ss);
      QuotRem(q, g.csize);
      assert q > 0 by { assert Times(0, g.ss) == 0; }
      QuotUnique(g.ss, q - 1, g.ss - 1, i - 1);
      QuotUnique(g.csize, Quot(q, g.csize), Rem(q, g.csize) - 1, q - 1);
    }
  }

  /** A chain was stretched while the disk changed in the FATs only. */
  lemma {:induction false} GrownSame(m: Image, e: Image)
    requires ValidImage(m) && ValidImage(e) && m.g == e.g && m.chain <= e.chain && |m.d| == |e.d|
    requires e.dirty == m.dirty && e.cur == m.cur && e.buf == m.buf
    requires OnlyEntries(m.g, m.d, e.d)
    ensures SameData(m, e) && OthersUntouched(m, e)
  {
    DiskFrameSame(m, e.d);
    LongerChainSame(m.(d := e.d), e.chain);
    SameDataTransitive(m, m.(d := e.d), e);
  }

  /** At the end of a cluster the next byte is in the next cluster of the chain. */
  lemma {:induction false} NextClusterOf(ss: nat, csize: nat, i: nat)
    requires ss > 0 && csize > 0 && i > 0 && Rem(i, ss) == 0 && Rem(Quot(i, ss), csize) == 0
    ensures Quot(Quot(i, ss), csize) == Quot(Quot(i - 1, ss), csize) + 1
  {
    var q := Quot(i, ss);
    var c := Quot(q, csize);
    QuotRem(i, ss);
    QuotRem(q, csize);
    assert q > 0 by { assert Times(0, ss) == 0; }
    assert c > 0 by { assert Times(0, csize) == 0; }
    QuotUnique(ss, q - 1, ss - 1, i - 1);
    QuotUnique(csize, c - 1, csize - 1, q - 1);
  }

  lemma {:induction false} SameDataTransitive(a: Image, b: Image, c: Image)
    requires SameData(a, b) && SameData(b, c)
    ensures SameData(a, c)
  {
  }

  /** Sectors outside the FATs that are not sectors of the file. */
  ghost predicate Outside(g: Layout, chain: seq<nat>, s: nat)
    requires g.csize > 0 && forall i :: 0 <= i < |chain| ==> chain[i] >= 2
  {
    !InFats(g, s) && forall k: nat :: InChain(g, chain, k) ==> FileSector(g, chain, k) != s
  }

  /**
   * From m to e nothing changed but the entries of the FATs and the sectors of the file: boot
   * sector, reserved sectors, root directory and the clusters of other objects did not.
   */
  ghost predicate OthersUntouched(m: Image, e: Image) {
    && ValidImage(m) && ValidImage(e) && m.g == e.g && m.chain <= e.chain && |m.d| == |e.d|
    && Upkeep(m.g, m.d, e.d)
    && forall s: nat {:trigger Outside(e.g, e.chain, s)} ::
         s < |m.d| && Outside(e.g, e.chain, s) ==> e.d[s] == m.d[s]
  }

  lemma {:induction false} OthersUntouchedTransitive(a: Image, b: Image, c: Image)
    requires OthersUntouched(a, b) && OthersUntouched(b, c)
    ensures OthersUntouched(a, c)
  {
    UpkeepTransitive(a.g, a.d, b.d, c.d);
    forall s: nat | s < |a.d| && Outside(c.g, c.chain, s)
      ensures c.d[s] == a.d[s]
    {
      PrefixOutside(c.g, b.chain, c.chain, s);
    }
  }

  lemma {:induction false} PrefixOutside(g: Layout, chain: seq<nat>, longer: seq<nat>, s: nat)
    requires g.csize > 0 && (forall i :: 0 <= i < |longer| ==> longer[i] >= 2) && chain <= longer
    requires Outside(g, longer, s)
    ensures Outside(g, chain, s)
  {
    forall k: nat | InChain(g, chain, k)
      ensures FileSector(g, chain, k) != s
    {
      assert InChain(g, longer, k);
      assert chain[Quot(k, g.csize)] == longer[Quot(k, g.csize)];
    }
  }

  // Writing -------------------------------------------------------------------------------------

  /** Of the first `size` bytes, those from `at` on were replaced by w; the others are the same. */
  ghost predicate Replaced(m: Image, e: Image, at: nat, w: seq<byte>, size: nat) {
    && ValidImage(m) && ValidImage(e) && m.g == e.g && m.chain == e.chain && Allocated(m.g, m.chain, size)
    && forall i: nat :: i < size ==>
         InFile(m.g, m.chain, i) && ByteAt(e, i) == if at <= i < at + |w| then w[i - at] else ByteAt(m, i)
  }

  /** The bytes of n sectors, sector by sector. */
  function Slices(w: seq<byte>, ss: nat, n: nat): (r: seq<Sector>)
    requires Times(n, ss) <= |w|
    ensures |r| == n && forall j :: 0 <= j < n ==> |r[j]| == ss
    ensures forall j :: 0 <= j < n ==> Times(j, ss) + ss <= |w| && r[j] == w[Times(j, ss)..Times(j, ss) + ss]
  {
    if n == 0 then [] else
      TimesMono(n - 1, n, ss);
      Slices(w, ss, n - 1) + [w[Times(n - 1, ss)..Times(n - 1, ss) + ss]]
  }

  /** Byte position i lies in one of n sectors from sector k on exactly if it lies in their bytes. */
  lemma {:induction false} BytesOfSectors(ss: nat, k: nat, n: nat, i: nat)
    requires ss > 0
    ensures Times(k, ss) <= i < Times(k, ss) + Times(n, ss) <==> k <= Quot(i, ss) < k + n
    ensures k <= Quot(i, ss) ==> i - Times(k, ss) == Times(Quot(i, ss) - k, ss) + Rem(i, ss)
  {
    TimesAdd(k, n, ss);
    QuotBelow(ss, i, k);
    QuotBelow(ss, i, k + n);
    QuotRem(i, ss);
    if k <= Quot(i, ss) {
      TimesAdd(k, Quot(i, ss) - k, ss);
    }
  }

  /** Sectors written directly to the disk while the buffer is clean. */
  lemma {:induction false} DirectSectors(m: Image, e: Image, k: nat, r: seq<Sector>, l: nat)
    requires ValidImage(m) && ValidImage(e) && !m.dirty && !e.dirty && e.g == m.g && e.chain == m.chain
    requires InChain(m.g, m.chain, k) && |r| > 0 && Rem(k, m.g.csize) + |r| <= m.g.csize
    requires FileSector(m.g, m.chain, k) + |r| <= |m.d|
    requires e.d == Splice(m.d, FileSector(m.g, m.chain, k), r)
    requires InChain(m.g, m.chain, l)
    ensures SectorData(e, l) == if k <= l < k + |r| then r[l - k] else SectorData(m, l)
  {
    var s, t := FileSector(m.g, m.chain, k), FileSector(m.g, m.chain, l);
    FileSectorOnDevice(m.g, |m.d|, m.chain, l);
    if k <= l < k + |r| {
      SameCluster(m.g, m.chain, k, l - k);
    } else if s <= t < s + |r| {
      SameCluster(m.g, m.chain, k, t - s);
      FileSectorInjective(m.g, |m.d|, m.chain, l, k + (t - s));
    }
  }

  lemma {:induction false} DirectWrite(m: Image, e: Image, k: nat, at: nat, w: seq<byte>, n: nat, r: seq<Sector>,
                                       size: nat)
    requires ValidImage(m) && ValidImage(e) && !m.dirty && !e.dirty && e.g == m.g && e.chain == m.chain
    requires InChain(m.g, m.chain, k) && n > 0 && Rem(k, m.g.csize) + n <= m.g.csize
    requires FileSector(m.g, m.chain, k) + n <= |m.d| && |w| == Times(n, m.g.ss)
    requires r == Slices(w, m.g.ss, n) && e.d == Splice(m.d, FileSector(m.g, m.chain, k), r)
    requires at == Times(k, m.g.ss) && Allocated(m.g, m.chain, size)
    ensures Replaced(m, e, at, w, size)
  {
    forall i: nat | i < size
      ensures InFile(m.g, m.chain, i)
      ensures ByteAt(e, i) == if at <= i < at + |w| then w[i - at] else ByteAt(m, i)
    {
      assert InFile(m.g, m.chain, i);
      DirectSectors(m, e, k, r, Quot(i, m.g.ss));
      DirectByte(m, e, k, w, n, r, i);
    }
  }

  lemma {:induction false} DirectOutside(m: Image, e: Image, k: nat, r: seq<Sector>)
    requires ValidImage(m) && ValidImage(e) && e.g == m.g && e.chain == m.chain
    requires InChain(m.g, m.chain, k) && Rem(k, m.g.csize) + |r| <= m.g.csize
    requires FileSector(m.g, m.chain, k) + |r| <= |m.d|
    requires e.d == Splice(m.d, FileSector(m.g, m.chain, k), r)
    ensures OthersUntouched(m, e)
  {
    var f := FileSector(m.g, m.chain, k);
    FileSectorOnDevice(m.g, |m.d|, m.chain, k);
    DataUpkeep(m.g, m.d, e.d);
    forall s: nat | s < |m.d| && Outside(e.g, e.chain, s)
      ensures e.d[s] == m.d[s]
    {
      if f <= s < f + |r| {
        SameCluster(m.g, m.chain, k, s - f);
      }
    }
  }

  lemma {:induction false} DirectByte(m: Image, e: Image, k: nat, w: seq<byte>, n: nat, r: seq<Sector>, i: nat)
    requires ValidImage(m) && ValidImage(e) && e.g == m.g && e.chain == m.chain
    requires |w| == Times(n, m.g.ss) && InFile(m.g, m.chain, i) && r == Slices(w, m.g.ss, n) && |r| == n
    requires var q := Quot(i, m.g.ss);
             SectorData(e, q) == if k <= q < k + n then r[q - k] else SectorData(m, q)
    ensures var at := Times(k, m.g.ss);
            ByteAt(e, i) == if at <= i < at + |w| then w[i - at] else ByteAt(m, i)
  {
    PlaceInSlices(m.g.ss, k, w, n, i);
  }

  lemma {:induction false} PlaceInSlices(ss: nat, k: nat, w: seq<byte>, n: nat, i: nat)
    requires ss > 0 && |w| == Times(n, ss)
    ensures var at, q := Times(k, ss), Quot(i, ss);
            && (at <= i < at + |w| <==> k <= q < k + n)
            && Rem(i, ss) < ss
            && (at <= i < at + |w| ==> Slices(w, ss, n)[q - k][Rem(i, ss)] == w[i - at])
  {
    QuotRem(i, ss);
    BytesOfSectors(ss, k, n, i);
    if k <= Quot(i, ss) < k + n {
      CutByte(w, ss, n, Quot(i, ss) - k, Rem(i, ss));
    }
  }

  lemma {:induction false} CutByte(w: seq<byte>, ss: nat, n: nat, j: nat, x: nat)
    requires Times(n, ss) <= |w| && j < n && x < ss
    ensures Times(j, ss) + x < |w| && Slices(w, ss, n)[j][x] == w[Times(j, ss) + x]
  {
    var r := Slices(w, ss, n);
    assert r[j] == w[Times(j, ss)..Times(j, ss) + ss];
    assert r[j][x] == w[Times(j, ss) + x];
  }

  /**
   * Bytes stored into the buffer.  The buffer held the sector already, or nothing of the sector
   * was part of the file so far.
   */
  lemma {:induction false} BufferedWrite(m: Image, e: Image, k: nat, j: nat, at: nat, base: Sector, w: seq<byte>,
                                         size: nat, newSize: nat)
    requires ValidImage(m) && InChain(m.g, m.chain, k) && (m.dirty ==> m.cur == k)
    requires |base| == m.g.ss && j + |w| <= m.g.ss
    requires e == m.(dirty := true, cur := k, buf := Splice(base, j, w))
    requires base == SectorData(m, k) || (size <= Times(k, m.g.ss) && j == 0)
    requires at == Times(k, m.g.ss) + j && Allocated(m.g, m.chain, newSize)
    requires newSize == if size < at + |w| then at + |w| else size
    ensures Replaced(m, e, at, w, newSize)
  {
    forall i: nat | i < newSize
      ensures InFile(m.g, m.chain, i)
      ensures ByteAt(e, i) == if at <= i < at + |w| then w[i - at] else ByteAt(m, i)
    {
      assert InFile(m.g, m.chain, i);
      BufferedSector(m, e, k, Quot(i, m.g.ss));
      BufferedByte(m, e, k, j, base, w, size, i);
    }
  }

  lemma {:induction false} BufferedByte(m: Image, e: Image, k: nat, j: nat, base: Sector, w: seq<byte>,
                                        size: nat, i: nat)
    requires ValidImage(m) && ValidImage(e) && e.g == m.g && e.chain == m.chain && InFile(m.g, m.chain, i)
    requires InChain(m.g, m.chain, k) && |base| == m.g.ss && j + |w| <= m.g.ss
    requires var q := Quot(i, m.g.ss);
             SectorData(e, q) == if q == k then Splice(base, j, w) else SectorData(m, q)
    requires base == SectorData(m, k) || (size <= Times(k, m.g.ss) && j == 0)
    requires i < size || i < Times(k, m.g.ss) + j + |w|
    ensures var at := Times(k, m.g.ss) + j;
            ByteAt(e, i) == if at <= i < at + |w| then w[i - at] else ByteAt(m, i)
  {
    PlaceInSector(m.g.ss, k, j, |w|, i);
  }

  /** Position i lies in the n bytes from place j of sector k on. */
  lemma {:induction false} PlaceInSector(ss: nat, k: nat, j: nat, n: nat, i: nat)
    requires ss > 0 && j + n <= ss
    ensures Rem(i, ss) < ss
    ensures Times(k, ss) + j <= i < Times(k, ss) + j + n <==> Quot(i, ss) == k && j <= Rem(i, ss) < j + n
    ensures Quot(i, ss) == k ==> i == Times(k, ss) + Rem(i, ss)
  {
    QuotRem(i, ss);
    BytesOfSectors(ss, k, 1, i);
    assert Times(1, ss) == Times(0, ss) + ss;
  }

  lemma {:induction false} BufferedSector(m: Image, e: Image, k: nat, l: nat)
    requires ValidImage(m) && ValidImage(e) && (m.dirty ==> m.cur == k) && InChain(m.g, m.chain, l)
    requires e.g == m.g && e.d == m.d && e.chain == m.chain && e.dirty && e.cur == k
    ensures SectorData(e, l) == if l == k then e.buf else SectorData(m, l)
  {
  }

  // Reading -------------------------------------------------------------------------------------

  /** The bytes of sectors of equal size, in order. */
  function Flat(r: seq<Sector>): seq<byte> {
    if r == [] then [] else Flat(r[..|r| - 1]) + r[|r| - 1]
  }

  lemma {:induction false} FlatBytes(r: seq<Sector>, ss: nat, i: nat)
    requires ss > 0 && forall j :: 0 <= j < |r| ==> |r[j]| == ss
    ensures |Flat(r)| == Times(|r|, ss)
    ensures i < |Flat(r)| ==> Quot(i, ss) < |r| && Rem(i, ss) < ss && Flat(r)[i] == r[Quot(i, ss)][Rem(i, ss)]
  {
    if r != [] {
      var n := |r| - 1;
      FlatBytes(r[..n], ss, i);
      if Times(n, ss) <= i < Times(n, ss) + ss {
        QuotUnique(ss, n, i - Times(n, ss), i);
      }
    }
  }

  ghost predicate IsSector(m: Image, k: nat, s: Sector)
    requires ValidImage(m)
  {
    InChain(m.g, m.chain, k) && s == SectorData(m, k)
  }

  /** Sectors read from the disk, with the dirty buffer in place of its own sector. */
  lemma {:induction false} DirectRead(m: Image, k: nat, r: seq<Sector>, j: nat)
    requires ValidImage(m) && InChain(m.g, m.chain, k) && Rem(k, m.g.csize) + |r| <= m.g.csize && j < |r|
    requires FileSector(m.g, m.chain, k) + |r| <= |m.d|
    requires var s := FileSector(m.g, m.chain, k);
             r[j] == if m.dirty && s + j == FileSector(m.g, m.chain, m.cur) then m.buf else m.d[s + j]
    ensures IsSector(m, k + j, r[j])
  {
    SameCluster(m.g, m.chain, k, j);
    if m.dirty && FileSector(m.g, m.chain, k + j) == FileSector(m.g, m.chain, m.cur) {
      FileSectorInjective(m.g, |m.d|, m.chain, k + j, m.cur);
    }
  }

  /** All of them. */
  lemma {:induction false} SectorsRead(m: Image, k: nat, s: nat, raw: seq<Sector>, sect: nat, r: seq<Sector>)
    requires ValidImage(m) && InChain(m.g, m.chain, k) && Rem(k, m.g.csize) + |raw| <= m.g.csize
    requires s == FileSector(m.g, m.chain, k) && s + |raw| <= |m.d| && raw == m.d[s..s + |raw|]
    requires m.dirty ==> sect == FileSector(m.g, m.chain, m.cur)
    requires r == if m.dirty && s <= sect < s + |raw| then raw[sect - s := m.buf] else raw
    ensures forall j :: 0 <= j < |raw| ==> IsSector(m, k + j, r[j])
  {
    forall j | 0 <= j < |raw|
      ensures IsSector(m, k + j, r[j])
    {
      assert raw[j] == m.d[s + j];
      DirectRead(m, k, r, j);
    }
  }

  /** The bytes of sectors of the file are the bytes of the file there. */
  lemma {:induction false} SectorsShow(m: Image, k: nat, at: nat, r: seq<Sector>, size: nat)
    requires ValidImage(m) && Allocated(m.g, m.chain, size) && at == Times(k, m.g.ss)
    requires forall j :: 0 <= j < |r| ==> IsSector(m, k + j, r[j])
    requires at + |Flat(r)| <= size
    ensures Flat(r) == Contents(m, size)[at..at + |Flat(r)|]
  {
    var c := Contents(m, size);
    forall i | 0 <= i < |Flat(r)|
      ensures Flat(r)[i] == c[at + i]
    {
      FlatBytes(r, m.g.ss, i);
      SectorsShowByte(m, k, at, r, i);
    }
  }

  /** n sectors one behind the other. */
  lemma {:induction false} FlatShows(m: Image, k: nat, at: nat, r: seq<Sector>, n: nat, size: nat)
    requires ValidImage(m) && Allocated(m.g, m.chain, size) && at == Times(k, m.g.ss) && n == |r|
    requires (forall j :: 0 <= j < n ==> IsSector(m, k + j, r[j])) && at + Times(n, m.g.ss) <= size
    ensures |Flat(r)| == Times(n, m.g.ss) && Flat(r) == Contents(m, size)[at..at + Times(n, m.g.ss)]
  {
    assert forall j :: 0 <= j < |r| ==> IsSector(m, k + j, r[j]) && |r[j]| == m.g.ss;
    FlatBytes(r, m.g.ss, 0);
    SectorsShow(m, k, at, r, size);
  }

  lemma {:induction false} SectorsShowByte(m: Image, k: nat, at: nat, r: seq<Sector>, i: nat)
    requires ValidImage(m) && at == Times(k, m.g.ss) && Quot(i, m.g.ss) < |r| && Rem(i, m.g.ss) < m.g.ss
    requires forall j :: 0 <= j < |r| ==> IsSector(m, k + j, r[j])
    ensures InFile(m.g, m.chain, at + i) && |r[Quot(i, m.g.ss)]| == m.g.ss
    ensures ByteAt(m, at + i) == r[Quot(i, m.g.ss)][Rem(i, m.g.ss)]
  {
    QuotRem(i, m.g.ss);
    TimesAdd(k, Quot(i, m.g.ss), m.g.ss);
    QuotUnique(m.g.ss, k + Quot(i, m.g.ss), Rem(i, m.g.ss), at + i);
    assert IsSector(m, k + Quot(i, m.g.ss), r[Quot(i, m.g.ss)]);
  }

  /** Bytes from place j of sector k on are bytes of the file. */
  lemma {:induction false} PartShows(m: Image, k: nat, j: nat, at: nat, s: Sector, n: nat, size: nat)
    requires ValidImage(m) && Allocated(m.g, m.chain, size) && IsSector(m, k, s)
    requires j + n <= m.g.ss && at == Times(k, m.g.ss) + j && at + n <= size
    ensures s[j..j + n] == Contents(m, size)[at..at + n]
  {
    var c, t := Contents(m, size), s[j..j + n];
    forall i | 0 <= i < n
      ensures t[i] == c[at + i]
    {
      QuotUnique(m.g.ss, k, j + i, at + i);
    }
  }

  // The abstract file ---------------------------------------------------------------------------

  /** c with w written over it from position p <= |c| on. */
  function Overwrite(c: seq<byte>, p: nat, w: seq<byte>): seq<byte>
    requires p <= |c|
  {
    var n := if p + |w| > |c| then p + |w| else |c|;
    seq(n, i requires 0 <= i < n => if p <= i < p + |w| then w[i - p] else c[i])
  }

  lemma {:induction false} OverwriteElements(c: seq<byte>, p: nat, w: seq<byte>)
    requires p <= |c|
    ensures var r := Overwrite(c, p, w);
            && |r| == (if p + |w| > |c| then p + |w| else |c|)
            && forall i :: 0 <= i < |r| ==> r[i] == if p <= i < p + |w| then w[i - p] else c[i]
  {
  }

  /** Two adjacent writes are one. */
  lemma {:induction false} OverwriteTwice(c: seq<byte>, p: nat, v: seq<byte>, w: seq<byte>)
    requires p <= |c|
    ensures p + |v| <= |Overwrite(c, p, v)|
    ensures Overwrite(Overwrite(c, p, v), p + |v|, w) == Overwrite(c, p, v + w)
  {
  }

  lemma {:induction false} ReplacedContents(m: Image, e: Image, at: nat, w: seq<byte>, size: nat, newSize: nat)
    requires at <= size && Allocated(m.g, m.chain, size)
    requires newSize == if size < at + |w| then at + |w| else size
    requires Replaced(m, e, at, w, newSize)
    ensures Allocated(e.g, e.chain, newSize)
    ensures Contents(e, newSize) == Overwrite(Contents(m, size), at, w)
  {
    OverwriteElements(Contents(m, size), at, w);
  }
}
