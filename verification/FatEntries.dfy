/** The layout of a FAT volume and the entries packed in its FAT, as functions of the sectors. */
module FatEntries {
  import opened Arith
  import opened Bytes

  datatype FatType = FAT12 | FAT16 | FAT32

  /** The members of FATFS fixed by mount_volume. */
  datatype Layout = Layout(fsType: FatType, ss: nat, nFats: nat, fsize: nat, fatbase: nat,
                           database: nat, csize: nat, nFatent: nat)

  // Cluster counts the three sub-types may reach.
  const MAX_FAT12: nat := 0xFF5
  const MAX_FAT16: nat := 0xFFF5
  const MAX_FAT32: nat := 0x0FFF_FFF5

  function MaxClusters(t: FatType): nat {
    match t
    case FAT12 => MAX_FAT12
    case FAT16 => MAX_FAT16
    case FAT32 => MAX_FAT32
  }

  /** Bytes of FAT that mount_volume demands for n entries. */
  function NeededFatBytes(t: FatType, n: nat): nat {
    match t
    case FAT12 => n * 3 / 2 + n % 2
    case FAT16 => n * 2
    case FAT32 => n * 4
  }

  /** Ranges mount_volume has checked, for a device of `total` sectors. */
  ghost predicate InRange(g: Layout, total: nat) {
    && g.ss in {512, 1024, 2048, 4096}
    && (g.nFats == 1 || g.nFats == 2) && g.csize > 0
    && 3 <= g.nFatent <= MaxClusters(g.fsType) + 2
    && 0 < g.fatbase && FatEnd(g) <= g.database <= total < TWO32 - 1
  }

  /** What mount_volume has checked: the FAT holds all entries and the clusters lie on the device. */
  ghost predicate ValidLayout(g: Layout, total: nat) {
    && InRange(g, total)
    && Quot(NeededFatBytes(g.fsType, g.nFatent) + g.ss - 1, g.ss) <= g.fsize
    && g.nFatent - 2 <= Quot(total - g.database, g.csize)
  }

  /** First sector of a cluster. */
  function ClusterSector(g: Layout, c: nat): nat
    requires c >= 2
  {
    g.database + Times(c - 2, g.csize)
  }

  /** Clusters follow each other from `database` on, csize sectors each. */
  lemma {:induction false} ClusterPlaces(g: Layout, c: nat)
    requires c >= 2
    ensures ClusterSector(g, 2) == g.database && ClusterSector(g, c + 1) == ClusterSector(g, c) + g.csize
    ensures ClusterSector(g, c) == g.database + (c - 2) * g.csize
  {
    TimesIsProduct(c - 2, g.csize);
  }

  ghost predicate ClusterFits(g: Layout, total: nat, c: nat)
    requires c >= 2
  {
    ClusterSector(g, c) + g.csize <= total
  }

  ghost predicate ClustersFit(g: Layout, total: nat) {
    forall c: nat :: 2 <= c < g.nFatent ==> ClusterFits(g, total, c)
  }

  lemma {:induction false} LayoutClustersFit(g: Layout, total: nat)
    requires ValidLayout(g, total)
    ensures ClustersFit(g, total)
  {
    forall c: nat | 2 <= c < g.nFatent
      ensures ClusterFits(g, total, c)
    {
      var q := Quot(total - g.database, g.csize);
      QuotRem(total - g.database, g.csize);
      TimesMono(c - 2, q, g.csize);
    }
  }

  /** End of the FAT area. */
  function FatEnd(g: Layout): nat {
    g.fatbase + if g.nFats == 2 then g.fsize + g.fsize else g.fsize
  }

  /** Sectors of the first FAT, of all FATs, and of the second FAT. */
  predicate InFat1(g: Layout, s: int) { g.fatbase <= s < g.fatbase + g.fsize }

  predicate InFats(g: Layout, s: int) { g.fatbase <= s < FatEnd(g) }

  predicate InMirror(g: Layout, s: int) { g.fatbase + g.fsize <= s < FatEnd(g) }

  /** The sectors of a disk fit the layout. */
  ghost predicate Shaped(g: Layout, d: seq<Sector>) {
    && g.ss > 0 && FatEnd(g) <= |d|
    && forall s :: 0 <= s < |d| ==> |d[s]| == g.ss
  }

  /** The second FAT equals the first. */
  ghost predicate Mirrored(g: Layout, d: seq<Sector>)
    requires Shaped(g, d)
  {
    g.nFats == 2 ==> forall s: nat {:trigger InFat1(g, s)} :: InFat1(g, s) ==> d[s + g.fsize] == d[s]
  }

  /** The disk with one sector replaced, in both FATs when it lies in the first. */
  ghost function Overlay(g: Layout, d: seq<Sector>, s: nat, w: Sector): (r: seq<Sector>)
    requires Shaped(g, d) && s < |d| && |w| == g.ss
    ensures Shaped(g, r) && |r| == |d| && r[s] == w
    ensures forall i :: 0 <= i < |d| && i != s && !InMirror(g, i) ==> r[i] == d[i]
    ensures !InFat1(g, s) ==> r == d[s := w]
    ensures Mirrored(g, d) && !InMirror(g, s) ==> Mirrored(g, r)
  {
    if g.nFats == 2 && InFat1(g, s) then d[s := w][s + g.fsize := w] else d[s := w]
  }

  // Bytes of the FAT ----------------------------------------------------------------------------

  /** k is the offset of a byte of the first FAT. */
  predicate InTable(g: Layout, k: nat)
    requires g.ss > 0
  {
    Quot(k, g.ss) < g.fsize
  }

  predicate DwordInTable(g: Layout, k: nat)
    requires g.ss > 0
  {
    InTable(g, k) && InTable(g, k + 1) && InTable(g, k + 2) && InTable(g, k + 3)
  }

  /** Byte k of the first FAT. */
  ghost function FatByte(g: Layout, d: seq<Sector>, k: nat): byte
    requires Shaped(g, d) && InTable(g, k)
  {
    QuotRem(k, g.ss);
    d[g.fatbase + Quot(k, g.ss)][Rem(k, g.ss)]
  }

  /** `e` agrees with `d` except perhaps in the FATs. */
  ghost predicate SameOutsideFats(g: Layout, d: seq<Sector>, e: seq<Sector>)
    requires Shaped(g, d)
  {
    && Shaped(g, e) && |e| == |d|
    && (forall i :: 0 <= i < |d| && !InFats(g, i) ==> e[i] == d[i])
  }

  /** The disks differ in the second FAT at most. */
  ghost predicate SamePrimary(g: Layout, d: seq<Sector>, e: seq<Sector>)
    requires Shaped(g, d)
  {
    && Shaped(g, e) && |e| == |d|
    && (forall i :: 0 <= i < |d| && !InMirror(g, i) ==> e[i] == d[i])
  }

  /** Two FATs that agreed still agree. */
  ghost predicate MirrorKept(g: Layout, d: seq<Sector>, e: seq<Sector>)
    requires Shaped(g, d) && Shaped(g, e)
  {
    Mirrored(g, d) ==> Mirrored(g, e)
  }

  /** The bytes of the first FAT outside [lo, hi] are equal. */
  ghost predicate OtherBytesSame(g: Layout, d: seq<Sector>, e: seq<Sector>, lo: nat, hi: nat)
    requires Shaped(g, d) && Shaped(g, e)
  {
    forall j: nat :: InTable(g, j) && (j < lo || hi < j) ==> FatByte(g, e, j) == FatByte(g, d, j)
  }

  /** `e` is `d` with byte k of the FAT set to v. */
  ghost predicate ByteStored(g: Layout, d: seq<Sector>, e: seq<Sector>, k: nat, v: byte)
    requires Shaped(g, d) && InTable(g, k)
  {
    SameOutsideFats(g, d, e) && FatByte(g, e, k) == v && OtherBytesSame(g, d, e, k, k)
  }

  /** Replacing a byte of a FAT sector, in both FATs, stores that byte of the FAT. */
  lemma {:induction false} OverlayStoresByte(g: Layout, d: seq<Sector>, k: nat, v: byte, w: Sector)
    requires Shaped(g, d) && InTable(g, k)
    requires Rem(k, g.ss) < g.ss && w == d[g.fatbase + Quot(k, g.ss)][Rem(k, g.ss) := v]
    ensures ByteStored(g, d, Overlay(g, d, g.fatbase + Quot(k, g.ss), w), k, v)
    ensures MirrorKept(g, d, Overlay(g, d, g.fatbase + Quot(k, g.ss), w))
  {
    var s := g.fatbase + Quot(k, g.ss);
    var e := Overlay(g, d, s, w);
    assert e[s] == w;
    forall j: nat | InTable(g, j) && j != k
      ensures FatByte(g, e, j) == FatByte(g, d, j)
    {
      QuotRemInjective(g.ss, j, k);
      QuotRem(j, g.ss);
      var r := g.fatbase + Quot(j, g.ss);
      assert !InMirror(g, r);
      if r != s {
        assert e[r] == d[r];
      }
    }
  }

  /** The second FAT has no part in the bytes of the first. */
  lemma {:induction false} PrimaryBytes(g: Layout, d: seq<Sector>, e: seq<Sector>)
    requires Shaped(g, d) && SamePrimary(g, d, e)
    ensures SameOutsideFats(g, d, e)
    ensures forall k: nat :: InTable(g, k) ==> FatByte(g, e, k) == FatByte(g, d, k)
  {
    forall k: nat | InTable(g, k)
      ensures FatByte(g, e, k) == FatByte(g, d, k)
    {
      assert !InMirror(g, g.fatbase + Quot(k, g.ss));
    }
  }

  // Entries -------------------------------------------------------------------------------------

  /** Offset of the first byte of entry c, and number of bytes it touches. */
  function EntryOffset(t: FatType, c: nat): nat {
    match t
    case FAT12 => c + c / 2
    case FAT16 => c * 2
    case FAT32 => c * 4
  }

  function EntryWidth(t: FatType): nat {
    if t == FAT32 then 4 else 2
  }

  /** All bytes of the entry lie in the FAT. */
  ghost predicate EntryFits(g: Layout, c: nat)
    requires g.ss > 0
  {
    var k := EntryOffset(g.fsType, c);
    InTable(g, k) && InTable(g, k + 1) && (g.fsType == FAT32 ==> InTable(g, k + 2) && InTable(g, k + 3))
  }

  /** All entries do. */
  ghost predicate TableFits(g: Layout) {
    g.ss > 0 && forall c: nat :: c < g.nFatent ==> EntryFits(g, c)
  }

  lemma {:induction false} ByteInTable(ss: nat, k: nat, need: nat, size: nat)
    requires ss > 0 && k < need && Quot(need + ss - 1, ss) <= size
    ensures Quot(k, ss) < size
  {
    var up := Quot(need + ss - 1, ss);
    QuotRem(need + ss - 1, ss);
    QuotBelow(ss, k, up);
  }

  lemma {:induction false} EntryNeeded(t: FatType, c: nat, n: nat)
    requires c < n
    ensures EntryOffset(t, c) + (if t == FAT32 then 3 else 1) < NeededFatBytes(t, n)
  {
    match t
    case FAT12 => Halves(c, n);
    case FAT16 =>
    case FAT32 =>
  }

  lemma {:induction false} Halves(c: nat, n: nat)
    requires c < n
    ensures c + c / 2 + 1 < n * 3 / 2 + n % 2
  {
    var h, k := c / 2, n / 2;
    assert n * 3 / 2 == n + k && c <= 2 * h + 1;
  }

  lemma {:induction false} LayoutTableFits(g: Layout, total: nat)
    requires ValidLayout(g, total)
    ensures TableFits(g)
  {
    var need := NeededFatBytes(g.fsType, g.nFatent);
    forall c: nat | c < g.nFatent
      ensures EntryFits(g, c)
    {
      var k := EntryOffset(g.fsType, c);
      EntryNeeded(g.fsType, c, g.nFatent);
      ByteInTable(g.ss, k, need, g.fsize);
      ByteInTable(g.ss, k + 1, need, g.fsize);
      if g.fsType == FAT32 {
        ByteInTable(g.ss, k + 2, need, g.fsize);
        ByteInTable(g.ss, k + 3, need, g.fsize);
      }
    }
  }

  /** Value of entry c, as get_fat decodes it. */
  ghost function Entry(g: Layout, d: seq<Sector>, c: nat): (v: nat)
    requires Shaped(g, d) && TableFits(g) && c < g.nFatent
    ensures v < EntryLimit(g.fsType)
  {
    assert EntryFits(g, c);
    var k := EntryOffset(g.fsType, c);
    var b0, b1 := FatByte(g, d, k), FatByte(g, d, k + 1);
    match g.fsType
    case FAT12 => Decode12(c, b0, b1)
    case FAT16 => Word(b0, b1)
    case FAT32 => Low28(b0, b1, FatByte(g, d, k + 2), FatByte(g, d, k + 3))
  }

  function Word(b0: byte, b1: byte): (v: nat)
    ensures v < 0x1_0000
  {
    b0 + 256 * b1
  }

  /** A FAT32 entry without its reserved bits. */
  function Low28(b0: byte, b1: byte, b2: byte, b3: byte): (v: nat)
    ensures v < 0x1000_0000
  {
    Dword(b0, b1, b2, b3) % 0x1000_0000
  }

  function Dword(b0: byte, b1: byte, b2: byte, b3: byte): nat {
    b0 + 256 * b1 + 65536 * b2 + 16777216 * b3
  }

  /** The byte of the disk that byte k of the first FAT is. */
  ghost function DiskByte(g: Layout, d: seq<Sector>, k: nat): byte
    requires Shaped(g, d) && InTable(g, k)
  {
    QuotRemAreDivMod(k, g.ss);
    QuotRem(k, g.ss);
    d[g.fatbase + k / g.ss][k % g.ss]
  }

  /** Entries of 12, 16 and 28 bits in the bytes of the disk, the low byte first. */
  lemma {:induction false} EntryOnDisk(g: Layout, d: seq<Sector>, c: nat)
    requires Shaped(g, d) && TableFits(g) && c < g.nFatent && EntryFits(g, c)
    ensures g.fsType == FAT12 && c % 2 == 0 ==>
              Entry(g, d, c) == DiskByte(g, d, c + c / 2) + 256 * (DiskByte(g, d, c + c / 2 + 1) % 16)
    ensures g.fsType == FAT12 && c % 2 == 1 ==>
              Entry(g, d, c) == DiskByte(g, d, c + c / 2) / 16 + 16 * DiskByte(g, d, c + c / 2 + 1)
    ensures g.fsType == FAT16 ==> Entry(g, d, c) == DiskByte(g, d, 2 * c) + 256 * DiskByte(g, d, 2 * c + 1)
    ensures g.fsType == FAT32 ==>
              Entry(g, d, c) == (DiskByte(g, d, 4 * c) + 256 * DiskByte(g, d, 4 * c + 1)
                                  + 65536 * DiskByte(g, d, 4 * c + 2) + 16777216 * DiskByte(g, d, 4 * c + 3)) % 0x1000_0000
  {
    var k := EntryOffset(g.fsType, c);
    SameByte(g, d, k);
    SameByte(g, d, k + 1);
    Decode12Digits(c, FatByte(g, d, k), FatByte(g, d, k + 1));
    if g.fsType == FAT32 {
      SameByte(g, d, k + 2);
      SameByte(g, d, k + 3);
    }
  }

  lemma {:induction false} SameByte(g: Layout, d: seq<Sector>, k: nat)
    requires Shaped(g, d) && InTable(g, k)
    ensures FatByte(g, d, k) == DiskByte(g, d, k)
  {
    QuotRemAreDivMod(k, g.ss);
  }

  /** One more than the largest entry value of the type; values are stored modulo this. */
  function EntryLimit(t: FatType): nat {
    match t
    case FAT12 => 0x1000
    case FAT16 => 0x1_0000
    case FAT32 => 0x1000_0000
  }

  /** The FAT as the map from cluster numbers to entry values. */
  ghost function FatOf(g: Layout, d: seq<Sector>): (f: seq<nat>)
    requires Shaped(g, d) && TableFits(g)
    ensures |f| == g.nFatent && forall c :: 0 <= c < g.nFatent ==> f[c] == Entry(g, d, c)
  {
    seq(g.nFatent, c requires 0 <= c < g.nFatent => Entry(g, d, c))
  }

  lemma {:induction false} EntryIs16(g: Layout, d: seq<Sector>, c: nat)
    requires Shaped(g, d) && TableFits(g) && c < g.nFatent && g.fsType == FAT16 && EntryFits(g, c)
    ensures InTable(g, c * 2) && InTable(g, c * 2 + 1)
    ensures FatOf(g, d)[c] == Word(FatByte(g, d, c * 2), FatByte(g, d, c * 2 + 1))
  {
  }

  lemma {:induction false} EntryIs32(g: Layout, d: seq<Sector>, c: nat)
    requires Shaped(g, d) && TableFits(g) && c < g.nFatent && g.fsType == FAT32 && DwordInTable(g, c * 4)
    ensures FatOf(g, d)[c] == Low28(FatByte(g, d, c * 4), FatByte(g, d, c * 4 + 1),
                                    FatByte(g, d, c * 4 + 2), FatByte(g, d, c * 4 + 3))
  {
  }

  /** The reserved upper four bits of a FAT32 entry. */
  ghost function ReservedBits(g: Layout, d: seq<Sector>, c: nat): (r: nat)
    requires Shaped(g, d) && TableFits(g) && c < g.nFatent && g.fsType == FAT32
    ensures r < 16
  {
    assert EntryFits(g, c);
    FatByte(g, d, c * 4 + 3) / 16
  }

  ghost predicate ReservedKept(g: Layout, d: seq<Sector>, e: seq<Sector>)
    requires Shaped(g, d) && Shaped(g, e)
  {
    TableFits(g) && g.fsType == FAT32 ==>
      forall x :: 0 <= x < g.nFatent ==> ReservedBits(g, e, x) == ReservedBits(g, d, x)
  }

  /** What a change of the FAT entries must not disturb: the second copy and the reserved bits. */
  ghost predicate Upkeep(g: Layout, d: seq<Sector>, e: seq<Sector>)
    requires Shaped(g, d) && Shaped(g, e)
  {
    MirrorKept(g, d, e) && ReservedKept(g, d, e)
  }

  /** Of the sectors only those of the FATs changed, and of these only the entries proper. */
  ghost predicate OnlyEntries(g: Layout, d: seq<Sector>, e: seq<Sector>)
    requires Shaped(g, d)
  {
    SameOutsideFats(g, d, e) && Upkeep(g, d, e)
  }

  /** `e` is `d` with entry c set to v, and nothing else changed. */
  ghost predicate EntryStored(g: Layout, d: seq<Sector>, e: seq<Sector>, c: nat, v: nat)
    requires Shaped(g, d) && TableFits(g) && c < g.nFatent
  {
    && SameOutsideFats(g, d, e)
    && FatOf(g, e) == FatOf(g, d)[c := v % EntryLimit(g.fsType)]
    && ReservedKept(g, d, e)
  }

  lemma {:induction false} PrimaryThenByte(g: Layout, d: seq<Sector>, m: seq<Sector>, e: seq<Sector>,
                                           k: nat, v: byte)
    requires Shaped(g, d) && InTable(g, k) && SamePrimary(g, d, m) && ByteStored(g, m, e, k, v)
    ensures ByteStored(g, d, e, k, v)
  {
    PrimaryBytes(g, d, m);
  }

  lemma {:induction false} PrimaryEntries(g: Layout, d: seq<Sector>, e: seq<Sector>)
    requires Shaped(g, d) && TableFits(g) && SamePrimary(g, d, e)
    ensures FatOf(g, e) == FatOf(g, d) && ReservedKept(g, d, e)
  {
    PrimaryBytes(g, d, e);
    forall x: nat | x < g.nFatent
      ensures Entry(g, e, x) == Entry(g, d, x)
      ensures g.fsType == FAT32 ==> ReservedBits(g, e, x) == ReservedBits(g, d, x)
    {
      assert EntryFits(g, x);
    }
  }

  /** The FAT depends on the sectors of the first FAT only. */
  lemma {:induction false} FatFrame(g: Layout, d: seq<Sector>, e: seq<Sector>)
    requires Shaped(g, d) && Shaped(g, e) && TableFits(g)
    requires forall i :: InFat1(g, i) ==> e[i] == d[i]
    ensures FatOf(g, e) == FatOf(g, d) && ReservedKept(g, d, e)
  {
    forall k: nat | InTable(g, k)
      ensures FatByte(g, e, k) == FatByte(g, d, k)
    {
      assert InFat1(g, g.fatbase + Quot(k, g.ss));
    }
    forall x: nat | x < g.nFatent
      ensures Entry(g, e, x) == Entry(g, d, x)
      ensures g.fsType == FAT32 ==> ReservedBits(g, e, x) == ReservedBits(g, d, x)
    {
      assert EntryFits(g, x);
    }
  }

  /** Writes past the FATs. */
  lemma {:induction false} DataUpkeep(g: Layout, d: seq<Sector>, e: seq<Sector>)
    requires Shaped(g, d) && Shaped(g, e)
    requires forall i :: InFats(g, i) ==> e[i] == d[i]
    ensures Upkeep(g, d, e) && (TableFits(g) ==> FatOf(g, e) == FatOf(g, d))
  {
    if TableFits(g) {
      FatFrame(g, d, e);
    }
  }

  lemma {:induction false} OnlyEntriesSame(g: Layout, d: seq<Sector>)
    requires Shaped(g, d)
    ensures OnlyEntries(g, d, d)
  {
  }

  lemma {:induction false} OnlyEntriesTransitive(g: Layout, d: seq<Sector>, m: seq<Sector>, e: seq<Sector>)
    requires Shaped(g, d) && OnlyEntries(g, d, m) && OnlyEntries(g, m, e)
    ensures OnlyEntries(g, d, e)
  {
    UpkeepTransitive(g, d, m, e);
  }

  lemma {:induction false} UpkeepTransitive(g: Layout, d: seq<Sector>, m: seq<Sector>, e: seq<Sector>)
    requires Shaped(g, d) && Shaped(g, m) && Shaped(g, e) && Upkeep(g, d, m) && Upkeep(g, m, e)
    ensures Upkeep(g, d, e)
  {
  }

  lemma {:induction false} PrimaryThenEntry(g: Layout, d: seq<Sector>, m: seq<Sector>, e: seq<Sector>,
                                            c: nat, v: nat)
    requires Shaped(g, d) && TableFits(g) && c < g.nFatent
    requires SamePrimary(g, d, m) && EntryStored(g, m, e, c, v)
    ensures EntryStored(g, d, e, c, v)
  {
    PrimaryBytes(g, d, m);
    PrimaryEntries(g, d, m);
  }

  // The bytes put_fat stores, type by type.

  function Low12(c: nat, was: byte, val: nat): byte {
    if c % 2 == 1 then was % 16 + val % 16 * 16 else val % 256
  }

  function High12(c: nat, was: byte, val: nat): byte {
    if c % 2 == 1 then val / 16 % 256 else was / 16 * 16 + val / 256 % 16
  }

  /** A FAT12 entry shares a byte with a neighbour and may straddle two sectors. */
  lemma {:induction false} StoredFat12(g: Layout, d: seq<Sector>, m: seq<Sector>, e: seq<Sector>, c: nat, val: nat)
    requires Shaped(g, d) && TableFits(g) && c < g.nFatent && g.fsType == FAT12 && EntryFits(g, c)
    requires ByteStored(g, d, m, c + c / 2, Low12(c, FatByte(g, d, c + c / 2), val))
    requires ByteStored(g, m, e, c + c / 2 + 1, High12(c, FatByte(g, m, c + c / 2 + 1), val))
    ensures EntryStored(g, d, e, c, val)
  {
    EntryBytesStored(g, d, e, c, val);
  }

  /** Once exactly the bytes of entry c hold their new values, the map is the old one updated at c. */
  lemma {:induction false} EntryBytesStored(g: Layout, d: seq<Sector>, e: seq<Sector>, c: nat, val: nat)
    requires Shaped(g, d) && Shaped(g, e) && TableFits(g) && c < g.nFatent && EntryFits(g, c)
    requires SameOutsideFats(g, d, e)
    requires var k := EntryOffset(g.fsType, c);
             && OtherBytesSame(g, d, e, k, k + EntryWidth(g.fsType) - 1)
             && NewBytes(g, d, e, c, k, val)
    ensures EntryStored(g, d, e, c, val)
  {
    forall x: nat | x < g.nFatent
      ensures Entry(g, e, x) == if x == c then val % EntryLimit(g.fsType) else Entry(g, d, x)
      ensures g.fsType == FAT32 ==> ReservedBits(g, e, x) == ReservedBits(g, d, x)
    {
      assert EntryFits(g, x);
      match g.fsType
      case FAT12 => EntryAfter12(g, d, e, c, val, x);
      case FAT16 => EntryAfter16(g, d, e, c, val, x);
      case FAT32 => EntryAfter32(g, d, e, c, val, x);
    }
  }

  /** The new values of the bytes of entry c. */
  ghost predicate NewBytes(g: Layout, d: seq<Sector>, e: seq<Sector>, c: nat, k: nat, val: nat)
    requires Shaped(g, d) && Shaped(g, e) && c < g.nFatent && EntryFits(g, c) && k == EntryOffset(g.fsType, c)
  {
    var b0, b1 := FatByte(g, e, k), FatByte(g, e, k + 1);
    match g.fsType
    case FAT12 => b0 == Low12(c, FatByte(g, d, k), val) && b1 == High12(c, FatByte(g, d, k + 1), val)
    case FAT16 => b0 == val % 256 && b1 == val / 256 % 256
    case FAT32 =>
      Dword(b0, b1, FatByte(g, e, k + 2), FatByte(g, e, k + 3))
      == val % 0x1000_0000 + FatByte(g, d, k + 3) / 16 * 0x1000_0000
  }

  lemma {:induction false} EntryAfter12(g: Layout, d: seq<Sector>, e: seq<Sector>, c: nat, val: nat, x: nat)
    requires Shaped(g, d) && Shaped(g, e) && TableFits(g) && c < g.nFatent && EntryFits(g, c)
    requires g.fsType == FAT12 && x < g.nFatent && EntryFits(g, x)
    requires OtherBytesSame(g, d, e, c + c / 2, c + c / 2 + 1) && NewBytes(g, d, e, c, c + c / 2, val)
    ensures Entry(g, e, x) == if x == c then val % 0x1000 else Entry(g, d, x)
  {
    var k, j := c + c / 2, x + x / 2;
    EntryDecodes12(g, d, x, j);
    EntryDecodes12(g, e, x, j);
    if x == c {
      OwnEntry12(g, d, e, c, val, k);
    } else {
      OtherEntry12(g, d, e, c, val, x, k, j);
    }
  }

  lemma {:induction false} EntryDecodes12(g: Layout, d: seq<Sector>, x: nat, j: nat)
    requires Shaped(g, d) && TableFits(g) && g.fsType == FAT12 && x < g.nFatent && EntryFits(g, x) && j == x + x / 2
    ensures Entry(g, d, x) == Decode12(x, FatByte(g, d, j), FatByte(g, d, j + 1))
  {
  }

  lemma {:induction false} OwnEntry12(g: Layout, d: seq<Sector>, e: seq<Sector>, c: nat, val: nat, k: nat)
    requires Shaped(g, d) && Shaped(g, e) && c < g.nFatent && EntryFits(g, c) && g.fsType == FAT12 && k == c + c / 2
    requires NewBytes(g, d, e, c, k, val)
    ensures Decode12(c, FatByte(g, e, k), FatByte(g, e, k + 1)) == val % 0x1000
  {
    Entry12(c, FatByte(g, d, k), FatByte(g, d, k + 1), val);
  }

  lemma {:induction false} OtherEntry12(g: Layout, d: seq<Sector>, e: seq<Sector>, c: nat, val: nat, x: nat, k: nat, j: nat)
    requires Shaped(g, d) && Shaped(g, e) && TableFits(g) && c < g.nFatent && EntryFits(g, c) && x != c
    requires g.fsType == FAT12 && x < g.nFatent && EntryFits(g, x) && k == c + c / 2 && j == x + x / 2
    requires OtherBytesSame(g, d, e, k, k + 1) && NewBytes(g, d, e, c, k, val)
    ensures Decode12(x, FatByte(g, e, j), FatByte(g, e, j + 1)) == Decode12(x, FatByte(g, d, j), FatByte(g, d, j + 1))
  {
    Neighbours12(c, x, FatByte(g, d, k), FatByte(g, d, k + 1), FatByte(g, d, j), FatByte(g, d, j + 1), val);
  }

  lemma {:induction false} EntryAfter16(g: Layout, d: seq<Sector>, e: seq<Sector>, c: nat, val: nat, x: nat)
    requires Shaped(g, d) && Shaped(g, e) && TableFits(g) && c < g.nFatent && EntryFits(g, c)
    requires g.fsType == FAT16 && x < g.nFatent && EntryFits(g, x)
    requires OtherBytesSame(g, d, e, c * 2, c * 2 + 1) && NewBytes(g, d, e, c, c * 2, val)
    ensures Entry(g, e, x) == if x == c then val % 0x1_0000 else Entry(g, d, x)
  {
    if x == c {
      WordBytes(val);
    } else {
      assert FatByte(g, e, x * 2) == FatByte(g, d, x * 2);
      assert FatByte(g, e, x * 2 + 1) == FatByte(g, d, x * 2 + 1);
    }
  }

  lemma {:induction false} WordBytes(v: nat)
    ensures v % 256 + 256 * (v / 256 % 256) == v % 0x1_0000
  {
    DivDiv(v, 256, 256);
  }

  lemma {:induction false} EntryAfter32(g: Layout, d: seq<Sector>, e: seq<Sector>, c: nat, val: nat, x: nat)
    requires Shaped(g, d) && Shaped(g, e) && TableFits(g) && c < g.nFatent && EntryFits(g, c)
    requires g.fsType == FAT32 && x < g.nFatent && EntryFits(g, x)
    requires OtherBytesSame(g, d, e, c * 4, c * 4 + 3) && NewBytes(g, d, e, c, c * 4, val)
    ensures Entry(g, e, x) == if x == c then val % 0x1000_0000 else Entry(g, d, x)
    ensures ReservedBits(g, e, x) == ReservedBits(g, d, x)
  {
    if x == c {
      NewEntry32(g, d, e, c, val);
    } else {
      OtherBytes32(g, d, e, c, x);
    }
  }

  lemma {:induction false} NewEntry32(g: Layout, d: seq<Sector>, e: seq<Sector>, c: nat, val: nat)
    requires Shaped(g, d) && Shaped(g, e) && TableFits(g) && c < g.nFatent && EntryFits(g, c)
    requires g.fsType == FAT32 && NewBytes(g, d, e, c, c * 4, val)
    ensures Entry(g, e, c) == val % 0x1000_0000 && ReservedBits(g, e, c) == ReservedBits(g, d, c)
  {
    var k, low := c * 4, val % 0x1000_0000;
    TopNibble(FatByte(g, e, k), FatByte(g, e, k + 1), FatByte(g, e, k + 2),
              FatByte(g, e, k + 3), low, FatByte(g, d, k + 3) / 16);
  }

  lemma {:induction false} OtherBytes32(g: Layout, d: seq<Sector>, e: seq<Sector>, c: nat, x: nat)
    requires Shaped(g, d) && Shaped(g, e) && g.fsType == FAT32 && x != c
    requires OtherBytesSame(g, d, e, c * 4, c * 4 + 3) && EntryFits(g, x)
    ensures FatByte(g, e, x * 4) == FatByte(g, d, x * 4)
    ensures FatByte(g, e, x * 4 + 1) == FatByte(g, d, x * 4 + 1)
    ensures FatByte(g, e, x * 4 + 2) == FatByte(g, d, x * 4 + 2)
    ensures FatByte(g, e, x * 4 + 3) == FatByte(g, d, x * 4 + 3)
  {
  }

  lemma {:induction false} TopNibble(b0: byte, b1: byte, b2: byte, b3: byte, low: nat, top: nat)
    requires low < 0x1000_0000 && Dword(b0, b1, b2, b3) == low + top * 0x1000_0000
    ensures Low28(b0, b1, b2, b3) == low && b3 / 16 == top
  {
    var v := Dword(b0, b1, b2, b3);
    DivModUnique(0x1000_0000, top, low, v);
    DivModUnique(16777216, b3, b0 + 256 * b1 + 65536 * b2, v);
    DivDiv(v, 16777216, 16);
  }

  function Decode12(c: nat, b0: byte, b1: byte): nat {
    if c % 2 == 1 then (b0 + 256 * b1) / 16 else (b0 + 256 * b1) % 4096
  }

  /** The entry decoded from two bytes read one after the other. */
  lemma {:induction false} EntryIs12(g: Layout, d: seq<Sector>, e: seq<Sector>, c: nat, b0: byte, b1: byte)
    requires Shaped(g, d) && SamePrimary(g, d, e) && TableFits(g) && g.fsType == FAT12 && c < g.nFatent && EntryFits(g, c)
    requires InTable(g, c + c / 2) && InTable(g, c + c / 2 + 1)
    requires b0 == FatByte(g, d, c + c / 2) && b1 == FatByte(g, e, c + c / 2 + 1)
    ensures FatOf(g, e)[c] == Decode12(c, b0, b1)
  {
    PrimaryBytes(g, d, e);
  }

  lemma {:induction false} Decode12Digits(c: nat, b0: byte, b1: byte)
    ensures Decode12(c, b0, b1) == if c % 2 == 1 then b0 / 16 + 16 * b1 else b0 + 256 * (b1 % 16)
  {
    assert b0 == b0 / 16 * 16 + b0 % 16 && b1 == b1 / 16 * 16 + b1 % 16;
    if c % 2 == 1 {
      DivModUnique(16, b0 / 16 + 16 * b1, b0 % 16, b0 + 256 * b1);
    } else {
      DivModUnique(4096, b1 / 16, b0 + 256 * (b1 % 16), b0 + 256 * b1);
    }
  }

  lemma {:induction false} Entry12(c: nat, b0: byte, b1: byte, val: nat)
    ensures Decode12(c, Low12(c, b0, val), High12(c, b1, val)) == val % 4096
  {
    Nibbles(val);
    Decode12Digits(c, Low12(c, b0, val), High12(c, b1, val));
  }

  /** The low twelve bits from their nibbles. */
  lemma {:induction false} Nibbles(val: nat)
    ensures val % 256 == val % 16 + 16 * (val / 16 % 16)
    ensures val / 16 % 256 == val / 16 % 16 + 16 * (val / 256 % 16)
    ensures val % 4096 == val % 16 + 16 * (val / 16 % 16) + 256 * (val / 256 % 16)
  {
    DivDiv(val, 16, 16);
    DivDiv(val / 16, 16, 16);
    DivDiv(val, 256, 16);
  }

  /** Entries sharing a byte are an even one and its successor. */
  lemma {:induction false} Offsets12(c: nat, x: nat)
    requires x != c
    ensures x + x / 2 != c + c / 2
    ensures c + c / 2 == x + x / 2 + 1 ==> c == x + 1 && x % 2 == 0
  {
    if x < c {
      assert c / 2 >= x / 2 && (c >= x + 2 ==> c / 2 >= x / 2 + 1);
    } else {
      assert x / 2 >= c / 2;
    }
  }

  /** The entry sharing a byte with c keeps its value. */
  lemma {:induction false} Neighbours12(c: nat, x: nat, b0: byte, b1: byte, x0: byte, x1: byte, val: nat)
    requires x != c
    requires c + c / 2 == x + x / 2 + 1 ==> b0 == x1
    requires x + x / 2 == c + c / 2 + 1 ==> x0 == b1
    ensures x + x / 2 != c + c / 2
    ensures c + c / 2 == x + x / 2 + 1 ==> Decode12(x, x0, Low12(c, b0, val)) == Decode12(x, x0, x1)
    ensures x + x / 2 == c + c / 2 + 1 ==> Decode12(x, High12(c, b1, val), x1) == Decode12(x, x0, x1)
  {
    Offsets12(c, x);
    Offsets12(x, c);
    Decode12Digits(x, x0, x1);
    if c + c / 2 == x + x / 2 + 1 {
      Decode12Digits(x, x0, Low12(c, b0, val));
      DivModUnique(16, val % 16, b0 % 16, Low12(c, b0, val));
    } else if x + x / 2 == c + c / 2 + 1 {
      Decode12Digits(x, High12(c, b1, val), x1);
      DivModUnique(16, b1 / 16, val / 256 % 16, High12(c, b1, val));
    }
  }

  /** `e` is `d` with the two bytes from k on set to w. */
  ghost predicate WordStored(g: Layout, d: seq<Sector>, e: seq<Sector>, k: nat, w: nat)
    requires Shaped(g, d) && InTable(g, k) && InTable(g, k + 1)
  {
    && SameOutsideFats(g, d, e) && OtherBytesSame(g, d, e, k, k + 1)
    && FatByte(g, e, k) == w % 256 && FatByte(g, e, k + 1) == w / 256 % 256
  }

  lemma {:induction false} StoredWord16(g: Layout, d: seq<Sector>, e: seq<Sector>, c: nat, val: nat)
    requires Shaped(g, d) && TableFits(g) && c < g.nFatent && g.fsType == FAT16 && EntryFits(g, c)
    requires WordStored(g, d, e, c * 2, val)
    ensures EntryStored(g, d, e, c, val)
  {
    EntryBytesStored(g, d, e, c, val);
  }

  lemma {:induction false} DwordBytes(v: nat)
    requires v < TWO32
    ensures Dword(v % 256, v / 256 % 256, v / 65536 % 256, v / 16777216 % 256) == v
  {
    DivDiv(v, 256, 256);
    DivDiv(v, 65536, 256);
    assert v % 16777216 == v % 256 + 256 * (v / 256 % 256) + 65536 * (v / 65536 % 256);
    DivModUnique(16777216, v / 16777216, v % 16777216, v);
    DivModUnique(256, 0, v / 16777216, v / 16777216);
  }

  /** The value put_fat stores: 28 bits of `val` under the reserved bits of the old top byte. */
  function WithReserved(val: nat, top: byte): (w: nat)
    ensures w < TWO32
  {
    val % 0x1000_0000 + top / 16 * 0x1000_0000
  }

  /** `e` is `d` with the four bytes from k on set to w. */
  ghost predicate DwordStored(g: Layout, d: seq<Sector>, e: seq<Sector>, k: nat, w: nat)
    requires Shaped(g, d) && DwordInTable(g, k)
  {
    && SameOutsideFats(g, d, e) && OtherBytesSame(g, d, e, k, k + 3)
    && FatByte(g, e, k) == w % 256 && FatByte(g, e, k + 1) == w / 256 % 256
    && FatByte(g, e, k + 2) == w / 65536 % 256 && FatByte(g, e, k + 3) == w / 16777216 % 256
  }

  lemma {:induction false} WordsStored(g: Layout, d: seq<Sector>, m: seq<Sector>, e: seq<Sector>,
                                       k: nat, w: nat)
    requires Shaped(g, d) && DwordInTable(g, k)
    requires WordStored(g, d, m, k, w) && WordStored(g, m, e, k + 2, w / 65536)
    ensures DwordStored(g, d, e, k, w)
  {
    DivDiv(w, 65536, 256);
  }

  lemma {:induction false} StoredDword32(g: Layout, d: seq<Sector>, e: seq<Sector>, c: nat, val: nat)
    requires Shaped(g, d) && TableFits(g) && c < g.nFatent && g.fsType == FAT32 && EntryFits(g, c)
    requires DwordStored(g, d, e, c * 4, WithReserved(val, FatByte(g, d, c * 4 + 3)))
    ensures EntryStored(g, d, e, c, val)
  {
    Reserved32(WithReserved(val, FatByte(g, d, c * 4 + 3)), val, FatByte(g, d, c * 4 + 3) / 16);
    EntryBytesStored(g, d, e, c, val);
  }

  lemma {:induction false} Reserved32(w: nat, val: nat, top: nat)
    requires top < 16 && w == val % 0x1000_0000 + top * 0x1000_0000
    ensures Dword(w % 256, w / 256 % 256, w / 65536 % 256, w / 16777216 % 256) == w
  {
    DwordBytes(w);
  }
}
