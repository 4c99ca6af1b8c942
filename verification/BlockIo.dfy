/** The block layer under FatFs: sectors re-blocked into the transfer units of the block device. */
module BlockIo {
  import opened Arith
  import opened Bytes

  datatype DiskResult = RES_OK | RES_ERROR

  datatype Request = BLK_REQ_READ | BLK_REQ_WRITE

  /** Number of transfer units touched by the sectors [s, s + n). */
  function TransferCount(t: nat, s: nat, n: nat): int
    requires t > 0
  {
    Quot(s + n + t - 1, t) - Quot(s, t)
  }

  // MOD_POWER_OF_2 and DIV_POWER_OF_2 for a power of two b.  The shift of a negative
  // int32_t is arithmetic, so the quotient rounds towards minus infinity.
  function ModPow2(a: nat, b: nat): nat
    requires b > 0
  {
    Rem(a, b)
  }

  function DivPow2(a: int, b: nat): int
    requires b > 0
  {
    if a >= 0 then Quot(a, b) else
      var up: int := Quot(-a + b - 1, b);
      -up
  }

  /** The head/tail/aligned computation common to disk_read and disk_write. */
  function SddfCount(t: nat, sector: nat, count: nat): int
    requires t > 0
  {
    QuotRem(sector, t);
    var head := ModPow2(t - ModPow2(sector, t), t);
    var tail := ModPow2(Sum32(sector, count), t);
    var aligned := Int32(count - head - tail);
    (if head != 0 then 1 else 0) + (if tail != 0 then 1 else 0) + DivPow2(aligned, t)
  }

  /** The distance from s up to the next unit. */
  lemma {:induction false} HeadSize(t: nat, a: nat)
    requires t > 0 && a < t
    ensures Rem(t - a, t) == if a == 0 then 0 else t - a
  {
    QuotUnique(t, 1, 0, t);
  }

  /** The remainder after head and tail is a whole number of units, possibly minus one. */
  lemma {:induction false} AlignedPart(t: nat, s: nat, n: nat)
    requires t > 0
    ensures var a, tail := Rem(s, t), Rem(s + n, t);
            var m: int := Quot(s + n, t) - Quot(s, t);
            var rest := n - (if a == 0 then 0 else t - a) - tail;
            && m >= 0 && DivPow2(rest, t) == m + (if a == 0 then 0 else -1)
            && rest + t >= 0
            && (a == 0 && tail == 0 ==> Times(m, t) == n)
  {
    var q, r := Quot(s, t), Quot(s + n, t);
    QuotRem(s, t);
    QuotRem(s + n, t);
    TimesMono(r, q, t);
    TimesAdd(q, r - q, t);
    if r > q {
      QuotUnique(t, r - q - 1, 0, Times(r - q - 1, t));
    }
    QuotUnique(t, r - q, 0, Times(r - q, t));
    QuotUnique(t, 1, t - 1, t + t - 1);
  }

  /** The unaligned remainder may be as low as -t; the sum is still the number of units touched. */
  lemma {:induction false} SddfCountIsTransferCount(t: nat, s: nat, n: nat)
    requires 0 < t <= 0x8000 && n < 0x4000_0000 && s + n < TWO32
    ensures SddfCount(t, s, n) == TransferCount(t, s, n)
  {
    var a, tail, r := Rem(s, t), Rem(s + n, t), Quot(s + n, t);
    QuotRem(s, t);
    QuotRem(s + n, t);
    HeadSize(t, a);
    AlignedPart(t, s, n);
    Int32Identity(n - (if a == 0 then 0 else t - a) - tail);
    assert Sum32(s, n) == s + n;
    QuotUnique(t, if tail == 0 then r else r + 1, if tail == 0 then t - 1 else tail - 1, s + n + t - 1);
  }

  lemma {:induction false} UnitsOnDevice(t: nat, end: nat, blocks: nat)
    requires t > 0 && end <= Times(blocks, t)
    ensures Times(Quot(end + t - 1, t), t) <= Times(blocks, t)
  {
    var up := Quot(end + t - 1, t);
    QuotRem(end + t - 1, t);
    TimesMono(blocks, up, t);
    TimesMono(up, blocks, t);
  }

  /** The units touched cover the sectors asked for and lie on the device when the sectors do. */
  lemma {:induction false} TransferSpan(t: nat, s: nat, n: nat, blocks: nat)
    requires t > 0 && s + n <= Times(blocks, t)
    ensures s == Times(Quot(s, t), t) + Rem(s, t)
    ensures 0 <= TransferCount(t, s, n)
    ensures s + n <= Times(Quot(s, t), t) + Times(TransferCount(t, s, n), t) <= Times(blocks, t)
    ensures Times(TransferCount(t, s, n), t) <= n + 2 * t
  {
    var q, up := Quot(s, t), Quot(s + n + t - 1, t);
    QuotRem(s, t);
    QuotRem(s + n + t - 1, t);
    TimesMono(up, q, t);
    TimesAdd(q, up - q, t);
    UnitsOnDevice(t, s + n, blocks);
  }

  /** A sector is one unit; part of a transfer takes no more units than the whole. */
  lemma {:induction false} PartTransfer(t: nat, s: nat, n: nat, o: nat, k: nat)
    requires t > 0 && o + k <= n
    ensures TransferCount(t, s, 1) == 1 && TransferCount(t, s + o, k) <= TransferCount(t, s, n)
    ensures 0 <= TransferCount(t, s + o, k)
  {
    QuotMono(t, s, s + o);
    QuotMono(t, s + o + k + t - 1, s + n + t - 1);
    QuotMono(t, s + o, s + o + k + t - 1);
  }

  lemma {:induction false} QuotShift(t: nat, q: nat, x: nat)
    requires t > 0
    ensures Quot(Times(q, t) + x, t) == q + Quot(x, t)
  {
    QuotRem(x, t);
    TimesAdd(q, Quot(x, t), t);
    QuotUnique(t, q + Quot(x, t), Rem(x, t), Times(q, t) + x);
  }

  /** Wherever they start, n sectors take at most so many units, and at the end of a unit they do. */
  lemma {:induction false} WorstTransfer(t: nat, s: nat, n: nat)
    requires t > 0
    ensures TransferCount(t, s, n) <= Quot(n + 2 * t - 2, t) == TransferCount(t, t - 1, n)
  {
    var q, r, up := Quot(s, t), Rem(s, t), n + 2 * t - 2;
    QuotRem(s, t);
    var x := r + n + t - 1;
    assert s + n + t - 1 == Times(q, t) + x;
    QuotShift(t, q, x);
    QuotMono(t, x, up);
    LastPlace(t, n);
  }

  lemma {:induction false} LastPlace(t: nat, n: nat)
    requires t > 0
    ensures TransferCount(t, t - 1, n) == Quot(n + 2 * t - 2, t)
  {
    assert Quot(t - 1, t) == 0;
    assert (t - 1) + n + t - 1 == n + 2 * t - 2;
  }

  /** A buffer of so many units takes n sectors from anywhere exactly if it takes them in the worst place. */
  lemma {:induction false} FitsAnywhere(t: nat, n: nat, units: nat)
    requires t > 0
    ensures (forall s: nat :: TransferCount(t, s, n) <= units) <==> Quot(n + 2 * t - 2, t) <= units
  {
    WorstTransfer(t, 0, n);
    if Quot(n + 2 * t - 2, t) <= units {
      forall s: nat
        ensures TransferCount(t, s, n) <= units
      {
        WorstTransfer(t, s, n);
      }
    } else {
      assert TransferCount(t, t - 1, n) > units;
    }
  }

  /** As many sectors as k units hold take k units if they are aligned, and one more if not. */
  lemma {:induction false} WholeUnits(t: nat, s: nat, k: nat)
    requires t > 0
    ensures TransferCount(t, s, Times(k, t)) == if Rem(s, t) == 0 then k else k + 1
  {
    var q, r := Quot(s, t), Rem(s, t);
    QuotRem(s, t);
    TimesAdd(q, k, t);
    QuotShift(t, q + k, r + t - 1);
    if r == 0 {
      assert Quot(t - 1, t) == 0;
    } else {
      assert Quot(r - 1, t) == 0;
    }
  }

  /** A sequence with `w` written over it at position `at`. */
  function Splice<T>(d: seq<T>, at: nat, w: seq<T>): (r: seq<T>)
    requires at + |w| <= |d|
    ensures |r| == |d|
    ensures forall i :: 0 <= i < |d| ==> r[i] == if at <= i < at + |w| then w[i - at] else d[i]
  {
    d[..at] + w + d[at + |w|..]
  }

  /** A disk and one worker's share of the transfer buffer. */
  class Disk {
    const sectorsPerTransfer: nat   // BLK_TRANSFER_SIZE / sector_size, a power of two
    const blocks: nat               // capacity of the device in transfer units
    const sectorSize: nat
    const shared: array<Sector>     // this worker's part of blk_data, max_cluster_size bytes
    var device: seq<Sector>
    var requestPushed: bool
    // Results of the requests, in order; a reliable device never fails.
    const reliable: bool
    const outcome: nat -> bool
    var served: nat

    ghost predicate Valid()
      reads this`device
    {
      && 0 < sectorsPerTransfer <= 0x8000
      && 0 < sectorSize
      && |device| == Times(blocks, sectorsPerTransfer)
      && |device| < TWO32 - 1
      && forall s :: 0 <= s < |device| ==> |device[s]| == sectorSize
    }

    /** The transfer needed for these sectors fits the worker's share of the buffer. */
    ghost predicate Fits(s: nat, n: nat)
      requires sectorsPerTransfer > 0
    {
      n < 0x4000_0000 && 0 <= TransferCount(sectorsPerTransfer, s, n)
      && Times(TransferCount(sectorsPerTransfer, s, n), sectorsPerTransfer) <= shared.Length
    }

    constructor (t: nat, ss: nat, content: seq<Sector>, units: nat, buffer: array<Sector>,
                 reliable: bool, outcome: nat -> bool)
      requires 0 < t <= 0x8000 && 0 < ss && |content| == Times(units, t) && |content| < TWO32 - 1
      requires forall s :: 0 <= s < |content| ==> |content[s]| == ss
      ensures Valid() && device == content && shared == buffer && sectorSize == ss
      ensures sectorsPerTransfer == t && blocks == units && this.reliable == reliable
    {
      sectorsPerTransfer, blocks, sectorSize, shared := t, units, ss, buffer;
      device, requestPushed := content, false;
      this.reliable, this.outcome, served := reliable, outcome, 0;
    }

    /**
     * One request to the virtualiser and the wait for its answer: whole units only.  They are
     * the sectors [lo, lo + len).
     */
    method Enqueue(req: Request, block: nat, count: nat, ghost lo: nat, ghost len: nat)
      returns (res: DiskResult)
      requires Valid() && lo == Times(block, sectorsPerTransfer) && len == Times(count, sectorsPerTransfer)
      requires lo + len <= |device| && len <= shared.Length
      requires req == BLK_REQ_WRITE ==> forall j :: 0 <= j < len ==> |shared[j]| == sectorSize
      modifies this`device, this`requestPushed, this`served, shared
      ensures Valid() && requestPushed
      ensures reliable ==> res == RES_OK
      ensures req == BLK_REQ_READ || res != RES_OK ==> device == old(device)
      ensures req == BLK_REQ_WRITE ==> shared[..] == old(shared[..])
      ensures req == BLK_REQ_READ && res == RES_OK ==> shared[..][..len] == device[lo..lo + len]
      ensures req == BLK_REQ_WRITE && res == RES_OK ==>
                device == Splice(old(device), lo, shared[..][..len])
    {
      requestPushed := true;
      res := if reliable || outcome(served) then RES_OK else RES_ERROR;
      served := served + 1;
      if res == RES_OK {
        var first, n := Times(block, sectorsPerTransfer), Times(count, sectorsPerTransfer);
        match req
        case BLK_REQ_READ =>
          forall j | 0 <= j < n { shared[j] := device[first + j]; }
          assert shared[..n] == device[first..first + n];
        case BLK_REQ_WRITE =>
          device := Splice(device, first, shared[..n]);
          assert shared[..n] == shared[..][..n];
      }
    }

    /**
     * The request that covers the sectors: first unit, number of units, position of the first
     * sector in them, and whether the sectors fill the units exactly.
     */
    method Plan(sector: nat, count: nat)
      returns (block: nat, units: nat, at: nat, aligned: bool, ghost lo: nat, ghost len: nat)
      requires Valid() && sector + count <= |device| && Fits(sector, count)
      ensures units == TransferCount(sectorsPerTransfer, sector, count)
      ensures lo == Times(block, sectorsPerTransfer) && len == Times(units, sectorsPerTransfer)
      ensures sector == lo + at && at + count <= len <= shared.Length && lo + len <= |device|
      ensures aligned ==> at == 0 && len == count
      ensures sectorsPerTransfer == 1 ==> aligned && block == sector && units == count
    {
      var t := sectorsPerTransfer;
      SddfCountIsTransferCount(t, sector, count);
      TransferSpan(t, sector, count, blocks);
      AlignedSpan(t, sector, count);
      block, at := DivPow2(sector, t), ModPow2(sector, t);
      units := SddfCount(t, sector, count);
      var head := ModPow2(t - at, t);
      var tail := ModPow2(Sum32(sector, count), t);
      aligned := head == 0 && tail == 0;
      lo, len := sector - at, Times(units, t);
    }

    /** disk_read */
    method Read(sector: nat, count: nat) returns (res: DiskResult, buff: seq<Sector>)
      requires Valid() && sector + count <= |device| && Fits(sector, count)
      modifies this`requestPushed, this`device, this`served, shared
      ensures Valid() && device == old(device)
      ensures reliable ==> res == RES_OK
      ensures res == RES_OK ==> buff == device[sector..sector + count]
    {
      var block, units, at, _, lo, len := Plan(sector, count);
      res := Enqueue(BLK_REQ_READ, block, units, lo, len);
      buff := shared[..][at..at + count];
      if res == RES_OK {
        SliceOfUnits(shared[..], device, lo, len, at, count);
      }
    }

    /** disk_write */
    method Write(buff: seq<Sector>, sector: nat) returns (res: DiskResult)
      requires Valid() && sector + |buff| <= |device| && Fits(sector, |buff|)
      requires forall j :: 0 <= j < |buff| ==> |buff[j]| == sectorSize
      modifies this`requestPushed, this`device, this`served, shared
      ensures Valid()
      ensures reliable ==> res == RES_OK
      ensures res != RES_OK ==> device == old(device)
      ensures res == RES_OK ==>
                device == Splice(old(device), sector, buff)
    {
      var count := |buff|;
      var block, units, at, aligned, lo, len := Plan(sector, count);
      if sectorsPerTransfer == 1 {
        res := WriteWhole(buff, sector, count, lo);
      } else if aligned {
        res := WriteWhole(buff, block, units, lo);
      } else {
        res := ReadModifyWrite(buff, block, units, at, lo, len);
      }
    }

    /** The sectors fill the units exactly: no read request is needed. */
    method WriteWhole(buff: seq<Sector>, block: nat, units: nat, ghost lo: nat) returns (res: DiskResult)
      requires Valid() && lo == Times(block, sectorsPerTransfer) && |buff| == Times(units, sectorsPerTransfer)
      requires lo + |buff| <= |device| && |buff| <= shared.Length
      requires forall j :: 0 <= j < |buff| ==> |buff[j]| == sectorSize
      modifies this`requestPushed, this`device, this`served, shared
      ensures Valid()
      ensures reliable ==> res == RES_OK
      ensures res != RES_OK ==> device == old(device)
      ensures res == RES_OK ==> device == Splice(old(device), lo, buff)
    {
      Copy(buff, 0);
      assert shared[..][..|buff|] == buff;
      assert forall j :: 0 <= j < |buff| ==> shared[j] == shared[..][j];
      res := Enqueue(BLK_REQ_WRITE, block, units, lo, |buff|);
    }

    /** The unaligned case: units only partly covered keep their other sectors. */
    method ReadModifyWrite(buff: seq<Sector>, block: nat, units: nat, at: nat, ghost lo: nat, ghost len: nat)
      returns (res: DiskResult)
      requires Valid() && lo == Times(block, sectorsPerTransfer) && len == Times(units, sectorsPerTransfer)
      requires lo + len <= |device| && len <= shared.Length && at + |buff| <= len
      requires forall j :: 0 <= j < |buff| ==> |buff[j]| == sectorSize
      modifies this`requestPushed, this`device, this`served, shared
      ensures Valid()
      ensures reliable ==> res == RES_OK
      ensures res != RES_OK ==> device == old(device)
      ensures res == RES_OK ==> device == Splice(old(device), lo + at, buff)
    {
      res := Enqueue(BLK_REQ_READ, block, units, lo, len);
      if res != RES_OK {
        return;
      }
      ghost var read := shared[..];
      Copy(buff, at);
      SplicedUnits(device, read, buff, lo, len, at);
      SplicedSizes(device, read, buff, lo, len, at, sectorSize);
      assert forall j :: 0 <= j < shared.Length ==> shared[j] == shared[..][j];
      res := Enqueue(BLK_REQ_WRITE, block, units, lo, len);
    }

    /** memcpy into the shared buffer. */
    method Copy(buff: seq<Sector>, at: nat)
      requires at + |buff| <= shared.Length
      modifies shared
      ensures shared[..] == Splice(old(shared[..]), at, buff)
    {
      forall j | 0 <= j < |buff| { shared[at + j] := buff[j]; }
    }
  }

  /** Without unaligned head or tail the units hold nothing but the sectors asked for. */
  lemma {:induction false} AlignedSpan(t: nat, s: nat, n: nat)
    requires t > 0
    ensures Rem(s, t) < t
    ensures Rem(t - Rem(s, t), t) == 0 && Rem(s + n, t) == 0 ==>
              Rem(s, t) == 0 && TransferCount(t, s, n) >= 0 && Times(TransferCount(t, s, n), t) == n
    ensures t == 1 ==> Rem(t - Rem(s, t), t) == 0 && Quot(s, t) == s && Rem(s + n, t) == 0
                       && TransferCount(t, s, n) == n
  {
    QuotRem(s, t);
    QuotRem(s + n, t);
    HeadSize(t, Rem(s, t));
    AlignedPart(t, s, n);
    if Rem(s + n, t) == 0 {
      QuotUnique(t, Quot(s + n, t), t - 1, s + n + t - 1);
    }
    TimesMono(Quot(s + n, t), Quot(s, t), t);
    TimesIsProduct(Quot(s, t), t);
    TimesIsProduct(Quot(s + n, t), t);
  }

  /** Sectors read out of the units read. */
  lemma {:induction false} SliceOfUnits(a: seq<Sector>, d: seq<Sector>, lo: nat, len: nat, at: nat, n: nat)
    requires len <= |a| && lo + len <= |d| && at + n <= len && a[..len] == d[lo..lo + len]
    ensures a[at..at + n] == d[lo + at..lo + at + n]
  {
    var u, v := a[at..at + n], d[lo + at..lo + at + n];
    forall i | 0 <= i < n
      ensures u[i] == v[i]
    {
      assert a[..len][at + i] == d[lo..lo + len][at + i];
    }
  }

  lemma {:induction false} SplicedSizes(d: seq<Sector>, a: seq<Sector>, buff: seq<Sector>, lo: nat, len: nat, at: nat, size: nat)
    requires len <= |a| && lo + len <= |d| && at + |buff| <= len && a[..len] == d[lo..lo + len]
    requires (forall i :: 0 <= i < |d| ==> |d[i]| == size) && (forall j :: 0 <= j < |buff| ==> |buff[j]| == size)
    ensures forall j :: 0 <= j < len ==> |Splice(a, at, buff)[j]| == size
  {
    forall j | 0 <= j < len
      ensures |Splice(a, at, buff)[j]| == size
    {
      assert a[..len][j] == d[lo..lo + len][j];
    }
  }

  /** Writing whole units back changes only the sectors that were replaced in them. */
  lemma {:induction false} SplicedUnits(d: seq<Sector>, a: seq<Sector>, buff: seq<Sector>, lo: nat, len: nat, at: nat)
    requires len <= |a| && lo + len <= |d| && at + |buff| <= len && a[..len] == d[lo..lo + len]
    ensures Splice(d, lo, Splice(a, at, buff)[..len]) == Splice(d, lo + at, buff)
  {
    var w := Splice(a, at, buff)[..len];
    forall i | 0 <= i < |d|
      ensures Splice(d, lo, w)[i] == Splice(d, lo + at, buff)[i]
    {
      if lo <= i < lo + len {
        assert a[..len][i - lo] == d[lo..lo + len][i - lo];
      }
    }
  }
}
