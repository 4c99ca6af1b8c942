/**
 * Long file names: put_lfn and the loop of dir_register write them into directory entries,
 * pick_lfn and the loop of dir_read put them together again.
 */
module LongNames {
  import opened Bytes

  /** A UTF-16 unit, and a name: units without the terminator 0. */
  type Unit = x: int | 0 <= x < 0x1_0000

  const FILLER: Unit := 0xFFFF
  const MAX_LFN: nat := 255     // FF_MAX_LFN
  const LLEF: nat := 0x40       // last long entry flag
  const AM_LFN: byte := 0x0F
  const ENTRY: nat := 32        // SZDIRE

  ghost predicate IsName(name: seq<Unit>) {
    0 < |name| <= 255 && forall i :: 0 <= i < |name| ==> name[i] != 0
  }

  /** LfnOfs: offset of the s-th unit in an entry. */
  function Place(s: nat): nat {
    if s < 5 then 1 + 2 * s else if s < 11 then 4 + 2 * s else 6 + 2 * s
  }

  const LFN_OFS: seq<nat> := [1, 3, 5, 7, 9, 14, 16, 18, 20, 22, 24, 28, 30]

  /** LfnOfs[s] */
  method TableOffset(s: nat) returns (k: nat)
    requires s < 13
    ensures k == Place(s)
  {
    k := LFN_OFS[s];
  }

  function LdWord(d: seq<byte>, k: nat): Unit
    requires k + 1 < |d|
  {
    UnitOf(d[k], d[k + 1])
  }

  function UnitOf(lo: int, hi: int): Unit
    requires 0 <= lo < 256 && 0 <= hi < 256
  {
    lo + 256 * hi
  }

  /** The name buffer: the name with its terminator. */
  function At(name: seq<Unit>, i: nat): Unit { if i < |name| then name[i] else 0 }

  /** Position of the first filler value or the terminator from i on. */
  function Stop(name: seq<Unit>, i: nat): (e: nat)
    requires i <= |name|
    ensures i <= e <= |name| && (e < |name| ==> name[e] == FILLER) && forall j :: i <= j < e ==> name[j] != FILLER
    decreases |name| - i
  {
    if i == |name| || name[i] == FILLER then i else Stop(name, i + 1)
  }

  /** The s-th unit of the entry for the name from i on: units up to a terminator, then filler. */
  function Piece(name: seq<Unit>, i: nat, s: nat): Unit
    requires i <= |name|
  {
    var e := Stop(name, i);
    if i + s < e then name[i + s] else if i + s == e == |name| then 0 else FILLER
  }

  /** The entry is marked as the first of a sequence. */
  predicate Marked(name: seq<Unit>, i: nat)
    requires i <= |name|
  {
    Stop(name, i) < i + 13 || |name| == i + 13
  }

  /** Entry at offset `at` of d holds the part of the name for order ord. */
  ghost predicate Holds(d: seq<byte>, at: nat, name: seq<Unit>, ord: nat, sum: byte)
    requires at + ENTRY <= |d| && 0 < ord <= 20 && 13 * (ord - 1) <= |name|
  {
    && d[at] == (if Marked(name, 13 * (ord - 1)) then ord + LLEF else ord)
    && d[at + 11] == AM_LFN && d[at + 12] == 0 && d[at + 13] == sum && LdWord(d, at + 26) == 0
    && UnitsAre(d, at, name, 13 * (ord - 1), 13)
  }

  /** The first n units of the entry are those of the name from i on. */
  ghost predicate UnitsAre(d: seq<byte>, at: nat, name: seq<Unit>, i: nat, n: nat)
    requires at + ENTRY <= |d| && i <= |name| && n <= 13
  {
    forall s :: 0 <= s < n ==> UnitIs(d, at, s, Piece(name, i, s))
  }

  ghost predicate UnitIs(d: seq<byte>, at: nat, s: nat, u: Unit)
    requires at + ENTRY <= |d| && s < 13
  {
    LdWord(d, at + Place(s)) == u
  }

  /** st_word */
  method StWord(d: array<byte>, k: nat, u: Unit)
    requires k + 1 < d.Length
    modifies d
    ensures LdWord(d[..], k) == u
    ensures forall j :: 0 <= j < d.Length && j != k && j != k + 1 ==> d[j] == old(d[j])
  {
    d[k], d[k + 1] := u % 256, u / 256;
  }

  /** The s units stored so far, and the header. */
  ghost predicate PutSoFar(d: seq<byte>, at: nat, name: seq<Unit>, i: nat, s: nat, sum: byte)
    requires at + ENTRY <= |d| && i <= |name|
  {
    && s <= 13 && d[at + 11] == AM_LFN && d[at + 12] == 0 && d[at + 13] == sum && LdWord(d, at + 26) == 0
    && UnitsAre(d, at, name, i, s)
  }

  lemma {:induction false} PutNext(d: seq<byte>, e: seq<byte>, at: nat, name: seq<Unit>, i: nat, s: nat, sum: byte)
    requires at + ENTRY <= |d| == |e| && i <= |name| && s < 13 && PutSoFar(d, at, name, i, s, sum)
    requires LdWord(e, at + Place(s)) == Piece(name, i, s)
    requires forall j :: 0 <= j < |d| && j != at + Place(s) && j != at + Place(s) + 1 ==> e[j] == d[j]
    ensures PutSoFar(e, at, name, i, s + 1, sum)
  {
    forall t | 0 <= t < s + 1
      ensures UnitIs(e, at, t, Piece(name, i, t))
    {
      if t < s {
        assert UnitIs(d, at, t, Piece(name, i, t));
        assert Place(t) + 2 <= Place(s);
      }
    }
  }

  /** The unit put_lfn stores next and the one it remembers, at position p of the name. */
  lemma {:induction false} NextUnit(name: seq<Unit>, i: nat, s: nat, p: nat, wc: Unit)
    requires IsName(name) && i <= |name| && (wc == FILLER <==> Stop(name, i) < i + s)
    requires wc != FILLER ==> p == i + s
    ensures Piece(name, i, s) == if wc != FILLER then At(name, p) else FILLER
    ensures Stop(name, i) < i + s + 1 <==> wc == FILLER || At(name, p) == 0 || At(name, p) == FILLER
  {
  }

  /** The last store, of the order with the mark. */
  lemma {:induction false} HeaderStored(d: seq<byte>, e: seq<byte>, at: nat, name: seq<Unit>, ord: nat, sum: byte,
                                        p: nat, wc: Unit)
    requires IsName(name) && at + ENTRY <= |d| == |e| && 0 < ord <= 20 && 13 * (ord - 1) < |name|
    requires PutSoFar(d, at, name, 13 * (ord - 1), 13, sum)
    requires wc == FILLER <==> Stop(name, 13 * (ord - 1)) < 13 * (ord - 1) + 13
    requires wc != FILLER ==> p == 13 * (ord - 1) + 13
    requires e == d[at := if wc == FILLER || At(name, p) == 0 then ord + LLEF else ord]
    ensures Holds(e, at, name, ord, sum)
  {
    var i := 13 * (ord - 1);
    forall s | 0 <= s < 13
      ensures UnitIs(e, at, s, Piece(name, i, s))
    {
      assert UnitIs(d, at, s, Piece(name, i, s));
    }
  }

  /** Two bytes of an entry, the low one first. */
  function Pair(d: seq<byte>, k: nat): int
    requires k + 1 < |d|
  {
    d[k] as int + 256 * (d[k + 1] as int)
  }

  /** What an entry holds at place s for order ord: a unit, the terminator, or filler behind it. */
  function UnitAt(name: seq<Unit>, ord: nat, s: nat): Unit
    requires ord > 0
  {
    var p := 13 * (ord - 1) + s;
    if p < |name| then name[p] else if p == |name| then 0 else 0xFFFF
  }

  lemma {:induction false} PieceIsUnit(name: seq<Unit>, ord: nat, s: nat)
    requires IsName(name) && 0xFFFF !in name && 0 < ord && 13 * (ord - 1) < |name| && s < 13
    ensures Piece(name, 13 * (ord - 1), s) == UnitAt(name, ord, s) && Stop(name, 13 * (ord - 1)) == |name|
  {
  }

  /** The bytes of an entry of a name without filler values. */
  lemma {:induction false} EntryBytes(d: seq<byte>, at: nat, name: seq<Unit>, ord: nat, sum: byte)
    requires IsName(name) && 0xFFFF !in name && at + 32 <= |d| && 0 < ord <= 20 && 13 * (ord - 1) < |name|
    requires Holds(d, at, name, ord, sum)
    ensures d[at] == ord + if 13 * ord >= |name| then 0x40 else 0
    ensures d[at + 11] == 0x0F && d[at + 12] == 0 && d[at + 13] == sum && Pair(d, at + 26) == 0
    ensures Pair(d, at + 1) == UnitAt(name, ord, 0) && Pair(d, at + 3) == UnitAt(name, ord, 1)
    ensures Pair(d, at + 5) == UnitAt(name, ord, 2) && Pair(d, at + 7) == UnitAt(name, ord, 3)
    ensures Pair(d, at + 9) == UnitAt(name, ord, 4)
    ensures Pair(d, at + 14) == UnitAt(name, ord, 5) && Pair(d, at + 16) == UnitAt(name, ord, 6)
    ensures Pair(d, at + 18) == UnitAt(name, ord, 7) && Pair(d, at + 20) == UnitAt(name, ord, 8)
    ensures Pair(d, at + 22) == UnitAt(name, ord, 9) && Pair(d, at + 24) == UnitAt(name, ord, 10)
    ensures Pair(d, at + 28) == UnitAt(name, ord, 11) && Pair(d, at + 30) == UnitAt(name, ord, 12)
  {
    PieceIsUnit(name, ord, 0);
    forall s: nat | s < 13
      ensures LdWord(d, at + Place(s)) == UnitAt(name, ord, s)
    {
      assert UnitIs(d, at, s, Piece(name, 13 * (ord - 1), s));
      PieceIsUnit(name, ord, s);
    }
    assert Place(0) == 1 && Place(1) == 3 && Place(2) == 5 && Place(3) == 7 && Place(4) == 9;
    assert Place(5) == 14 && Place(6) == 16 && Place(7) == 18 && Place(8) == 20 && Place(9) == 22 && Place(10) == 24;
    assert Place(11) == 28 && Place(12) == 30;
  }

  /** put_lfn */
  method PutLfn(name: seq<Unit>, d: array<byte>, at: nat, ord: nat, sum: byte)
    requires IsName(name) && at + ENTRY <= d.Length && 0 < ord <= 20 && 13 * (ord - 1) < |name|
    modifies d
    ensures Holds(d[..], at, name, ord, sum)
    ensures forall j :: 0 <= j < d.Length && !(at <= j < at + ENTRY) ==> d[j] == old(d[j])
  {
    d[at + 13], d[at + 11], d[at + 12] := sum, AM_LFN, 0;
    StWord(d, at + 26, 0);
    var i: nat := (ord - 1) * 13;
    var s: nat, wc: Unit := 0, 0;
    ghost var i0 := i;
    while s < 13
      invariant s <= 13 && PutSoFar(d[..], at, name, i0, s, sum) && i0 < |name|
      invariant wc == FILLER <==> Stop(name, i0) < i0 + s
      invariant wc != FILLER ==> i == i0 + s
      invariant forall j :: 0 <= j < d.Length && !(at <= j < at + ENTRY) ==> d[j] == old(d[j])
    {
      NextUnit(name, i0, s, i, wc);
      if wc != FILLER {
        wc := At(name, i);
        i := i + 1;
      }
      ghost var before := d[..];
      var k := TableOffset(s);
      StWord(d, at + k, wc);
      PutNext(before, d[..], at, name, i0, s, sum);
      if wc == 0 {
        wc := FILLER;
      }
      s := s + 1;
    }
    ghost var before := d[..];
    d[at] := if wc == FILLER || At(name, i) == 0 then ord + LLEF else ord;
    HeaderStored(before, d[..], at, name, ord, sum, i, wc);
  }

  // Reading -------------------------------------------------------------------------------------

  /** Bit 6 of a byte, the mark, and the byte without it. */
  predicate HasMark(b: byte) { 0x40 <= b < 0x80 || 0xC0 <= b }

  function Order(b: byte): byte { if HasMark(b) then b - LLEF else b }

  /** b & LLEF */
  method TestMark(b: byte) returns (m: bool)
    ensures m <==> HasMark(b)
  {
    m := b / LLEF % 2 == 1;
  }

  /** Success of pick_lfn and the name buffer after it. */
  datatype Pick = Pick(ok: bool, buf: seq<Unit>)

  /** pick_lfn from unit s of the entry on, storing at i; wc is the last unit stored. */
  function PickUnits(buf: seq<Unit>, d: seq<byte>, at: nat, i: nat, s: nat, wc: Unit): (p: Pick)
    requires at + ENTRY <= |d| && s <= 13
    ensures |p.buf| == |buf|
    decreases 13 - s
  {
    if s == 13 then
      if HasMark(d[at]) && wc != 0 then (if i >= |buf| then Pick(false, buf) else Pick(true, buf[i := 0]))
      else Pick(true, buf)
    else
      var uc := LdWord(d, at + Place(s));
      if wc != 0 then (if i >= |buf| then Pick(false, buf) else PickUnits(buf[i := uc], d, at, i + 1, s + 1, uc))
      else if uc != FILLER then Pick(false, buf)
      else PickUnits(buf, d, at, i, s + 1, wc)
  }

  /** Where pick_lfn starts to store: order 0 wraps round. */
  function PickStart(b: byte): nat { if Order(b) == 0 then TWO32 - 13 else 13 * (Order(b) - 1) }

  /** ((b & ~LLEF) - 1) * 13 in 32 bits. */
  method StartOffset(b: byte) returns (i: nat)
    ensures i == PickStart(b)
  {
    i := (Order(b) - 1) * 13 % TWO32;
  }

  function PickEntry(buf: seq<Unit>, d: seq<byte>, at: nat): (p: Pick)
    requires at + ENTRY <= |d|
    ensures |p.buf| == |buf|
  {
    if LdWord(d, at + 26) != 0 then Pick(false, buf) else PickUnits(buf, d, at, PickStart(d[at]), 0, 1)
  }

  /** pick_lfn */
  method PickLfn(buf: array<Unit>, d: seq<byte>, at: nat) returns (ok: bool)
    requires at + ENTRY <= |d| && buf.Length == MAX_LFN + 1
    modifies buf
    ensures Pick(ok, buf[..]) == PickEntry(old(buf[..]), d, at)
  {
    if LdWord(d, at + 26) != 0 {
      return false;
    }
    var i: nat := StartOffset(d[at]);
    var s: nat, wc: Unit := 0, 1;
    while s < 13
      invariant s <= 13 && PickUnits(buf[..], d, at, i, s, wc) == PickEntry(old(buf[..]), d, at)
    {
      var k := TableOffset(s);
      var uc := LdWord(d, at + k);
      if wc != 0 {
        if i >= MAX_LFN + 1 {
          return false;
        }
        ghost var before := buf[..];
        buf[i] := uc;
        assert buf[..] == before[i := uc];
        wc := uc;
        i := i + 1;
      } else if uc != FILLER {
        return false;
      }
      s := s + 1;
    }
    ok := PickEnd(buf, d, at, i, wc);
  }

  /** The terminator after the last entry of a name. */
  method PickEnd(buf: array<Unit>, d: seq<byte>, at: nat, i: nat, wc: Unit) returns (ok: bool)
    requires at + ENTRY <= |d| && buf.Length == MAX_LFN + 1
    modifies buf
    ensures Pick(ok, buf[..]) == PickUnits(old(buf[..]), d, at, i, 13, wc)
  {
    var last := TestMark(d[at]);
    if last && wc != 0 {
      if i >= MAX_LFN + 1 {
        return false;
      }
      ghost var before := buf[..];
      buf[i] := 0;
      assert buf[..] == before[i := 0];
    }
    ok := true;
  }

  /** Checksum of the first k bytes of a short name. */
  function Checksum(d: seq<byte>, at: nat, k: nat): byte
    requires at + k <= |d|
  {
    if k == 0 then 0 else AddByte(Checksum(d, at, k - 1), d[at + k - 1])
  }

  /** One step of the checksum: rotate right, add, modulo 256. */
  function AddByte(sum: int, b: int): byte {
    (sum / 2 + sum * 128 + b) % 256
  }

  /** sum_sfn */
  method SumSfn(d: seq<byte>, at: nat) returns (sum: byte)
    requires at + 11 <= |d|
    ensures sum == Checksum(d, at, 11)
  {
    sum := 0;
    var k := 0;
    while k < 11
      invariant k <= 11 && sum == Checksum(d, at, k)
    {
      sum := AddByte(sum, d[at + k]);
      k := k + 1;
    }
  }

  /** Equal sums and equal bytes give equal sums; one of the two changed changes the sum. */
  lemma {:induction false} AddByteTells(s: byte, b: byte, t: byte, c: byte)
    requires AddByte(s, b) == AddByte(t, c)
    ensures s == t <==> b == c
  {
    AddByteIs(s, b);
    AddByteIs(t, c);
  }

  /** A step in terms of the sum's upper seven bits and its lowest. */
  lemma {:induction false} AddByteIs(s: byte, b: byte)
    ensures var v := s / 2 + s % 2 * 128 + b; AddByte(s, b) == if v < 256 then v else v - 256
  {
    var q := s / 2;
    assert s / 2 + s * 128 + b == q * 256 + (s / 2 + s % 2 * 128 + b);
  }

  lemma {:induction false} SumsDiffer(f: seq<byte>, g: seq<byte>, j: nat, k: nat)
    requires j < k <= |f| && k <= |g|
    requires forall i :: 0 <= i < k ==> (f[i] == g[i] <==> i != j)
    ensures Checksum(f, 0, k) != Checksum(g, 0, k)
  {
    if j == k - 1 {
      assert f[0..j] == g[0..j];
      ChecksumSame(f, 0, g, 0, j);
    } else {
      SumsDiffer(f, g, j, k - 1);
    }
    if AddByte(Checksum(f, 0, k - 1), f[k - 1]) == AddByte(Checksum(g, 0, k - 1), g[k - 1]) {
      AddByteTells(Checksum(f, 0, k - 1), f[k - 1], Checksum(g, 0, k - 1), g[k - 1]);
      assert false;
    }
  }

  /** Short names that differ in exactly one byte have different checksums. */
  lemma {:induction false} ChecksumTellsByte(f: seq<byte>, g: seq<byte>, j: nat)
    requires |f| == |g| == 11 && j < 11
    requires forall i :: 0 <= i < 11 ==> (f[i] == g[i] <==> i != j)
    ensures Checksum(f, 0, 11) != Checksum(g, 0, 11)
  {
    SumsDiffer(f, g, j, 11);
  }

  // What the checksum is, byte by byte -------------------------------------------------------------

  /** b rotated right by n bits: each time the lowest bit becomes the highest. */
  function Rotated(b: byte, n: nat): byte {
    if n == 0 then b else var t := Rotated(b, n - 1); t / 2 + t % 2 * 128
  }

  lemma {:induction false} ZeroSum(f: seq<byte>, k: nat)
    requires k <= |f| && forall i :: 0 <= i < k ==> f[i] == 0
    ensures Checksum(f, 0, k) == 0
  {
    if k > 0 {
      ZeroSum(f, k - 1);
    }
  }

  lemma {:induction false} RotatedSum(f: seq<byte>, j: nat, n: nat)
    requires j + 1 + n <= |f| && forall i :: 0 <= i <= j + n && i != j ==> f[i] == 0
    ensures Checksum(f, 0, j + 1 + n) == Rotated(f[j], n)
    decreases n
  {
    if n == 0 {
      ZeroSum(f, j);
      AddByteIs(0, f[j]);
    } else {
      RotatedSum(f, j, n - 1);
      AddByteIs(Rotated(f[j], n - 1), 0);
    }
  }

  /**
   * A byte alone at place j of a short name comes out rotated right by 10 - j bits; the sum of
   * zero bytes is 0.
   */
  lemma {:induction false} SumOfByte(f: seq<byte>, j: nat)
    requires |f| == 11 && j < 11 && forall i :: 0 <= i < 11 && i != j ==> f[i] == 0
    ensures Checksum(f, 0, 11) == Rotated(f[j], 10 - j) && (f[j] == 0 ==> Checksum(f, 0, 11) == 0)
  {
    RotatedSum(f, j, 10 - j);
    if f[j] == 0 {
      ZeroSum(f, 11);
    }
  }

  /** The sum of the short name "README  TXT". */
  lemma {:induction false} SumOfReadme(f: seq<byte>)
    requires f == [0x52, 0x45, 0x41, 0x44, 0x4D, 0x45, 0x20, 0x20, 0x54, 0x58, 0x54]
    ensures Checksum(f, 0, 11) == 0x73
  {
    assert Checksum(f, 0, 1) == 82;
    assert Checksum(f, 0, 2) == 110;
    assert Checksum(f, 0, 3) == 120;
    assert Checksum(f, 0, 4) == 128;
    assert Checksum(f, 0, 5) == 141;
    assert Checksum(f, 0, 6) == 11;
    assert Checksum(f, 0, 7) == 165;
    assert Checksum(f, 0, 8) == 242;
    assert Checksum(f, 0, 9) == 205;
    assert Checksum(f, 0, 10) == 62;
    assert Checksum(f, 0, 11) == 115;
  }

  /** The variables of dir_read: order expected next, checksum, start of the sequence, name buffer. */
  datatype Reader = Reader(ord: byte, sum: byte, blk: nat, buf: seq<Unit>)

  const NO_LFN: byte := 0xFF

  /** A long entry: it starts a sequence, continues it, or breaks it. */
  function Capture(r: Reader, d: seq<byte>, at: nat): (t: Reader)
    requires at + ENTRY <= |d|
    ensures |t.buf| == |r.buf|
  {
    var b := d[at];
    var q := if HasMark(b) then r.(sum := d[at + 13], ord := Order(b), blk := at) else r;
    if Order(b) == q.ord && q.sum == d[at + 13] then
      var p := PickEntry(q.buf, d, at);
      q.(ord := if p.ok then Before(q.ord) else NO_LFN, buf := p.buf)
    else q.(ord := NO_LFN)
  }

  /** ord - 1 as a byte. */
  function Before(ord: byte): byte { if ord == 0 then 0xFF else ord - 1 }

  /** What dir_read finds: the short entry and whether the buffer holds its long name. */
  datatype Found = End | Entry(at: nat, lfn: bool, blk: nat, buf: seq<Unit>)

  predicate Skipped(d: seq<byte>, at: nat)
    requires at + ENTRY <= |d|
  {
    var attr := d[at + 11] % 0x40;
    d[at] == 0xE5 || d[at] == 0x2E || attr == 0x08 || attr == 0x28
  }

  /** dir_read for files, from the entry at `at` on. */
  function Scan(d: seq<byte>, at: nat, r: Reader): Found
    decreases if at <= |d| then |d| - at else 0
  {
    if at + ENTRY > |d| || d[at] == 0 then End
    else if Skipped(d, at) then Scan(d, at + ENTRY, r.(ord := NO_LFN))
    else if d[at + 11] % 0x40 == AM_LFN then Scan(d, at + ENTRY, Capture(r, d, at))
    else Entry(at, r.ord == 0 && r.sum == Checksum(d, at, 11), r.blk, r.buf)
  }

  /** A short entry of a file or directory: in use, no dot entry, no volume label, not a part of a long name. */
  predicate IsFile(d: seq<byte>, at: nat)
    requires at + 32 <= |d|
  {
    d[at] !in {0x00, 0xE5, 0x2E} && d[at + 11] % 0x40 !in {0x08, 0x28, 0x0F}
  }

  /** The entry is in use or deleted, and not one to return. */
  predicate Passed(d: seq<byte>, at: nat) {
    at + 32 <= |d| && d[at] != 0 && !IsFile(d, at)
  }

  /** dir_read returns the first file behind the start, and none only if the directory ends before. */
  lemma {:induction false} FirstFile(d: seq<byte>, at: nat, r: Reader) returns (n: nat)
    ensures forall k: nat :: k < n ==> Passed(d, at + 32 * k)
    ensures var e := at + 32 * n;
            match Scan(d, at, r)
            case Entry(x, _, _, _) => x == e && e + 32 <= |d| && IsFile(d, e)
            case End => e + 32 > |d| || d[e] == 0
    decreases if at <= |d| then |d| - at else 0
  {
    if at + 32 > |d| || d[at] == 0 || IsFile(d, at) {
      n := 0;
    } else {
      var m := FirstFile(d, at + 32, if Skipped(d, at) then r.(ord := NO_LFN) else Capture(r, d, at));
      n := m + 1;
      forall k: nat | k < n
        ensures Passed(d, at + 32 * k)
      {
        assert k > 0 ==> Passed(d, at + 32 + 32 * (k - 1));
      }
    }
  }

  /** dir_read */
  method DirRead(d: seq<byte>, start: nat, buf: array<Unit>) returns (found: bool, at: nat, lfn: bool, blk: nat)
    requires buf.Length == MAX_LFN + 1
    modifies buf
    ensures var f := Scan(d, start, Reader(NO_LFN, 0xFF, 0, old(buf[..])));
            if found then f == Entry(at, lfn, blk, buf[..]) else f == End
  {
    var ord: byte, sum: byte := NO_LFN, 0xFF;
    at, blk, lfn := start, 0, false;
    ghost var f := Scan(d, start, Reader(ord, sum, blk, buf[..]));
    while at + ENTRY <= |d|
      invariant Scan(d, at, Reader(ord, sum, blk, buf[..])) == f
    {
      var b := d[at];
      if b == 0 {
        return false, at, false, blk;
      }
      var attr := d[at + 11] % 0x40;
      if Skipped(d, at) {
        ord := NO_LFN;
      } else if attr == AM_LFN {
        ghost var r := Reader(ord, sum, blk, buf[..]);
        var first := TestMark(b);
        if first {
          sum, b, blk := d[at + 13], Order(b), at;
          ord := b;
        }
        if b == ord && sum == d[at + 13] {
          var ok := PickLfn(buf, d, at);
          ord := if ok then Before(ord) else NO_LFN;
        } else {
          ord := NO_LFN;
        }
        assert Reader(ord, sum, blk, buf[..]) == Capture(r, d, at);
      } else {
        var c := SumSfn(d, at);
        return true, at, ord == 0 && sum == c, blk;
      }
      at := at + ENTRY;
    }
    found := false;
  }

  // Round trip ----------------------------------------------------------------------------------

  /** Long entries for a name: each holds 13 units. */
  function Entries(name: seq<Unit>): nat { (|name| + 12) / 13 }

  /** Entries n, n - 1, .., 1 of the name from offset `at` on. */
  ghost predicate Block(d: seq<byte>, at: nat, name: seq<Unit>, n: nat, sum: byte) {
    && n <= 20 && 13 * n < |name| + 13 && at + ENTRY * n <= |d|
    && forall j: nat :: 0 < j <= n ==> HoldsAt(d, at, name, n, j, sum)
  }

  ghost predicate HoldsAt(d: seq<byte>, at: nat, name: seq<Unit>, n: nat, j: nat, sum: byte)
    requires 0 < j <= n <= 20 && 13 * n < |name| + 13 && at + ENTRY * n <= |d|
  {
    Holds(d, at + ENTRY * (n - j), name, j, sum)
  }

  /** The name as it comes back: a filler value ends it, and fills up its entry. */
  function ReadBack(name: seq<Unit>): (r: seq<Unit>)
    ensures Stop(name, 0) == |name| ==> r == name
  {
    var e := Stop(name, 0);
    if e == |name| then name else name[..e] + seq(13 * (e / 13 + 1) - e, _ => FILLER)
  }

  /** The lowest order whose entry is marked: there the sequence starts that is read last. */
  function Lowest(name: seq<Unit>): nat {
    var e := Stop(name, 0);
    if e == |name| then Entries(name) else e / 13 + 1
  }

  /** No filler value, or only at the end of a last entry that is full. */
  predicate Survives(name: seq<Unit>) {
    var e := Stop(name, 0);
    e == |name| || (|name| % 13 == 0 && e / 13 + 1 == Entries(name)
                    && forall i :: e <= i < |name| ==> name[i] == FILLER)
  }

  lemma {:induction false} SurvivesExactly(name: seq<Unit>)
    requires IsName(name)
    ensures ReadBack(name) == name <==> Survives(name)
    ensures Lowest(name) == 20 && Stop(name, 0) != |name| ==> !Survives(name)
    ensures 0 < Lowest(name) <= Entries(name) <= 20 && 13 * Entries(name) < |name| + 13
  {
    if Stop(name, 0) != |name| {
      FilledUp(name, Stop(name, 0), ReadBack(name));
    }
  }

  /** A name with a filler value at e comes back exactly if all behind it is filler, up to the end of its entry. */
  lemma {:induction false} FilledUp(name: seq<Unit>, e: nat, r: seq<Unit>)
    requires e < |name| && r == name[..e] + seq(13 * (e / 13 + 1) - e, _ => FILLER)
    ensures r == name <==> |name| == 13 * (e / 13 + 1) && forall i :: e <= i < |name| ==> name[i] == FILLER
  {
    if r == name {
      assert |r| == 13 * (e / 13 + 1);
      assert forall i :: e <= i < |name| ==> r[i] == FILLER;
    }
    if |name| == 13 * (e / 13 + 1) && forall i :: e <= i < |name| ==> name[i] == FILLER {
      assert forall i :: 0 <= i < |name| ==> r[i] == name[i];
    }
  }

  lemma {:induction false} StopSame(name: seq<Unit>, i: nat, k: nat)
    requires i <= |name| && i <= k <= Stop(name, i)
    ensures Stop(name, k) == Stop(name, i)
    decreases |name| - i
  {
    if i < k {
      StopSame(name, i + 1, k);
    }
  }

  /** Entry j of the name: its units are those that come back. */
  lemma {:induction false} PieceReadBack(name: seq<Unit>, j: nat, s: nat)
    requires IsName(name) && 0 < j <= Lowest(name) && s < 13
    ensures 13 * (j - 1) <= Stop(name, 0) && 13 * (j - 1) < |name|
    ensures Marked(name, 13 * (j - 1)) <==> j == Lowest(name)
    ensures var p, r := 13 * (j - 1) + s, ReadBack(name);
            Piece(name, 13 * (j - 1), s) == if p < |r| then r[p] else if p == |r| then 0 else FILLER
    ensures |ReadBack(name)| <= 13 * Lowest(name) && (j < Lowest(name) ==> 13 * j < |ReadBack(name)|)
    ensures forall i :: 0 <= i < |ReadBack(name)| ==> ReadBack(name)[i] != 0
  {
    SurvivesExactly(name);
    StopSame(name, 0, 13 * (j - 1));
  }

  /** The buffer shows the units of r from position k on, and the terminator. */
  ghost predicate Shown(buf: seq<Unit>, r: seq<Unit>, k: nat) {
    |r| < |buf| && buf[|r|] == 0 && forall i :: k <= i < |r| ==> buf[i] == r[i]
  }

  /** pick_lfn in the middle of entry j. */
  ghost predicate Picking(buf: seq<Unit>, d: seq<byte>, at: nat, name: seq<Unit>, j: nat, sum: byte,
                          p: nat, s: nat, wc: Unit) {
    && IsName(name) && 0 < j <= Lowest(name) && j <= 20 && at + ENTRY <= |d| && s <= 13
    && 13 * (j - 1) < |name| && Holds(d, at, name, j, sum) && |buf| == MAX_LFN + 1
    && (wc != 0 <==> 13 * (j - 1) + s <= |ReadBack(name)|) && (wc != 0 ==> p == 13 * (j - 1) + s)
  }

  /** Entry j goes into the buffer; the entries above it have been stored, or it is the first. */
  lemma {:induction false} PickStores(buf: seq<Unit>, d: seq<byte>, at: nat, name: seq<Unit>, j: nat, sum: byte,
                                      p: nat, s: nat, wc: Unit)
    requires Picking(buf, d, at, name, j, sum, p, s, wc) && |ReadBack(name)| <= MAX_LFN
    requires j < Lowest(name) ==> Shown(buf, ReadBack(name), 13 * j)
    requires j == Lowest(name) && wc == 0 ==> buf[|ReadBack(name)|] == 0
    requires forall k :: 13 * (j - 1) <= k < 13 * (j - 1) + s && k < |ReadBack(name)| ==> buf[k] == ReadBack(name)[k]
    ensures var q := PickUnits(buf, d, at, p, s, wc); q.ok && Shown(q.buf, ReadBack(name), 13 * (j - 1))
    decreases 13 - s
  {
    var r, i := ReadBack(name), 13 * (j - 1);
    PieceReadBack(name, j, 0);
    MarkOfOrder(j);
    if s < 13 {
      PieceReadBack(name, j, s);
      assert UnitIs(d, at, s, Piece(name, i, s));
      var uc := LdWord(d, at + Place(s));
      if wc != 0 {
        PickStores(buf[p := uc], d, at, name, j, sum, p + 1, s + 1, uc);
      } else {
        PickStores(buf, d, at, name, j, sum, p, s + 1, wc);
      }
    }
  }

  lemma {:induction false} MarkOfOrder(j: nat)
    requires 0 < j <= 20
    ensures HasMark(j + LLEF) && !HasMark(j) && Order(j + LLEF) == j == Order(j)
    ensures PickStart(j) == PickStart(j + LLEF) == 13 * (j - 1)
  {
  }

  /** A full twentieth entry without terminator does not fit the buffer. */
  lemma {:induction false} PickOverflows(buf: seq<Unit>, d: seq<byte>, at: nat, name: seq<Unit>, sum: byte,
                                         p: nat, s: nat, wc: Unit)
    requires Picking(buf, d, at, name, 20, sum, p, s, wc) && |ReadBack(name)| > MAX_LFN && Lowest(name) == 20 && s <= 9
    ensures !PickUnits(buf, d, at, p, s, wc).ok
    decreases 13 - s
  {
    if s < 9 {
      PieceReadBack(name, 20, s);
      assert UnitIs(d, at, s, Piece(name, 13 * 19, s));
      PickOverflows(buf[p := LdWord(d, at + Place(s))], d, at, name, sum, p + 1, s + 1, LdWord(d, at + Place(s)));
    }
  }

  /** After entry j + 1 of the last sequence: j is expected next, and the buffer shows the name from there. */
  ghost predicate Expects(r: Reader, name: seq<Unit>, j: nat, sum: byte) {
    |r.buf| == MAX_LFN + 1 && r.ord == j && r.sum == sum && Shown(r.buf, ReadBack(name), 13 * j)
  }

  ghost predicate IsEntry(d: seq<byte>, at: nat, name: seq<Unit>, j: nat, sum: byte) {
    && IsName(name) && 0 < j <= Lowest(name) && j <= 20 && at + ENTRY <= |d|
    && 13 * (j - 1) < |name| && Holds(d, at, name, j, sum)
  }

  /** pick_lfn on entry j. */
  lemma {:induction false} PickWhole(buf: seq<Unit>, d: seq<byte>, at: nat, name: seq<Unit>, j: nat, sum: byte)
    requires IsEntry(d, at, name, j, sum) && |buf| == MAX_LFN + 1
    requires |ReadBack(name)| <= MAX_LFN && j < Lowest(name) ==> Shown(buf, ReadBack(name), 13 * j)
    requires |ReadBack(name)| > MAX_LFN ==> j == Lowest(name)
    ensures var p := PickEntry(buf, d, at);
            if |ReadBack(name)| <= MAX_LFN then p.ok && Shown(p.buf, ReadBack(name), 13 * (j - 1)) else !p.ok
  {
    PieceReadBack(name, j, 0);
    MarkOfOrder(j);
    if |ReadBack(name)| <= MAX_LFN {
      PickStores(buf, d, at, name, j, sum, 13 * (j - 1), 0, 1);
    } else {
      PickOverflows(buf, d, at, name, sum, 13 * 19, 0, 1);
    }
  }

  /** What the reader does with an entry of order j, in terms of pick_lfn. */
  lemma {:induction false} CaptureEntry(r: Reader, d: seq<byte>, at: nat, name: seq<Unit>, j: nat, sum: byte)
    requires IsEntry(d, at, name, j, sum)
    ensures var t, p := Capture(r, d, at), PickEntry(r.buf, d, at);
            if j == Lowest(name) || (r.ord == j && r.sum == sum)
            then t.buf == p.buf && t.sum == sum && t.ord == if p.ok then j - 1 else NO_LFN
            else t.ord == NO_LFN
  {
    PieceReadBack(name, j, 0);
    MarkOfOrder(j);
    assert Before(j) == j - 1;
    CaptureCases(r, d, at);
  }

  lemma {:induction false} CaptureCases(r: Reader, d: seq<byte>, at: nat)
    requires at + ENTRY <= |d|
    ensures var t, p, b := Capture(r, d, at), PickEntry(r.buf, d, at), d[at];
            if HasMark(b) || (r.ord == Order(b) && r.sum == d[at + 13])
            then t.buf == p.buf && t.sum == d[at + 13] && t.ord == if p.ok then Before(Order(b)) else NO_LFN
            else t.ord == NO_LFN
  {
  }

  /** The marked entry starts the sequence, whatever was read before. */
  lemma {:induction false} FirstEntry(r: Reader, d: seq<byte>, at: nat, name: seq<Unit>, j: nat, sum: byte)
    requires IsEntry(d, at, name, j, sum) && j == Lowest(name) && |r.buf| == MAX_LFN + 1
    ensures var t := Capture(r, d, at);
            if |ReadBack(name)| <= MAX_LFN then Expects(t, name, j - 1, sum) else t.ord == NO_LFN
  {
    PickWhole(r.buf, d, at, name, j, sum);
    CaptureEntry(r, d, at, name, j, sum);
  }

  /** Entries below it continue the sequence. */
  lemma {:induction false} NextEntry(r: Reader, d: seq<byte>, at: nat, name: seq<Unit>, j: nat, sum: byte)
    requires IsEntry(d, at, name, j, sum) && j < Lowest(name) && |r.buf| == MAX_LFN + 1
    ensures var t := Capture(r, d, at);
            && (|ReadBack(name)| <= MAX_LFN && Expects(r, name, j, sum) ==> Expects(t, name, j - 1, sum))
            && (r.ord == NO_LFN ==> t.ord == NO_LFN)
  {
    CaptureEntry(r, d, at, name, j, sum);
    if |ReadBack(name)| <= MAX_LFN && Expects(r, name, j, sum) {
      PickWhole(r.buf, d, at, name, j, sum);
    }
  }

  /** Scanning over entry j of a block. */
  lemma {:induction false} ScanEntry(d: seq<byte>, at: nat, name: seq<Unit>, n: nat, j: nat, sum: byte, r: Reader)
    requires Block(d, at, name, n, sum) && 0 < j <= n
    ensures var k := at + ENTRY * (n - j);
            k + ENTRY <= |d| && Holds(d, k, name, j, sum) && Scan(d, k, r) == Scan(d, k + ENTRY, Capture(r, d, k))
  {
    var k := at + ENTRY * (n - j);
    assert HoldsAt(d, at, name, n, j, sum);
    assert d[k] < 0x60 && d[k] != 0 && d[k] != 0x2E && d[k + 11] == AM_LFN;
  }

  /** Above the lowest marked entry anything may be read. */
  lemma {:induction false} ScanAbove(d: seq<byte>, at: nat, name: seq<Unit>, n: nat, j: nat, sum: byte, r: Reader)
    returns (t: Reader)
    requires Block(d, at, name, n, sum) && Lowest(name) <= j <= n && |r.buf| == MAX_LFN + 1
    ensures |t.buf| == MAX_LFN + 1
    ensures Scan(d, at + ENTRY * (n - j), r) == Scan(d, at + ENTRY * (n - Lowest(name)), t)
    decreases j
  {
    t := r;
    if j > Lowest(name) {
      var k := at + ENTRY * (n - j);
      ScanEntry(d, at, name, n, j, sum, r);
      t := ScanAbove(d, at, name, n, j - 1, sum, Capture(r, d, k));
    }
  }

  /** From entry j on downwards. */
  lemma {:induction false} ScanBelow(d: seq<byte>, at: nat, name: seq<Unit>, n: nat, j: nat, sum: byte, r: Reader)
    returns (t: Reader)
    requires IsName(name) && Block(d, at, name, n, sum) && j < Lowest(name) && j <= n && |r.buf| == MAX_LFN + 1
    requires if |ReadBack(name)| <= MAX_LFN then Expects(r, name, j, sum) else r.ord == NO_LFN
    ensures Scan(d, at + ENTRY * (n - j), r) == Scan(d, at + ENTRY * n, t)
    ensures if |ReadBack(name)| <= MAX_LFN then Expects(t, name, 0, sum) else t.ord == NO_LFN
    decreases j
  {
    if j == 0 {
      t := r;
    } else {
      t := ScanNext(d, at, name, n, j, at + ENTRY * (n - j), sum, r);
      t := ScanBelow(d, at, name, n, j - 1, sum, t);
    }
  }

  /** An entry below the first of the sequence. */
  lemma {:induction false} ScanNext(d: seq<byte>, at: nat, name: seq<Unit>, n: nat, j: nat, k: nat, sum: byte, r: Reader)
    returns (t: Reader)
    requires IsName(name) && Block(d, at, name, n, sum) && 0 < j < Lowest(name) && j <= n && |r.buf| == MAX_LFN + 1
    requires if |ReadBack(name)| <= MAX_LFN then Expects(r, name, j, sum) else r.ord == NO_LFN
    requires k == at + ENTRY * (n - j)
    ensures Scan(d, k, r) == Scan(d, at + ENTRY * (n - (j - 1)), t) && |t.buf| == MAX_LFN + 1
    ensures if |ReadBack(name)| <= MAX_LFN then Expects(t, name, j - 1, sum) else t.ord == NO_LFN
  {
    ScanEntry(d, at, name, n, j, sum, r);
    NextEntry(r, d, k, name, j, sum);
    assert k + ENTRY == at + ENTRY * (n - (j - 1));
    t := Capture(r, d, k);
  }

  /** The sequence that counts: its first entry and the ones below. */
  lemma {:induction false} ScanSequence(d: seq<byte>, at: nat, name: seq<Unit>, n: nat, sum: byte, q: Reader)
    returns (t: Reader)
    requires IsName(name) && Block(d, at, name, n, sum) && 0 < Lowest(name) <= n && |q.buf| == MAX_LFN + 1
    ensures Scan(d, at + ENTRY * (n - Lowest(name)), q) == Scan(d, at + ENTRY * n, t)
    ensures if |ReadBack(name)| <= MAX_LFN then Expects(t, name, 0, sum) else t.ord == NO_LFN
  {
    t := ScanFirst(d, at, name, n, Lowest(name), at + ENTRY * (n - Lowest(name)), sum, q);
    t := ScanBelow(d, at, name, n, Lowest(name) - 1, sum, t);
  }

  /** The first entry of the sequence. */
  lemma {:induction false} ScanFirst(d: seq<byte>, at: nat, name: seq<Unit>, n: nat, m: nat, k: nat, sum: byte, q: Reader)
    returns (t: Reader)
    requires IsName(name) && Block(d, at, name, n, sum) && 0 < m == Lowest(name) <= n && |q.buf| == MAX_LFN + 1
    requires k == at + ENTRY * (n - m)
    ensures Scan(d, k, q) == Scan(d, at + ENTRY * (n - (m - 1)), t) && |t.buf| == MAX_LFN + 1
    ensures if |ReadBack(name)| <= MAX_LFN then Expects(t, name, m - 1, sum) else t.ord == NO_LFN
  {
    ScanEntry(d, at, name, n, m, sum, q);
    FirstEntry(q, d, k, name, m, sum);
    assert k + ENTRY == at + ENTRY * (n - (m - 1));
    t := Capture(q, d, k);
  }

  /** The short entry at the end of a block. */
  ghost predicate ShortEntry(d: seq<byte>, at: nat, sum: byte) {
    && at + ENTRY <= |d| && d[at] != 0 && !Skipped(d, at) && d[at + 11] % 0x40 != AM_LFN
    && Checksum(d, at, 11) == sum
  }

  lemma {:induction false} ScanShort(d: seq<byte>, at: nat, sum: byte, r: Reader)
    requires ShortEntry(d, at, sum)
    ensures Scan(d, at, r) == Entry(at, r.ord == 0 && r.sum == sum, r.blk, r.buf)
  {
  }

  /** The name in the buffer: the units before the first 0. */
  ghost predicate BufferHolds(buf: seq<Unit>, name: seq<Unit>) {
    |name| < |buf| && buf[|name|] == 0 && forall i :: 0 <= i < |name| ==> buf[i] == name[i] && name[i] != 0
  }

  lemma {:induction false} BufferHoldsOne(buf: seq<Unit>, a: seq<Unit>, b: seq<Unit>)
    requires BufferHolds(buf, a) && BufferHolds(buf, b)
    ensures a == b
  {
    assert |a| == |b|;
  }

  lemma {:induction false} Outcome(t: Reader, name: seq<Unit>, sum: byte)
    requires IsName(name)
    requires if |ReadBack(name)| <= MAX_LFN then Expects(t, name, 0, sum) else t.ord == NO_LFN
    ensures t.ord == 0 && t.sum == sum && BufferHolds(t.buf, name) <==> Survives(name)
  {
    SurvivesExactly(name);
    PieceReadBack(name, 1, 0);
    if |ReadBack(name)| <= MAX_LFN {
      assert BufferHolds(t.buf, ReadBack(name));
      if BufferHolds(t.buf, name) {
        BufferHoldsOne(t.buf, name, ReadBack(name));
      }
    }
  }

  /**
   * What was written is read back: from any state of the reader, the block of a name and its
   * short entry give that name exactly if the name survives.
   */
  lemma {:induction false} RoundTrip(d: seq<byte>, at: nat, name: seq<Unit>, sum: byte, r: Reader)
    requires IsName(name) && Block(d, at, name, Entries(name), sum) && ShortEntry(d, at + ENTRY * Entries(name), sum)
    requires |r.buf| == MAX_LFN + 1
    ensures var f := Scan(d, at, r);
            && f.Entry? && f.at == at + ENTRY * Entries(name)
            && (f.lfn && BufferHolds(f.buf, name) <==> Survives(name))
  {
    SurvivesExactly(name);
    var n := Entries(name);
    var q := ScanAbove(d, at, name, n, n, sum, r);
    var t := ScanSequence(d, at, name, n, sum, q);
    ScanShort(d, at + ENTRY * n, sum, t);
    Outcome(t, name, sum);
  }

  /** Names without the value 0xFFFF survive, whatever their length. */
  lemma {:induction false} PlainNamesSurvive(name: seq<Unit>)
    requires IsName(name) && forall i :: 0 <= i < |name| ==> name[i] != FILLER
    ensures Survives(name)
  {
  }

  /** The value 0xFFFF in the middle of a name is lost together with what follows it. */
  lemma {:induction false} FillerInName()
    ensures var name := [0x61, FILLER, 0x62]; IsName(name) && !Survives(name)
  {
    var name := [0x61, FILLER, 0x62];
    assert Stop(name, 1) == 1;
    assert Stop(name, 0) == 1;
  }

  // Writing -------------------------------------------------------------------------------------

  lemma {:induction false} HoldsFrame(d: seq<byte>, e: seq<byte>, at: nat, name: seq<Unit>, j: nat, sum: byte)
    requires at + ENTRY <= |d| == |e| && 0 < j <= 20 && 13 * (j - 1) <= |name| && Holds(d, at, name, j, sum)
    requires forall k :: at <= k < at + ENTRY ==> e[k] == d[k]
    ensures Holds(e, at, name, j, sum)
  {
    var i := 13 * (j - 1);
    forall s | 0 <= s < 13
      ensures UnitIs(e, at, s, Piece(name, i, s))
    {
      assert UnitIs(d, at, s, Piece(name, i, s));
    }
  }

  /** Entries n down to j + 1 have been written. */
  ghost predicate Written(d: seq<byte>, at: nat, name: seq<Unit>, n: nat, j: nat, sum: byte) {
    && n <= 20 && 13 * n < |name| + 13 && at + ENTRY * n <= |d|
    && forall i: nat :: j < i <= n ==> HoldsAt(d, at, name, n, i, sum)
  }

  lemma {:induction false} WrittenFrame(d: seq<byte>, e: seq<byte>, at: nat, name: seq<Unit>, n: nat, j: nat, sum: byte)
    requires Written(d, at, name, n, j, sum) && |e| == |d| && j <= n
    requires forall k :: at <= k < at + ENTRY * (n - j) ==> e[k] == d[k]
    ensures Written(e, at, name, n, j, sum)
  {
    forall i: nat | j < i <= n
      ensures HoldsAt(e, at, name, n, i, sum)
    {
      assert HoldsAt(d, at, name, n, i, sum);
      HoldsFrame(d, e, at + ENTRY * (n - i), name, i, sum);
    }
  }

  lemma {:induction false} ChecksumSame(d: seq<byte>, at: nat, e: seq<byte>, b: nat, k: nat)
    requires at + k <= |d| && b + k <= |e| && d[at..at + k] == e[b..b + k]
    ensures Checksum(d, at, k) == Checksum(e, b, k)
  {
    if k > 0 {
      assert d[at..at + k][..k - 1] == d[at..at + k - 1] && e[b..b + k][..k - 1] == e[b..b + k - 1];
      assert d[at + k - 1] == d[at..at + k][k - 1] && e[b + k - 1] == e[b..b + k][k - 1];
      ChecksumSame(d, at, e, b, k - 1);
    }
  }

  /** The long entries of dir_register, from the highest order down. */
  method PutLongEntries(name: seq<Unit>, d: array<byte>, at: nat, n: nat, sum: byte)
    requires IsName(name) && n == Entries(name) && at + ENTRY * n <= d.Length
    modifies d
    ensures Block(d[..], at, name, n, sum)
    ensures forall k :: 0 <= k < d.Length && !(at <= k < at + ENTRY * n) ==> d[k] == old(d[k])
  {
    var ord := n;
    while ord > 0
      invariant 0 <= ord <= n && Written(d[..], at, name, n, ord, sum)
      invariant forall k :: 0 <= k < d.Length && !(at <= k < at + ENTRY * n) ==> d[k] == old(d[k])
    {
      ghost var before := d[..];
      var k := at + ENTRY * (n - ord);
      PutLfn(name, d, k, ord, sum);
      WrittenFrame(before, d[..], at, name, n, ord, sum);
      assert HoldsAt(d[..], at, name, n, ord, sum);
      ord := ord - 1;
    }
  }

  /** The short entry: cleared, and the short name stored. */
  method PutShortEntry(fn: seq<byte>, d: array<byte>, at: nat)
    requires |fn| == 11 && at + ENTRY <= d.Length && fn[0] != 0 && fn[0] != 0xE5 && fn[0] != 0x2E
    modifies d
    ensures ShortEntry(d[..], at, Checksum(fn, 0, 11))
    ensures forall k :: 0 <= k < d.Length && !(at <= k < at + ENTRY) ==> d[k] == old(d[k])
  {
    forall k | at <= k < at + ENTRY { d[k] := 0; }
    forall k | 0 <= k < 11 { d[at + k] := fn[k]; }
    assert d[..][at..at + 11] == fn;
    ShortEntryOf(d[..], at, fn);
  }

  lemma {:induction false} ShortEntryOf(d: seq<byte>, at: nat, fn: seq<byte>)
    requires at + ENTRY <= |d| && |fn| == 11 && fn[0] != 0 && fn[0] != 0xE5 && fn[0] != 0x2E
    requires d[at..at + 11] == fn && d[at + 11] == 0
    ensures ShortEntry(d, at, Checksum(fn, 0, 11))
  {
    assert fn[0..11] == fn && d[at] == d[at..at + 11][0];
    ChecksumSame(d, at, fn, 0, 11);
    var attr := d[at + 11];
    assert attr % 0x40 == 0;
  }

  /** dir_register on allocated entries: the long name above its short entry. */
  method Register(name: seq<Unit>, fn: seq<byte>, d: array<byte>, at: nat)
    requires IsName(name) && at + ENTRY * (Entries(name) + 1) <= d.Length
    requires |fn| == 11 && fn[0] != 0 && fn[0] != 0xE5 && fn[0] != 0x2E
    modifies d
    ensures var n, sum := Entries(name), Checksum(fn, 0, 11);
            Block(d[..], at, name, n, sum) && ShortEntry(d[..], at + ENTRY * n, sum)
    ensures forall k :: 0 <= k < d.Length && !(at <= k < at + ENTRY * (Entries(name) + 1)) ==> d[k] == old(d[k])
  {
    var n := Entries(name);
    var sum := SumSfn(fn, 0);
    PutLongEntries(name, d, at, n, sum);
    ghost var before := d[..];
    PutShortEntry(fn, d, at + ENTRY * n);
    WrittenFrame(before, d[..], at, name, n, 0, sum);
  }

  /** Registering a name and reading the directory from there. */
  method RegisterAndRead(name: seq<Unit>, fn: seq<byte>, d: array<byte>, at: nat, buf: array<Unit>)
    returns (found: bool, entry: nat, lfn: bool)
    requires IsName(name) && at + ENTRY * (Entries(name) + 1) <= d.Length && buf.Length == MAX_LFN + 1
    requires |fn| == 11 && fn[0] != 0 && fn[0] != 0xE5 && fn[0] != 0x2E && buf as object != d as object
    modifies d, buf
    ensures found && entry == at + ENTRY * Entries(name)
    ensures lfn && BufferHolds(buf[..], name) <==> Survives(name)
  {
    Register(name, fn, d, at);
    RoundTrip(d[..], at, name, Checksum(fn, 0, 11), Reader(NO_LFN, 0xFF, 0, buf[..]));
    var blk;
    found, entry, lfn, blk := DirRead(d[..], at, buf);
  }
}
