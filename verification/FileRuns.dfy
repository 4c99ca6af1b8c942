/** Any run of f_write, f_read and f_lseek on one open file, as a sequence of bytes with a cursor. */
module FileRuns {
  import opened Arith
  import opened Bytes
  import opened FatEntries
  import opened Chains
  import opened Allocator
  import opened FileImage
  import opened FileIo
  import opened FileRead
  import opened FileSeek

  /** The bytes of the file and the cursor. */
  datatype View = View(bytes: seq<byte>, pos: nat)

  datatype Request = WriteBytes(buff: seq<byte>) | ReadBytes(btr: nat) | SeekTo(ofs: nat)

  /** A request, the number of bytes written, and the bytes read. */
  datatype Event = Event(req: Request, bw: nat, data: seq<byte>)

  ghost function ViewOf(fp: Fil): View
    requires fp.Valid()
    reads fp`chain, fp`dirty, fp`cur, fp`sclust, fp`sect, fp`clust, fp`fptr, fp`objsize
    reads fp.buf, fp.fs`freeClst, fp.fs`winsect, fp.fs`wflag, fp.fs.win, fp.fs.disk`device
  {
    View(fp.Content(), fp.fptr)
  }

  /** Bytes a write asks for, below the 4 GiB limit. */
  function Wanted(v: View, buff: seq<byte>): nat {
    if v.pos < TWO32 && |buff| < TWO32 then ClippedLength(v.pos, |buff|) else 0
  }

  /** Where a seek goes. */
  function Goal(canWrite: bool, v: View, ofs: nat): nat {
    var t := if ofs >= TWO32 then TWO32 - 1 else ofs;
    if t > |v.bytes| && !canWrite then |v.bytes| else t
  }

  /** Bytes a read gets. */
  function Readable(v: View, btr: nat): nat
    requires v.pos <= |v.bytes|
  {
    if btr > |v.bytes| - v.pos then |v.bytes| - v.pos else btr
  }

  /**
   * What one call does to the byte array with a cursor.  `full` says that no cluster is free
   * after it: only then may a write or a seek fall short.
   */
  ghost predicate Step(canRead: bool, canWrite: bool, full: bool, v: View, e: Event, w: View) {
    && v.pos <= |v.bytes|
    && match e.req
       case WriteBytes(buff) =>
         && e.bw <= |buff| && w.pos == v.pos + e.bw && w.bytes == Overwrite(v.bytes, v.pos, buff[..e.bw])
         && e.bw <= (if canWrite then Wanted(v, buff) else 0)
         && (canWrite && e.bw < Wanted(v, buff) ==> full)
       case ReadBytes(btr) =>
         && w.bytes == v.bytes && w.pos == v.pos + |e.data| <= |v.bytes|
         && |e.data| == (if canRead then Readable(v, btr) else 0)
         && e.data == v.bytes[v.pos..w.pos]
       case SeekTo(ofs) =>
         && |w.bytes| == Grown(|v.bytes|, w.pos) && w.bytes[..|v.bytes|] == v.bytes
         && (w.pos == Goal(canWrite, v, ofs) || (full && canWrite && |v.bytes| <= w.pos < Goal(canWrite, v, ofs)))
  }

  /** The rest of the volume: other sectors, other entries, second FAT and reserved bits are as before. */
  ghost predicate RestKept(m: Image, f: seq<nat>, e: Image, h: seq<nat>) {
    OthersUntouched(m, e) && FatGrew(f, h, m.chain, e.chain)
  }

  lemma {:induction false} RestKeptTransitive(a: Image, f: seq<nat>, b: Image, g: seq<nat>, c: Image, h: seq<nat>)
    requires RestKept(a, f, b, g) && RestKept(b, g, c, h)
    ensures RestKept(a, f, c, h)
  {
    OthersUntouchedTransitive(a, b, c);
    FatGrewTransitive(f, g, h, a.chain, b.chain, c.chain);
  }

  /** What a request may ask of a file; lengths are 32-bit. */
  predicate Allowed(req: Request) {
    req.WriteBytes? ==> |req.buff| < TWO32
  }

  method PerformWrite(fp: Fil, buff: seq<byte>) returns (e: Event)
    requires fp.Valid() && |buff| < TWO32
    modifies fp, fp.buf, fp.fs, fp.fs.win, fp.fs.disk, fp.fs.disk.shared
    ensures fp.Valid() && e.req == WriteBytes(buff)
    ensures Step(fp.canRead, fp.canWrite, fp.Full(), old(ViewOf(fp)), e, ViewOf(fp))
    ensures RestKept(old(fp.Img()), old(fp.fs.Fat()), fp.Img(), fp.fs.Fat())
  {
    var _, bw := fp.Write(buff);
    e := Event(WriteBytes(buff), bw, []);
  }

  method PerformRead(fp: Fil, btr: nat) returns (e: Event)
    requires fp.Valid()
    modifies fp, fp.buf, fp.fs, fp.fs.win, fp.fs.disk, fp.fs.disk.shared
    ensures fp.Valid() && e.req == ReadBytes(btr)
    ensures Step(fp.canRead, fp.canWrite, fp.Full(), old(ViewOf(fp)), e, ViewOf(fp))
    ensures RestKept(old(fp.Img()), old(fp.fs.Fat()), fp.Img(), fp.fs.Fat())
  {
    var _, data := Read(fp, btr);
    e := Event(ReadBytes(btr), 0, data);
  }

  method PerformSeek(fp: Fil, ofs: nat) returns (e: Event)
    requires fp.Valid()
    modifies fp, fp.buf, fp.fs, fp.fs.win, fp.fs.disk, fp.fs.disk.shared
    ensures fp.Valid() && e.req == SeekTo(ofs)
    ensures Step(fp.canRead, fp.canWrite, fp.Full(), old(ViewOf(fp)), e, ViewOf(fp))
    ensures RestKept(old(fp.Img()), old(fp.fs.Fat()), fp.Img(), fp.fs.Fat())
  {
    ghost var v := ViewOf(fp);
    assert Target(fp, ofs) == Goal(fp.canWrite, v, ofs);
    var _ := Seek(fp, ofs);
    AllocatedBound(fp.fs.g, fp.chain, fp.objsize);
    e := Event(SeekTo(ofs), 0, []);
  }

  /** One request of any kind. */
  method Perform(fp: Fil, req: Request) returns (e: Event)
    requires fp.Valid() && Allowed(req)
    modifies fp, fp.buf, fp.fs, fp.fs.win, fp.fs.disk, fp.fs.disk.shared
    ensures fp.Valid() && e.req == req
    ensures Step(fp.canRead, fp.canWrite, fp.Full(), old(ViewOf(fp)), e, ViewOf(fp))
    ensures RestKept(old(fp.Img()), old(fp.fs.Fat()), fp.Img(), fp.fs.Fat())
  {
    match req {
      case WriteBytes(buff) => e := PerformWrite(fp, buff);
      case ReadBytes(btr) => e := PerformRead(fp, btr);
      case SeekTo(ofs) => e := PerformSeek(fp, ofs);
    }
  }

  // Runs ----------------------------------------------------------------------------------------

  /** A run: each view follows from the one before; full[k] says that the disk was full then. */
  ghost predicate Run(canRead: bool, canWrite: bool, views: seq<View>, events: seq<Event>, full: seq<bool>) {
    && |views| == |events| + 1 && |full| == |events|
    && forall k: nat {:trigger events[k]} :: k < |events| ==> Step(canRead, canWrite, full[k], views[k], events[k], views[k + 1])
  }

  lemma {:induction false} RunOn(canRead: bool, canWrite: bool, views: seq<View>, events: seq<Event>, full: seq<bool>,
                                 e: Event, now: bool, w: View)
    requires Run(canRead, canWrite, views, events, full)
    requires Step(canRead, canWrite, now, views[|events|], e, w)
    ensures Run(canRead, canWrite, views + [w], events + [e], full + [now])
  {
  }

  /** The events are those of the first n requests. */
  predicate Answer(events: seq<Event>, reqs: seq<Request>, n: nat) {
    |events| == n <= |reqs| && forall k :: 0 <= k < n ==> events[k].req == reqs[k]
  }

  predicate AllAllowed(reqs: seq<Request>) {
    forall k :: 0 <= k < |reqs| ==> Allowed(reqs[k])
  }

  /** If the count is right and a call found the disk full, no cluster is free. */
  ghost predicate Spent(exact: bool, full: seq<bool>, f: seq<nat>) {
    exact && true in full ==> FreeCount(f) == 0
  }

  lemma {:induction false} SpentOn(exact: bool, was: seq<bool>, now: bool, m: Image, f: seq<nat>, e: Image, h: seq<nat>,
                                   first: nat, first': nat)
    requires Spent(exact, was, f) && (exact && now ==> FreeCount(h) == 0)
    requires RestKept(m, f, e, h) && |f| == m.g.nFatent && OwnsChain(f, first, m.chain) && OwnsChain(h, first', e.chain)
    ensures Spent(exact, was + [now], h)
  {
    CallsConserve(m, f, e, h, first, first');
    assert |e.chain| >= |m.chain|;
    assert true in was + [now] ==> true in was || now;
  }

  /** Request number i, after the ones before it. */
  method PerformNext(fp: Fil, reqs: seq<Request>, i: nat, before: seq<Event>, ghost seen: seq<View>, ghost was: seq<bool>,
                     ghost m: Image, ghost f: seq<nat>)
    returns (events: seq<Event>, ghost views: seq<View>, ghost full: seq<bool>)
    requires fp.Valid() && i < |reqs| && AllAllowed(reqs) && Answer(before, reqs, i) && RestKept(m, f, fp.Img(), fp.fs.Fat())
    requires Run(fp.canRead, fp.canWrite, seen, before, was) && seen[i] == ViewOf(fp) && Spent(fp.exact, was, fp.fs.Fat())
    modifies fp, fp.buf, fp.fs, fp.fs.win, fp.fs.disk, fp.fs.disk.shared
    ensures fp.Valid() && Answer(events, reqs, i + 1)
    ensures Run(fp.canRead, fp.canWrite, views, events, full) && views[0] == seen[0] && views[i + 1] == ViewOf(fp)
    ensures RestKept(m, f, fp.Img(), fp.fs.Fat()) && Spent(fp.exact, full, fp.fs.Fat())
  {
    ghost var m1, f1, first := fp.Img(), fp.fs.Fat(), fp.sclust;
    var e := Perform(fp, reqs[i]);
    SpentOn(fp.exact, was, fp.Full(), m1, f1, fp.Img(), fp.fs.Fat(), first, fp.sclust);
    RunOn(fp.canRead, fp.canWrite, seen, before, was, e, fp.Full(), ViewOf(fp));
    RestKeptTransitive(m, f, m1, f1, fp.Img(), fp.fs.Fat());
    events, views, full := before + [e], seen + [ViewOf(fp)], was + [fp.Full()];
  }

  /**
   * Any list of requests on an open file is a run of the byte array with a cursor.  If a cluster
   * is free in the end, and the noted count was right, no call fell short of what it was asked.
   */
  method PerformAll(fp: Fil, reqs: seq<Request>) returns (events: seq<Event>, ghost views: seq<View>, ghost full: seq<bool>)
    requires fp.Valid() && AllAllowed(reqs)
    modifies fp, fp.buf, fp.fs, fp.fs.win, fp.fs.disk, fp.fs.disk.shared
    ensures fp.Valid() && Answer(events, reqs, |reqs|)
    ensures Run(fp.canRead, fp.canWrite, views, events, full)
    ensures views[0] == old(ViewOf(fp)) && views[|events|] == ViewOf(fp)
    ensures RestKept(old(fp.Img()), old(fp.fs.Fat()), fp.Img(), fp.fs.Fat())
    ensures FreeCount(fp.fs.Fat()) + |fp.chain| == old(FreeCount(fp.fs.Fat()) + |fp.chain|)
    ensures fp.exact && FreeCount(fp.fs.Fat()) > 0 ==> forall k :: 0 <= k < |full| ==> !full[k]
  {
    ghost var m, f, first := fp.Img(), fp.fs.Fat(), fp.sclust;
    events, views, full := [], [ViewOf(fp)], [];
    GrownSame(m, m);
    for i := 0 to |reqs|
      invariant fp.Valid() && Answer(events, reqs, i)
      invariant Run(fp.canRead, fp.canWrite, views, events, full)
      invariant views[0] == old(ViewOf(fp)) && views[i] == ViewOf(fp)
      invariant RestKept(m, f, fp.Img(), fp.fs.Fat()) && Spent(fp.exact, full, fp.fs.Fat())
    {
      events, views, full := PerformNext(fp, reqs, i, events, views, full, m, f);
    }
    CallsConserve(m, f, fp.Img(), fp.fs.Fat(), first, fp.sclust);
  }

  /** The write of event e at position p covers byte i. */
  predicate Covers(e: Event, p: nat, i: nat) {
    e.req.WriteBytes? && e.bw <= |e.req.buff| && p <= i < p + e.bw
  }

  /** Byte i as the latest of the first n events left it, or as it was at first. */
  ghost function Latest(views: seq<View>, events: seq<Event>, n: nat, i: nat): byte
    requires |views| == |events| + 1 && n <= |events|
  {
    if n == 0 then (if i < |views[0].bytes| then views[0].bytes[i] else 0)
    else if Covers(events[n - 1], views[n - 1].pos, i) then events[n - 1].req.buff[i - views[n - 1].pos]
    else Latest(views, events, n - 1, i)
  }

  /** Byte i was in the file at first or has been written. */
  ghost predicate Specified(views: seq<View>, events: seq<Event>, n: nat, i: nat)
    requires |views| == |events| + 1 && n <= |events|
  {
    if n == 0 then i < |views[0].bytes|
    else Covers(events[n - 1], views[n - 1].pos, i) || Specified(views, events, n - 1, i)
  }

  /** After any run every byte has the value of the latest write that covered it, or its first value. */
  lemma {:induction false} RunKeepsLatest(canRead: bool, canWrite: bool, views: seq<View>, events: seq<Event>,
                                          full: seq<bool>, n: nat, i: nat)
    requires Run(canRead, canWrite, views, events, full) && n <= |events| && Specified(views, events, n, i)
    ensures i < |views[n].bytes| && views[n].bytes[i] == Latest(views, events, n, i)
  {
    if n > 0 {
      var k := n - 1;
      assert Step(canRead, canWrite, full[k], views[k], events[k], views[n]);
      if Covers(events[k], views[k].pos, i) {
        StepStoresByte(canRead, canWrite, full[k], views[k], events[k], views[n], i);
      } else {
        RunKeepsLatest(canRead, canWrite, views, events, full, k, i);
        StepKeepsByte(canRead, canWrite, full[k], views[k], events[k], views[n], i);
      }
    }
  }

  lemma {:induction false} StepStoresByte(canRead: bool, canWrite: bool, full: bool, v: View, e: Event, w: View, i: nat)
    requires Step(canRead, canWrite, full, v, e, w) && Covers(e, v.pos, i)
    ensures i < |w.bytes| && w.bytes[i] == e.req.buff[i - v.pos]
  {
    OverwriteElements(v.bytes, v.pos, e.req.buff[..e.bw]);
  }

  /** A call that does not write byte i keeps it. */
  lemma {:induction false} StepKeepsByte(canRead: bool, canWrite: bool, full: bool, v: View, e: Event, w: View, i: nat)
    requires Step(canRead, canWrite, full, v, e, w) && i < |v.bytes| && !Covers(e, v.pos, i)
    ensures i < |w.bytes| && w.bytes[i] == v.bytes[i]
  {
    if e.req.SeekTo? {
      assert w.bytes[..|v.bytes|][i] == w.bytes[i];
    }
  }

  /** A read returns the latest bytes, whatever calls came before it. */
  lemma {:induction false} ReadsSeeLatest(canRead: bool, canWrite: bool, views: seq<View>, events: seq<Event>,
                                          full: seq<bool>, k: nat, j: nat)
    requires Run(canRead, canWrite, views, events, full) && k < |events| && events[k].req.ReadBytes?
    requires j < |events[k].data| && Specified(views, events, k, views[k].pos + j)
    ensures events[k].data[j] == Latest(views, events, k, views[k].pos + j)
  {
    assert Step(canRead, canWrite, full[k], views[k], events[k], views[k + 1]);
    RunKeepsLatest(canRead, canWrite, views, events, full, k, views[k].pos + j);
  }

  // The rest of the volume ----------------------------------------------------------------------

  /** The clusters of another object are none of the file, before and after. */
  lemma {:induction false} StillApart(f: seq<nat>, h: seq<nat>, chain: seq<nat>, longer: seq<nat>, other: seq<nat>)
    requires FatGrew(f, h, chain, longer) && IsChain(f, other) && forall x :: x in other ==> x !in chain
    ensures IsChain(h, other) && forall x :: x in other ==> x !in longer
  {
    forall x | x in other
      ensures x !in longer
    {
      ChainEntry(f, other, x);
      forall i | 0 <= i < |longer|
        ensures longer[i] != x
      {
        assert i < |chain| ==> longer[i] in chain;
      }
    }
    ChainFrame(f, h, other);
  }

  /** A sector of another object is outside the file. */
  lemma {:induction false} SectorOutside(g: Layout, total: nat, chain: seq<nat>, other: seq<nat>, k: nat)
    requires DataClusters(g, total, chain) && DataClusters(g, total, other) && InRange(g, total) && InChain(g, other, k)
    requires forall x :: x in other ==> x !in chain
    ensures Outside(g, chain, FileSector(g, other, k)) && FileSector(g, other, k) < total
  {
    FileSectorOnDevice(g, total, other, k);
    forall l: nat | InChain(g, chain, l)
      ensures FileSector(g, chain, l) != FileSector(g, other, k)
    {
      QuotRem(l, g.csize);
      var c, d := chain[Quot(l, g.csize)], other[Quot(k, g.csize)];
      assert c in chain && d in other;
      if FileSector(g, chain, l) == FileSector(g, other, k) {
        ClustersApart(g, c, d, Rem(l, g.csize), Rem(k, g.csize));
      }
    }
  }

  /**
   * Whatever calls are made on one file, another file whose clusters are not its own keeps its
   * chain and its bytes, its own buffered sector included.
   */
  lemma {:induction false} OtherFileKept(m: Image, f: seq<nat>, e: Image, h: seq<nat>, a: Image)
    requires RestKept(m, f, e, h) && ValidImage(a) && a.g == m.g && a.d == m.d
    requires IsChain(f, a.chain) && forall x :: x in a.chain ==> x !in m.chain
    ensures IsChain(h, a.chain) && (forall x :: x in a.chain ==> x !in e.chain)
    ensures SameData(a, a.(d := e.d))
  {
    StillApart(f, h, m.chain, e.chain, a.chain);
    forall k: nat | InChain(a.g, a.chain, k)
      ensures SectorData(a.(d := e.d), k) == SectorData(a, k)
    {
      SectorOutside(e.g, |e.d|, e.chain, a.chain, k);
    }
  }

  /** Free clusters and clusters of the file add up to the same number before and after. */
  lemma {:induction false} ClustersConserved(f: seq<nat>, h: seq<nat>, chain: seq<nat>, longer: seq<nat>)
    requires FatGrew(f, h, chain, longer) && Distinct(longer) && forall i :: 0 <= i < |longer| ==> 2 <= longer[i] < |f|
    requires (forall x :: x in chain ==> f[x] != 0) && forall x :: x in longer ==> h[x] != 0
    ensures FreeCount(h) + |longer| == FreeCount(f) + |chain|
    decreases |longer| - |chain|
  {
    if |chain| == |longer| {
      assert chain == longer;
      SameZeros(f, h, |f|);
    } else {
      var x := longer[|chain|];
      var e, c := f[x := h[x]], longer[..|chain| + 1];
      assert x in longer;
      ZerosUpdate(f, |f|, x, h[x]);
      assert c == chain + [x];
      forall i | |c| <= i < |longer|
        ensures e[longer[i]] == 0
      {
        assert Different(longer, i, |chain|);
      }
      ClustersConserved(e, h, c, longer);
    }
  }

  /** So they do for any calls on a file. */
  lemma {:induction false} CallsConserve(m: Image, f: seq<nat>, e: Image, h: seq<nat>, first: nat, first': nat)
    requires RestKept(m, f, e, h) && |f| == m.g.nFatent && OwnsChain(f, first, m.chain) && OwnsChain(h, first', e.chain)
    ensures FreeCount(h) + |e.chain| == FreeCount(f) + |m.chain|
  {
    forall x | x in m.chain
      ensures f[x] != 0
    {
      ChainEntry(f, m.chain, x);
    }
    forall x | x in e.chain
      ensures h[x] != 0
    {
      ChainEntry(h, e.chain, x);
    }
    ClustersConserved(f, h, m.chain, e.chain);
  }

  lemma {:induction false} SameZeros(f: seq<nat>, h: seq<nat>, hi: nat)
    requires |f| == |h| && hi <= |f| && forall x :: 0 <= x < |f| ==> (f[x] == 0 <==> h[x] == 0)
    ensures Zeros(f, hi) == Zeros(h, hi)
  {
    if hi > 2 {
      SameZeros(f, h, hi - 1);
    }
  }
}
