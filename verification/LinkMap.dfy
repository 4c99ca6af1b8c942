/** The fast-seek table: built by f_lseek(CREATE_LINKMAP), used by clmt_clust. */
module LinkMap {
  import opened Arith
  import opened Bytes
  import opened BlockIo
  import opened FatEntries
  import opened Volume
  import opened Chains
  import opened Allocator
  import opened FileImage
  import opened FileIo

  /** len clusters in a row from cluster top on. */
  datatype Fragment = Fragment(len: nat, top: nat)

  /** Clusters of the chain in a row from its i-th on. */
  function RunLength(c: seq<nat>, i: nat): (n: nat)
    requires i < |c|
    ensures 0 < n <= |c| - i
    decreases |c| - i
  {
    if i + 1 < |c| && c[i + 1] == c[i] + 1 then 1 + RunLength(c, i + 1) else 1
  }

  /** The chain from its i-th cluster on as maximal fragments. */
  function Fragments(c: seq<nat>, i: nat): seq<Fragment>
    requires i <= |c|
    decreases |c| - i
  {
    if i == |c| then [] else [Fragment(RunLength(c, i), c[i])] + Fragments(c, i + RunLength(c, i))
  }

  lemma {:induction false} RunIsConsecutive(c: seq<nat>, i: nat, j: nat)
    requires i < |c| && j < RunLength(c, i)
    ensures c[i + j] == c[i] + j
    decreases j
  {
    if j > 0 {
      RunIsConsecutive(c, i + 1, j - 1);
    }
  }

  /** A fragment ends where the chain does or jumps. */
  lemma {:induction false} RunIsMaximal(c: seq<nat>, i: nat)
    requires i < |c|
    ensures var k := i + RunLength(c, i); k < |c| ==> c[k] != c[k - 1] + 1
    decreases |c| - i
  {
    if i + 1 < |c| && c[i + 1] == c[i] + 1 {
      RunIsMaximal(c, i + 1);
    }
  }

  /** What clmt_clust finds for the cl-th cluster. */
  function Lookup(fr: seq<Fragment>, cl: nat): nat {
    if fr == [] then 0
    else if cl < fr[0].len then cl + fr[0].top
    else Lookup(fr[1..], cl - fr[0].len)
  }

  /** The fragments hold the chain: lookup finds each of its clusters, and nothing past its end. */
  lemma {:induction false} LookupIsChain(c: seq<nat>, i: nat, k: nat)
    requires i <= |c|
    ensures Lookup(Fragments(c, i), k) == if i + k < |c| then c[i + k] else 0
    decreases |c| - i
  {
    if i < |c| {
      var n := RunLength(c, i);
      var fr := Fragments(c, i);
      assert fr[1..] == Fragments(c, i + n);
      if k < n {
        RunIsConsecutive(c, i, k);
      } else {
        LookupIsChain(c, i + n, k - n);
      }
    }
  }

  /** k steps along the FAT. */
  function Walk(f: seq<nat>, c: nat, k: nat): nat {
    if k == 0 then c
    else
      var w := Walk(f, c, k - 1);
      if w < |f| then f[w] else 0
  }

  lemma {:induction false} WalkIsChain(f: seq<nat>, c: seq<nat>, k: nat)
    requires IsChain(f, c) && k < |c|
    ensures Walk(f, c[0], k) == c[k]
  {
    if k > 0 {
      WalkIsChain(f, c, k - 1);
      assert f[c[k - 1]] == c[k];
    }
  }

  /** The table t holds the fragments from item 1 on, followed by a zero. */
  ghost predicate Holds(t: seq<nat>, fr: seq<Fragment>) {
    && 1 + 2 * |fr| < |t| && t[1 + 2 * |fr|] == 0 && Stored(t, fr, |fr|)
  }

  /** It holds the first n of them. */
  ghost predicate Stored(t: seq<nat>, fr: seq<Fragment>, n: nat) {
    n <= |fr| && 1 + 2 * n <= |t| && forall j :: 0 <= j < n ==> ItemsAre(t, j, fr[j])
  }

  ghost predicate ItemsAre(t: seq<nat>, j: nat, f: Fragment)
    requires 2 * j + 2 < |t|
  {
    t[1 + 2 * j] == f.len && t[2 + 2 * j] == f.top
  }

  /** The end mark of the chain looks like the cluster after its last. */
  ghost predicate EndLooksLinked(f: seq<nat>, c: seq<nat>)
    requires IsChain(f, c)
  {
    f[c[|c| - 1]] == c[|c| - 1] + 1
  }

  /** Before the entry of cluster cl is read: ncl clusters of the fragment are behind, cl is the next in a row. */
  ghost predicate InRow(f: seq<nat>, c: seq<nat>, i: nat, ncl: nat, cl: nat) {
    && IsChain(f, c) && i + ncl < |c| && cl == c[i + ncl]
    && RunLength(c, i) == ncl + RunLength(c, i + ncl)
  }

  lemma {:induction false} RowStarts(f: seq<nat>, c: seq<nat>, i: nat)
    requires IsChain(f, c) && i < |c|
    ensures InRow(f, c, i, 0, c[i])
  {
  }

  /** How the scan of a fragment ends: with an error if the end mark looks like a link. */
  ghost predicate Scanned(f: seq<nat>, c: seq<nat>, i: nat, ok: bool, ncl: nat, cl: nat)
    requires IsChain(f, c) && i < |c|
  {
    && (ok <==> !(EndLooksLinked(f, c) && i + RunLength(c, i) == |c|))
    && (ok ==> ncl == RunLength(c, i) && if i + ncl < |c| then cl == c[i + ncl] else cl >= |f|)
  }

  /** A turn of the scan that reads the entry f[pcl]. */
  lemma {:induction false} RowGoesOn(f: seq<nat>, c: seq<nat>, i: nat, ncl: nat, pcl: nat)
    requires InRow(f, c, i, ncl, pcl)
    ensures 2 <= pcl < |f| && f[pcl] > 1
    ensures f[pcl] != pcl + 1 ==> Scanned(f, c, i, true, ncl + 1, f[pcl])
    ensures f[pcl] == pcl + 1 && i + ncl + 1 == |c| ==> pcl + 1 == |f| && Scanned(f, c, i, false, ncl + 2, 1)
    ensures f[pcl] == pcl + 1 && i + ncl + 1 < |c| ==> InRow(f, c, i, ncl + 1, pcl + 1)
  {
    var k := i + ncl;
    assert k < |c| - 1 ==> f[c[k]] == c[k + 1];
    if k == |c| - 1 {
      assert RunLength(c, k) == 1;
    }
  }

  /** The inner loop: length of the fragment that starts with cluster top, and the cluster after it. */
  method ScanFragment(fs: FatFs, top: nat, ghost c: seq<nat>, ghost i: nat, ghost d: seq<Sector>, ghost w: nat)
    returns (ok: bool, ncl: nat, cl: nat)
    requires Shows(fs, d, w) && IsChain(FatIn(fs, d), c) && i < |c| && top == c[i]
    modifies fs`wflag, fs`winsect, fs.win, fs.disk, fs.disk.shared
    ensures Shows(fs, d, w) && Scanned(FatIn(fs, d), c, i, ok, ncl, cl)
  {
    ghost var f := FatIn(fs, d);
    RowStarts(f, c, i);
    ncl, cl := 0, top;
    while true
      invariant Shows(fs, d, w)
      invariant if i + ncl < |c| then InRow(f, c, i, ncl, cl) else cl == |f| && Scanned(f, c, i, false, ncl + 1, 1)
      decreases |c| - ncl
    {
      if i + ncl < |c| {
        RowGoesOn(f, c, i, ncl, cl);
      }
      var pcl := cl;
      ncl := ncl + 1;
      cl := FatEntry(fs, cl, d, w);
      if cl <= 1 {
        return false, ncl, cl;
      }
      if cl != pcl + 1 {
        return true, ncl, cl;
      }
    }
  }

  /** done fragments are in the table if they fit in tlen items; items past these are as in t0. */
  ghost predicate Filled(t: seq<nat>, t0: seq<nat>, fr: seq<Fragment>, done: nat, tlen: nat) {
    && done <= |fr| && tlen <= |t| && Untouched(t, t0, tlen)
    && (2 + 2 * done <= tlen ==> Stored(t, fr, done))
  }

  lemma {:induction false} StoredNext(t: seq<nat>, t0: seq<nat>, fr: seq<Fragment>, done: nat, tlen: nat)
    requires Filled(t, t0, fr, done, tlen) && done < |fr|
    ensures 4 + 2 * done > tlen ==> Filled(t, t0, fr, done + 1, tlen)
    ensures 4 + 2 * done <= tlen ==>
              Filled(t[1 + 2 * done := fr[done].len][2 + 2 * done := fr[done].top], t0, fr, done + 1, tlen)
  {
    if 4 + 2 * done <= tlen {
      var e := t[1 + 2 * done := fr[done].len][2 + 2 * done := fr[done].top];
      forall j | 0 <= j < done + 1
        ensures ItemsAre(e, j, fr[j])
      {
        if j < done {
          assert ItemsAre(t, j, fr[j]);
        }
      }
    }
  }

  /** Store a fragment if the table still has room. */
  method StoreFragment(tbl: array<nat>, p: nat, ulen: nat, tlen: nat, ncl: nat, tcl: nat,
                       ghost t0: seq<nat>, ghost fr: seq<Fragment>, ghost done: nat) returns (q: nat)
    requires tbl.Length > 0 && Filled(tbl[..], t0, fr, done, tlen) && done < |fr| && fr[done] == Fragment(ncl, tcl)
    requires ulen == 4 + 2 * done && (2 + 2 * done <= tlen ==> p == 1 + 2 * done)
    modifies tbl
    ensures tbl[0] == old(tbl[0])
    ensures Filled(tbl[..], t0, fr, done + 1, tlen) && (4 + 2 * done <= tlen ==> q == 3 + 2 * done)
  {
    StoredNext(tbl[..], t0, fr, done, tlen);
    q := p;
    if ulen <= tlen {
      tbl[q], tbl[q + 1] := ncl, tcl;
      q := q + 2;
    }
  }

  lemma {:induction false} FragmentsFrom(c: seq<nat>, i: nat, done: nat)
    requires i < |c| && done <= |Fragments(c, 0)| && Fragments(c, 0)[done..] == Fragments(c, i)
    ensures done < |Fragments(c, 0)| && Fragments(c, 0)[done] == Fragment(RunLength(c, i), c[i])
    ensures Fragments(c, 0)[done + 1..] == Fragments(c, i + RunLength(c, i))
  {
    assert Fragments(c, 0)[done] == Fragments(c, 0)[done..][0];
    assert Fragments(c, 0)[done + 1..] == Fragments(c, 0)[done..][1..];
  }

  /** Between two fragments of the builder's outer loop: i clusters and `done` fragments are behind it. */
  ghost predicate Building(fs: FatFs, d: seq<Sector>, w: nat, c: seq<nat>, i: nat, cl: nat, done: nat)
    reads fs`winsect, fs`wflag, fs.win, fs.disk`device
  {
    && Shows(fs, d, w) && IsChain(FatIn(fs, d), c) && i <= |c| && done <= |Fragments(c, 0)|
    && Fragments(c, 0)[done..] == Fragments(c, i)
    && (if i < |c| then cl == c[i] else cl >= fs.g.nFatent)
  }

  /** One fragment: found, and stored if there is room. */
  method AddFragment(fs: FatFs, cl: nat, tbl: array<nat>, p: nat, ulen: nat, tlen: nat, ghost d: seq<Sector>, ghost w: nat,
                     ghost c: seq<nat>, ghost i: nat, ghost done: nat, ghost t0: seq<nat>)
    returns (ok: bool, next: nat, q: nat, ghost j: nat)
    requires tbl.Length > 0 && Building(fs, d, w, c, i, cl, done) && i < |c| && Filled(tbl[..], t0, Fragments(c, 0), done, tlen)
    requires ulen == 4 + 2 * done && (2 + 2 * done <= tlen ==> p == 1 + 2 * done)
    requires tbl as object !in {fs, fs.win, fs.disk, fs.disk.shared}
    modifies fs`wflag, fs`winsect, fs.win, fs.disk, fs.disk.shared, tbl
    ensures Shows(fs, d, w) && tbl[0] == old(tbl[0]) && Untouched(tbl[..], t0, tlen)
    ensures ok ==> i < j && Building(fs, d, w, c, j, next, done + 1)
    ensures ok ==> Filled(tbl[..], t0, Fragments(c, 0), done + 1, tlen) && (ulen <= tlen ==> q == 3 + 2 * done)
    ensures ok || EndLooksLinked(FatIn(fs, d), c)
    ensures ok && j == |c| ==> !EndLooksLinked(FatIn(fs, d), c)
  {
    FragmentsFrom(c, i, done);
    j := i + RunLength(c, i);
    q := p;
    var ncl;
    ok, ncl, next := ScanFragment(fs, cl, c, i, d, w);
    if ok {
      q := StoreFragment(tbl, p, ulen, tlen, ncl, cl, t0, Fragments(c, 0), done);
    }
  }

  ghost predicate Untouched(t: seq<nat>, t0: seq<nat>, tlen: nat) {
    |t| == |t0| && forall j :: tlen <= j < |t| ==> t[j] == t0[j]
  }

  /** What CREATE_LINKMAP makes of a table t0 for the chain c. */
  ghost predicate MapResult(t: seq<nat>, t0: seq<nat>, tlen: nat, c: seq<nat>, res: FResult)
    requires |t0| > 0
  {
    && |t| == |t0| && (forall j :: 0 < j < |t| && tlen <= j ==> t[j] == t0[j])
    && var need := 2 + 2 * |Fragments(c, 0)|;
       && t[0] == need && res == (if need <= tlen then FR_OK else FR_NOT_ENOUGH_CORE)
       && (need <= tlen ==> Holds(t, Fragments(c, 0)))
  }

  lemma {:induction false} MapDone(t: seq<nat>, t0: seq<nat>, tlen: nat, c: seq<nat>)
    requires |t0| > 0 && Filled(t, t0, Fragments(c, 0), |Fragments(c, 0)|, tlen)
    ensures var need := 2 + 2 * |Fragments(c, 0)|;
            if need <= tlen then MapResult(t[0 := need][need - 1 := 0], t0, tlen, c, FR_OK)
            else MapResult(t[0 := need], t0, tlen, c, FR_NOT_ENOUGH_CORE)
  {
    var fr := Fragments(c, 0);
    var need := 2 + 2 * |fr|;
    if need <= tlen {
      var e := t[0 := need][need - 1 := 0];
      forall j | 0 <= j < |fr|
        ensures ItemsAre(e, j, fr[j])
      {
        assert ItemsAre(t, j, fr[j]);
      }
    }
  }

  /** The last steps: number of items used, and the terminator if they fit. */
  method FinishMap(tbl: array<nat>, p: nat, ulen: nat, tlen: nat, ghost t0: seq<nat>, ghost c: seq<nat>) returns (res: FResult)
    requires tbl.Length > 0 && Filled(tbl[..], t0, Fragments(c, 0), |Fragments(c, 0)|, tlen)
    requires ulen == 2 + 2 * |Fragments(c, 0)| && (ulen <= tlen ==> p == ulen - 1)
    modifies tbl
    ensures MapResult(tbl[..], t0, tlen, c, res)
  {
    MapDone(tbl[..], t0, tlen, c);
    tbl[0] := ulen;
    res := FR_OK;
    if ulen <= tlen {
      tbl[p] := 0;
    } else {
      res := FR_NOT_ENOUGH_CORE;
    }
  }

  /** The outer loop, for a file that has clusters. */
  method BuildMap(fs: FatFs, sclust: nat, tbl: array<nat>, tlen: nat, ghost c: seq<nat>, ghost d: seq<Sector>, ghost w: nat)
    returns (res: FResult)
    requires Shows(fs, d, w) && IsChain(FatIn(fs, d), c) && sclust == c[0]
    requires tbl.Length > 0 && tlen <= tbl.Length
    requires tbl as object !in {fs, fs.win, fs.disk, fs.disk.shared}
    modifies fs`wflag, fs`winsect, fs.win, fs.disk, fs.disk.shared, tbl
    ensures Shows(fs, d, w)
    ensures EndLooksLinked(FatIn(fs, d), c) <==> res == FR_INT_ERR
    ensures res == FR_INT_ERR ==> tbl[0] == old(tbl[0]) && Untouched(tbl[..], old(tbl[..]), tlen)
    ensures res != FR_INT_ERR ==> MapResult(tbl[..], old(tbl[..]), tlen, c, res)
  {
    ghost var t0 := tbl[..];
    var cl: nat, p: nat, ulen: nat := sclust, 1, 2;
    ghost var i, done := 0, 0;
    var going := true;
    while going
      invariant Building(fs, d, w, c, i, cl, done) && Filled(tbl[..], t0, Fragments(c, 0), done, tlen) && tbl[0] == t0[0]
      invariant ulen == 2 + 2 * done && (ulen <= tlen ==> p == ulen - 1)
      invariant going <==> i < |c|
      invariant !going ==> !EndLooksLinked(FatIn(fs, d), c)
      decreases |c| - i
    {
      var ok;
      ghost var j;
      ulen := ulen + 2;
      ok, cl, p, j := AddFragment(fs, cl, tbl, p, ulen, tlen, d, w, c, i, done, t0);
      if !ok {
        return FR_INT_ERR;
      }
      i, done := j, done + 1;
      going := cl < fs.g.nFatent;
    }
    assert Fragments(c, 0)[done..] == [];
    res := FinishMap(tbl, p, ulen, tlen, t0, c);
  }

  /** f_lseek(CREATE_LINKMAP): the number of items needed, and the table if it has that many. */
  method CreateLinkMap(fs: FatFs, sclust: nat, tbl: array<nat>, ghost c: seq<nat>) returns (res: FResult)
    requires Ready(fs) && OwnsChain(fs.Fat(), sclust, c)
    requires 0 < tbl.Length && tbl[0] <= tbl.Length
    requires tbl as object !in {fs, fs.win, fs.disk, fs.disk.shared}
    modifies fs`wflag, fs`winsect, fs.win, fs.disk, fs.disk.shared, tbl
    ensures Ready(fs) && fs.Logical() == old(fs.Logical())
    ensures c != [] && EndLooksLinked(fs.Fat(), c) <==> res == FR_INT_ERR
    ensures res == FR_INT_ERR ==> Untouched(tbl[..], old(tbl[..]), old(tbl[0]))
    ensures res != FR_INT_ERR ==> MapResult(tbl[..], old(tbl[..]), old(tbl[0]), c, res)
  {
    var tlen := tbl[0];
    if sclust != 0 {
      res := BuildMap(fs, sclust, tbl, tlen, c, fs.Logical(), fs.winsect);
    } else {
      res := FinishMap(tbl, 1, 2, tlen, tbl[..], c);
    }
  }

  /** The loop of clmt_clust. */
  method FindFragment(tbl: array<nat>, cl0: nat, ghost fr: seq<Fragment>) returns (c: nat)
    requires Holds(tbl[..], fr) && forall j :: 0 <= j < |fr| ==> fr[j].len > 0
    ensures c == Lookup(fr, cl0)
  {
    var cl: nat := cl0;
    var i := 1;
    ghost var j := 0;
    while true
      invariant j <= |fr| && i == 1 + 2 * j && Lookup(fr[j..], cl) == Lookup(fr, cl0)
      decreases |fr| - j
    {
      var ncl := tbl[i];
      assert j < |fr| ==> ItemsAre(tbl[..], j, fr[j]);
      if ncl == 0 {
        return 0;
      }
      if cl < ncl {
        return cl + tbl[i + 1];
      }
      assert fr[j..][1..] == fr[j + 1..];
      cl, i, j := cl - ncl, i + 2, j + 1;
    }
  }

  lemma {:induction false} FragmentsNotEmpty(c: seq<nat>, i: nat, j: nat)
    requires i <= |c| && j < |Fragments(c, i)|
    ensures Fragments(c, i)[j].len > 0
    decreases |c| - i
  {
    if j > 0 {
      FragmentsNotEmpty(c, i + RunLength(c, i), j - 1);
    }
  }

  /** clmt_clust finds the cluster that as many steps along the FAT would find, and 0 past the end. */
  method ClmtClust(tbl: array<nat>, g: Layout, ofs: nat, ghost f: seq<nat>, ghost c: seq<nat>) returns (clst: nat)
    requires Holds(tbl[..], Fragments(c, 0)) && g.ss > 0 && g.csize > 0 && (c == [] || IsChain(f, c))
    ensures clst == if InFile(g, c, ofs) then ClusterOfByte(g, c, ofs) else 0
    ensures InFile(g, c, ofs) ==> clst == Walk(f, c[0], Quot(Quot(ofs, g.ss), g.csize))
  {
    var cl := Quot(Quot(ofs, g.ss), g.csize);
    forall j | 0 <= j < |Fragments(c, 0)|
      ensures Fragments(c, 0)[j].len > 0
    {
      FragmentsNotEmpty(c, 0, j);
    }
    clst := FindFragment(tbl, cl, Fragments(c, 0));
    LookupIsChain(c, 0, cl);
    if cl < |c| {
      WalkIsChain(f, c, cl);
    }
  }

  /** An end mark equal to the number of entries, after the last cluster of the volume, fails the builder. */
  lemma {:induction false} EndLooksLinkedExactly(f: seq<nat>, c: seq<nat>)
    requires IsChain(f, c)
    ensures EndLooksLinked(f, c) <==> c[|c| - 1] == |f| - 1 && f[|f| - 1] == |f|
  {
  }

  /** A chain of one cluster, the last of the volume, whose end mark is the number of entries. */
  lemma {:induction false} BuilderFails()
    ensures var f, c := [0xFF8, 0xFFF, 0, 4], [3]; IsChain(f, c) && EndLooksLinked(f, c)
  {
  }

  /** The end mark put_fat leaves never looks like a link. */
  lemma {:induction false} OwnMarkEnds(t: FatType, f: seq<nat>, c: seq<nat>)
    requires IsChain(f, c) && |f| <= MaxClusters(t) + 2 && f[c[|c| - 1]] == EntryLimit(t) - 1
    ensures !EndLooksLinked(f, c)
  {
  }
}
