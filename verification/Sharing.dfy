/** The table of open objects that keeps readers and a writer of one object apart. */
module Sharing {

  const FF_FS_LOCK: nat := 48
  const WRITING: nat := 0x100   // ctr of an object open for writing

  datatype ShareResult = FR_OK | FR_LOCKED | FR_TOO_MANY_OPEN_FILES | FR_INT_ERR

  /** Volume (0 for a blank entry), directory and offset in it identify an object. */
  datatype FileSem = FileSem(fs: nat, clu: nat, ofs: nat, ctr: nat)

  datatype Object = Object(fs: nat, clu: nat, ofs: nat)

  /** An open that has not been closed. */
  datatype Handle = Handle(lockid: nat, obj: Object, write: bool)

  function ObjectOf(e: FileSem): Object { Object(e.fs, e.clu, e.ofs) }

  predicate InUse(e: FileSem, o: Object) { e.fs != 0 && ObjectOf(e) == o }

  /** ctr after one more open. */
  function Opened(ctr: nat, acc: nat): nat { if acc != 0 then WRITING else ctr + 1 }

  /** ctr after a close. */
  function Closed(ctr: nat): nat {
    var n := if ctr == WRITING then 0 else ctr;
    if n > 0 then n - 1 else n
  }

  /** Entry i tells the live handles it stands for. */
  ghost predicate EntryTells(e: FileSem, i: nat, live: multiset<Handle>) {
    && (forall h :: h in live && h.lockid == i + 1 ==> e.fs != 0 && h.obj == ObjectOf(e))
    && (e.fs != 0 ==>
          var r, w := live[Handle(i + 1, ObjectOf(e), false)], live[Handle(i + 1, ObjectOf(e), true)];
          if e.ctr == WRITING then w == 1 && r == 0 else w == 0 && 0 < r < WRITING && r == e.ctr)
  }

  ghost predicate Differ(files: seq<FileSem>, i: nat, j: nat)
    requires i < |files| && j < |files|
  {
    files[i].fs != 0 && files[j].fs != 0 && i != j ==> ObjectOf(files[i]) != ObjectOf(files[j])
  }

  /** Every live handle has its entry, every entry the right count, and no object two entries. */
  ghost predicate Faithful(files: seq<FileSem>, live: multiset<Handle>) {
    && |files| == FF_FS_LOCK
    && (forall i: nat :: i < FF_FS_LOCK ==> EntryTells(files[i], i, live))
    && (forall i: nat, j: nat :: i < FF_FS_LOCK && j < FF_FS_LOCK ==> Differ(files, i, j))
    && (forall h :: h in live ==> 0 < h.lockid <= FF_FS_LOCK)
  }

  ghost predicate NotListed(files: seq<FileSem>, o: Object) {
    forall j :: 0 <= j < |files| ==> !InUse(files[j], o)
  }

  /** The object is open. */
  ghost predicate IsOpen(live: multiset<Handle>, o: Object) {
    exists h :: h in live && h.obj == o
  }

  ghost predicate IsWritten(live: multiset<Handle>, o: Object) {
    exists h :: h in live && h.obj == o && h.write
  }

  /** An entry is in use for an object exactly if that is open, and marked if a writer has it. */
  lemma {:induction false} EntryOfOpen(files: seq<FileSem>, live: multiset<Handle>, o: Object, i: nat)
    requires Faithful(files, live) && o.fs != 0
    requires i <= FF_FS_LOCK && (i < FF_FS_LOCK ==> InUse(files[i], o))
    requires i == FF_FS_LOCK ==> NotListed(files, o)
    ensures IsOpen(live, o) <==> i < FF_FS_LOCK
    ensures IsWritten(live, o) <==> i < FF_FS_LOCK && files[i].ctr == WRITING
  {
    if i < FF_FS_LOCK {
      assert EntryTells(files[i], i, live);
      var r, w := Handle(i + 1, o, false), Handle(i + 1, o, true);
      assert r in live || w in live;
      forall h | h in live && h.obj == o
        ensures h == r || h == w
      {
        assert EntryTells(files[h.lockid - 1], h.lockid - 1, live);
        assert Differ(files, i, h.lockid - 1);
      }
    } else {
      forall h | h in live
        ensures h.obj != o
      {
        assert EntryTells(files[h.lockid - 1], h.lockid - 1, live);
      }
    }
  }

  /** Changing entry i and one handle of its number leaves the other entries right. */
  lemma {:induction false} OthersTell(files: seq<FileSem>, live: multiset<Handle>, i: nat, e: FileSem, h: Handle, more: bool)
    requires Faithful(files, live) && i < FF_FS_LOCK && h.lockid == i + 1
    requires e.fs != 0 ==> InUse(files[i], ObjectOf(e)) || NotListed(files, ObjectOf(e))
    ensures var f, l := files[i := e], if more then live + multiset{h} else live - multiset{h};
            && (forall j: nat :: j < FF_FS_LOCK && j != i ==> EntryTells(f[j], j, l))
            && (forall j: nat, k: nat :: j < FF_FS_LOCK && k < FF_FS_LOCK ==> Differ(f, j, k))
            && (forall x :: x in l ==> 0 < x.lockid <= FF_FS_LOCK)
  {
    var f, l := files[i := e], if more then live + multiset{h} else live - multiset{h};
    forall j: nat | j < FF_FS_LOCK && j != i
      ensures EntryTells(f[j], j, l)
    {
      assert EntryTells(files[j], j, live);
      assert forall x: Handle :: x.lockid == j + 1 ==> l[x] == live[x];
    }
    forall j: nat, k: nat | j < FF_FS_LOCK && k < FF_FS_LOCK
      ensures Differ(f, j, k)
    {
      assert Differ(files, j, k);
    }
  }

  /** The table with one more in the count of entry i, and with the handle for it. */
  function CountedUp(files: seq<FileSem>, i: nat): seq<FileSem>
    requires i < |files|
  {
    files[i := files[i].(ctr := Opened(files[i].ctr, 0))]
  }

  /** One more reader of an open object: the table still tells its handles exactly if there was no writer and fewer than 255 readers. */
  lemma {:induction false} ReaderAddedExactly(files: seq<FileSem>, live: multiset<Handle>, i: nat)
    requires Faithful(files, live) && i < FF_FS_LOCK && files[i].fs != 0
    ensures Faithful(CountedUp(files, i), live + multiset{Handle(i + 1, ObjectOf(files[i]), false)})
       <==> files[i].ctr < 255
  {
    var h := Handle(i + 1, ObjectOf(files[i]), false);
    OthersTell(files, live, i, CountedUp(files, i)[i], h, true);
    assert EntryTells(files[i], i, live);
    if Faithful(CountedUp(files, i), live + multiset{h}) {
      assert EntryTells(CountedUp(files, i)[i], i, live + multiset{h});
    }
  }

  /** The same seen from the handles. */
  lemma {:induction false} ReadersOfOpen(files: seq<FileSem>, live: multiset<Handle>, i: nat)
    requires Faithful(files, live) && i < FF_FS_LOCK && files[i].fs != 0
    ensures files[i].ctr < WRITING - 1 <==> !IsWritten(live, ObjectOf(files[i])) && FewReaders(live, ObjectOf(files[i]))
  {
    var o := ObjectOf(files[i]);
    EntryOfOpen(files, live, o, i);
    assert EntryTells(files[i], i, live);
    forall j: nat
      ensures j != i + 1 ==> live[Handle(j, o, false)] == 0
    {
      assert 0 < j <= FF_FS_LOCK ==> EntryTells(files[j - 1], j - 1, live) && Differ(files, i, j - 1);
    }
  }

  /** The first handle of an object, in a blank entry. */
  lemma {:induction false} EntryAdded(files: seq<FileSem>, live: multiset<Handle>, i: nat, o: Object, write: bool)
    requires Faithful(files, live) && i < FF_FS_LOCK && files[i].fs == 0 && o.fs != 0 && NotListed(files, o)
    ensures Faithful(files[i := FileSem(o.fs, o.clu, o.ofs, if write then WRITING else 1)],
                     live + multiset{Handle(i + 1, o, write)})
  {
    OthersTell(files, live, i, FileSem(o.fs, o.clu, o.ofs, if write then WRITING else 1), Handle(i + 1, o, write), true);
    assert EntryTells(files[i], i, live);
  }

  /** Entry i after a close. */
  function AfterClose(e: FileSem): FileSem {
    var n := Closed(e.ctr);
    FileSem(if n == 0 then 0 else e.fs, e.clu, e.ofs, n)
  }

  lemma {:induction false} HandleClosed(files: seq<FileSem>, live: multiset<Handle>, h: Handle)
    requires Faithful(files, live) && h in live
    ensures 0 < h.lockid <= FF_FS_LOCK
    ensures Faithful(files[h.lockid - 1 := AfterClose(files[h.lockid - 1])], live - multiset{h})
  {
    var i := h.lockid - 1;
    assert EntryTells(files[i], i, live);
    OthersTell(files, live, i, AfterClose(files[i]), h, false);
  }

  /** A close without a handle spoils the table, unless the entry is blank. */
  lemma {:induction false} ClosedExactly(files: seq<FileSem>, live: multiset<Handle>, h: Handle)
    requires Faithful(files, live) && 0 < h.lockid <= FF_FS_LOCK
    ensures Faithful(files[h.lockid - 1 := AfterClose(files[h.lockid - 1])], live - multiset{h})
       <==> h in live || files[h.lockid - 1].fs == 0
  {
    var i := h.lockid - 1;
    var f := files[i := AfterClose(files[i])];
    assert EntryTells(files[i], i, live);
    if h in live {
      HandleClosed(files, live, h);
    } else {
      assert live - multiset{h} == live;
      if files[i].fs == 0 {
        OthersTell(files, live, i, AfterClose(files[i]), h, false);
      } else {
        var r, w := Handle(i + 1, ObjectOf(files[i]), false), Handle(i + 1, ObjectOf(files[i]), true);
        assert r in live || w in live;
        assert !EntryTells(f[i], i, live);
      }
    }
  }

  class ShareTable {
    const files: array<FileSem>
    ghost var live: multiset<Handle>   // opens not yet closed

    ghost predicate Valid()
      reads this, files
    {
      Faithful(files[..], live)
    }

    constructor ()
      ensures Valid() && live == multiset{} && fresh(files) && files.Length == 48
    {
      files := new FileSem[FF_FS_LOCK](i => FileSem(0, 0, 0, 0));
      live := multiset{};
    }

    /** The entry in use for the object, FF_FS_LOCK if there is none. */
    method Find(o: Object) returns (i: nat)
      requires files.Length == FF_FS_LOCK
      ensures i <= FF_FS_LOCK && (i < FF_FS_LOCK ==> InUse(files[i], o))
      ensures i == FF_FS_LOCK ==> NotListed(files[..], o)
    {
      i := 0;
      while i < FF_FS_LOCK && !InUse(files[i], o)
        invariant i <= FF_FS_LOCK && forall j :: 0 <= j < i ==> !InUse(files[j], o)
      {
        i := i + 1;
      }
    }

    /** A blank entry, FF_FS_LOCK if there is none. */
    method FindBlank() returns (i: nat)
      requires files.Length == FF_FS_LOCK
      ensures i <= FF_FS_LOCK && (i < FF_FS_LOCK ==> files[i].fs == 0)
      ensures i == FF_FS_LOCK <==> TableFull(files[..])
    {
      i := 0;
      while i < FF_FS_LOCK && files[i].fs != 0
        invariant i <= FF_FS_LOCK && forall j :: 0 <= j < i ==> files[j].fs != 0
      {
        i := i + 1;
      }
    }

    /** chk_share: acc is 0 for reading, 1 for writing, 2 for deleting or renaming. */
    method ChkShare(o: Object, acc: nat) returns (res: ShareResult)
      requires Valid() && o.fs != 0
      ensures res == CheckResult(files[..], live, o, acc)
    {
      var be, i := false, 0;
      while i < FF_FS_LOCK && !InUse(files[i], o)
        invariant i <= FF_FS_LOCK && forall j :: 0 <= j < i ==> !InUse(files[j], o)
        invariant be <==> exists j :: 0 <= j < i && files[j].fs == 0
      {
        if files[i].fs == 0 {
          be := true;
        }
        i := i + 1;
      }
      EntryOfOpen(files[..], live, o, i);
      if i == FF_FS_LOCK {
        return if !be && acc != 2 then FR_TOO_MANY_OPEN_FILES else FR_OK;
      }
      res := if acc != 0 || files[i].ctr == WRITING then FR_LOCKED else FR_OK;
    }

    /** Registering an object that has no entry. */
    method Register(o: Object, acc: nat) returns (lockid: nat)
      requires Valid() && o.fs != 0 && NotListed(files[..], o)
      modifies this`live, files
      ensures Valid() && (lockid == 0 <==> old(TableFull(files[..])))
      ensures live == if lockid == 0 then old(live) else old(live) + multiset{Handle(lockid, o, acc != 0)}
    {
      var i := FindBlank();
      if i == FF_FS_LOCK {
        return 0;
      }
      EntryAdded(files[..], live, i, o, acc != 0);
      files[i] := FileSem(o.fs, o.clu, o.ofs, Opened(0, acc));
      live := live + multiset{Handle(i + 1, o, acc != 0)};
      lockid := i + 1;
    }

    /**
     * inc_share: the number of the object's entry from 1 on, 0 if it must not or cannot be opened.
     * The table goes on to tell its handles exactly unless an object with a writer, or with 255
     * readers, gets one more reader.
     */
    method IncShare(o: Object, acc: nat) returns (lockid: nat)
      requires Valid() && o.fs != 0
      modifies this`live, files
      ensures Valid() <==> (acc == 0 ==> !IsWritten(old(live), o) && FewReaders(old(live), o))
      ensures lockid == 0 <==> if IsOpen(old(live), o) then acc >= 1 else old(TableFull(files[..]))
      ensures live == if lockid == 0 then old(live) else old(live) + multiset{Handle(lockid, o, acc != 0)}
      ensures lockid == 0 ==> files[..] == old(files[..])
      ensures lockid != 0 && IsOpen(old(live), o) ==>
                && lockid <= FF_FS_LOCK && old(InUse(files[lockid - 1], o))
                && files[..] == CountedUp(old(files[..]), lockid - 1)
    {
      var i := Find(o);
      EntryOfOpen(files[..], live, o, i);
      if i == FF_FS_LOCK {
        NoneOpen(live, o);
        lockid := Register(o, acc);
        return;
      }
      assert EntryTells(files[i], i, live);
      if acc >= 1 && files[i].ctr != 0 {
        return 0;
      }
      ReaderAddedExactly(files[..], live, i);
      ReadersOfOpen(files[..], live, i);
      files[i] := files[i].(ctr := Opened(files[i].ctr, acc));
      live := live + multiset{Handle(i + 1, o, false)};
      assert files[..] == CountedUp(old(files[..]), i);
      lockid := i + 1;
    }

    /**
     * An open as f_open does it: inc_share never fails after chk_share has passed.  Only a 256th
     * reader spoils the table.
     */
    method Open(o: Object, acc: nat) returns (res: ShareResult, lockid: nat)
      requires Valid() && o.fs != 0 && acc <= 1
      modifies this`live, files
      ensures Valid() <==> (res == FR_OK && acc == 0 ==> FewReaders(old(live), o))
      ensures res == old(CheckResult(files[..], live, o, acc))
      ensures lockid != 0 <==> res == FR_OK
      ensures live == if res == FR_OK then old(live) + multiset{Handle(lockid, o, acc != 0)} else old(live)
      ensures res == FR_OK && IsOpen(old(live), o) ==>
                && lockid <= FF_FS_LOCK && old(InUse(files[lockid - 1], o))
                && files[..] == CountedUp(old(files[..]), lockid - 1)
    {
      lockid := 0;
      res := ChkShare(o, acc);
      if res == FR_OK {
        if !IsOpen(live, o) {
          NoneOpen(live, o);
        }
        lockid := IncShare(o, acc);
      }
    }

    /**
     * dec_share of the handle h.  The table goes on to tell its handles exactly if h was one, or
     * the entry was blank.
     */
    method DecShare(lockid: nat, ghost h: Handle) returns (res: ShareResult)
      requires files.Length == FF_FS_LOCK && h.lockid == lockid
      modifies this`live, files
      ensures res == if 0 < lockid <= FF_FS_LOCK then FR_OK else FR_INT_ERR
      ensures res == FR_OK ==> files[..] == old(files[..])[lockid - 1 := AfterClose(old(files[lockid - 1]))]
      ensures res != FR_OK ==> files[..] == old(files[..])
      ensures live == if res == FR_OK then old(live) - multiset{h} else old(live)
      ensures old(Valid()) ==> (Valid() <==> res != FR_OK || h in old(live) || old(files[lockid - 1].fs) == 0)
    {
      if lockid == 0 || lockid > FF_FS_LOCK {
        return FR_INT_ERR;
      }
      if Valid() {
        ClosedExactly(files[..], live, h);
      }
      files[lockid - 1] := AfterClose(files[lockid - 1]);
      live := live - multiset{h};
      res := FR_OK;
      assert files[..] == old(files[..])[lockid - 1 := AfterClose(old(files[lockid - 1]))];
    }
  }

  /** 256 opens of one object for reading, and one close: the entry is blank, and 255 handles are still open. */
  method TooManyReaders(o: Object) returns (t: ShareTable, lockid: nat)
    requires o.fs != 0
    ensures fresh(t) && fresh(t.files) && 0 < lockid <= FF_FS_LOCK == t.files.Length
    ensures t.files[lockid - 1].fs == 0 && t.live[Handle(lockid, o, false)] == 255
  {
    t := new ShareTable();
    var res;
    NothingYet(t, o);
    res, lockid := t.Open(o, 0);
    ghost var h := Handle(lockid, o, false);
    var k := 1;
    while k < 256
      invariant fresh(t) && fresh(t.files) && 0 < lockid <= FF_FS_LOCK == t.files.Length
      invariant 1 <= k <= 256 && OnlyReaders(t.live, h, k)
      invariant k < 256 ==> t.Valid()
      invariant k == 256 ==> t.files[lockid - 1].ctr == WRITING
    {
      OneObject(t.files[..], t.live, h, k);
      var l;
      res, l := t.Open(o, 0);
      k := k + 1;
    }
    res := t.DecShare(lockid, h);
  }

  /** There are k handles, all of them h. */
  ghost predicate OnlyReaders(live: multiset<Handle>, h: Handle, k: nat) {
    forall x :: live[x] == if x == h then k else 0
  }

  lemma {:induction false} NothingYet(t: ShareTable, o: Object)
    requires t.Valid() && t.live == multiset{} && o.fs != 0
    ensures !IsOpen(t.live, o) && FewReaders(t.live, o) && !TableFull(t.files[..])
  {
    assert EntryTells(t.files[0], 0, t.live);
  }

  /** All readers of an object have its one entry, whose count is their number. */
  lemma {:induction false} OneObject(files: seq<FileSem>, live: multiset<Handle>, h: Handle, k: nat)
    requires Faithful(files, live) && OnlyReaders(live, h, k) && k > 0 && !h.write
    ensures 0 < h.lockid <= FF_FS_LOCK && IsOpen(live, h.obj) && !IsWritten(live, h.obj) && files[h.lockid - 1].ctr == k
    ensures FewReaders(live, h.obj) <==> k < 255
    ensures forall j: nat :: j < FF_FS_LOCK && InUse(files[j], h.obj) ==> j + 1 == h.lockid
  {
    assert h in live;
    var i := h.lockid - 1;
    assert EntryTells(files[i], i, live);
    forall j: nat | j < FF_FS_LOCK && InUse(files[j], h.obj)
      ensures j == i
    {
      assert Differ(files, i, j);
    }
    assert live[Handle(h.lockid, h.obj, false)] == k;
  }

  /** An object that is not open has no readers. */
  lemma {:induction false} NoneOpen(live: multiset<Handle>, o: Object)
    requires !IsOpen(live, o)
    ensures !IsWritten(live, o) && FewReaders(live, o)
  {
    forall i: nat
      ensures live[Handle(i, o, false)] == 0
    {
      assert !(Handle(i, o, false) in live);
    }
  }

  ghost predicate TableFull(files: seq<FileSem>) {
    forall j :: 0 <= j < |files| ==> files[j].fs != 0
  }

  /** Fewer than 255 handles read the object, so one more keeps the count below the writer's mark. */
  ghost predicate FewReaders(live: multiset<Handle>, o: Object) {
    forall i: nat :: live[Handle(i, o, false)] < WRITING - 1
  }

  /** Many readers or one writer, and no delete of an open object. */
  ghost function CheckResult(files: seq<FileSem>, live: multiset<Handle>, o: Object, acc: nat): ShareResult {
    if IsOpen(live, o) then (if acc != 0 || IsWritten(live, o) then FR_LOCKED else FR_OK)
    else if acc != 2 && TableFull(files) then FR_TOO_MANY_OPEN_FILES
    else FR_OK
  }

  /** In every reachable table a written object has exactly one handle. */
  lemma {:induction false} WriterIsAlone(files: seq<FileSem>, live: multiset<Handle>, h: Handle, x: Handle)
    requires Faithful(files, live) && h in live && x in live && h.write && x.obj == h.obj
    ensures x == h && live[h] == 1 && files[h.lockid - 1].ctr == WRITING
  {
    assert EntryTells(files[h.lockid - 1], h.lockid - 1, live);
    assert EntryTells(files[x.lockid - 1], x.lockid - 1, live);
    assert Differ(files, h.lockid - 1, x.lockid - 1);
  }

  /** ... and the count of an object that is read is the number of its handles. */
  lemma {:induction false} CountIsReaders(files: seq<FileSem>, live: multiset<Handle>, h: Handle)
    requires Faithful(files, live) && h in live && !h.write
    ensures files[h.lockid - 1].ctr == live[h] < WRITING
    ensures forall x :: x in live && x.obj == h.obj ==> x == h
  {
    assert EntryTells(files[h.lockid - 1], h.lockid - 1, live);
    forall x | x in live && x.obj == h.obj
      ensures x == h
    {
      assert EntryTells(files[x.lockid - 1], x.lockid - 1, live);
      assert Differ(files, h.lockid - 1, x.lockid - 1);
    }
  }
}
