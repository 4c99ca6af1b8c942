/** The frame table of the root server: two doubly linked lists threaded through its entries. */
module FrameTable {
  import opened Untypeds

  datatype Option<T> = None | Some(value: T)

  datatype ListID = NoList | FreeList | AllocatedList

  datatype Frame = Frame(cap: nat, prev: Option<nat>, next: Option<nat>, listId: ListID)

  /** FrameList */
  datatype Ends = Ends(first: Option<nat>, last: Option<nat>, length: nat)

  const FRAMES_PER_PAGE: nat := 128

  function PrevIn(s: seq<nat>, i: nat): Option<nat>
    requires i < |s|
  {
    if i == 0 then None else Some(s[i - 1])
  }

  function NextIn(s: seq<nat>, i: nat): Option<nat>
    requires i < |s|
  {
    if i + 1 == |s| then None else Some(s[i + 1])
  }

  /** The i-th frame of the list s is linked to its neighbours: prev is the inverse of next. */
  ghost predicate Linked(f: seq<Frame>, id: ListID, s: seq<nat>, i: nat)
    requires i < |s|
  {
    s[i] < |f| && f[s[i]].listId == id && f[s[i]].prev == PrevIn(s, i) && f[s[i]].next == NextIn(s, i)
  }

  ghost predicate NoTwice(s: seq<nat>) {
    forall i: nat, j: nat :: i < |s| && j < |s| ==> Differ(s, i, j)
  }

  /** The list with the ends l consists of the frames s. */
  ghost predicate IsList(f: seq<Frame>, l: Ends, id: ListID, s: seq<nat>) {
    && l == EndsOf(s) && NoTwice(s)
    && forall i: nat :: i < |s| ==> Linked(f, id, s, i)
  }

  function EndsOf(s: seq<nat>): Ends {
    if s == [] then Ends(None, None, 0) else Ends(Some(s[0]), Some(s[|s| - 1]), |s|)
  }

  /** Frames of other lists, and loose ones, do not matter to a list. */
  lemma {:induction false} ListFrame(f: seq<Frame>, e: seq<Frame>, l: Ends, id: ListID, s: seq<nat>)
    requires IsList(f, l, id, s) && |f| <= |e|
    requires forall x :: 0 <= x < |f| && f[x].listId == id ==> e[x] == f[x]
    ensures IsList(e, l, id, s)
  {
    forall i: nat | i < |s|
      ensures Linked(e, id, s, i)
    {
      assert Linked(f, id, s, i);
    }
  }

  function Loose(a: Frame): Frame { a.(prev := None, next := None, listId := NoList) }

  /** Frame x taken out of its list: its neighbours are linked to each other. */
  function Unlinked(f: seq<Frame>, x: nat): (e: seq<Frame>)
    requires x < |f|
    requires f[x].prev.Some? ==> f[x].prev.value < |f|
    requires f[x].next.Some? ==> f[x].next.value < |f|
    ensures |e| == |f| && KeepCaps(f, e, |f|)
  {
    var p, n := f[x].prev, f[x].next;
    var g := if p.Some? then f[p.value := f[p.value].(next := n)] else f;
    var h := if n.Some? then g[n.value := g[n.value].(prev := p)] else g;
    h[x := Loose(h[x])]
  }

  function Without(s: seq<nat>, k: nat): seq<nat>
    requires k < |s|
  {
    s[..k] + s[k + 1..]
  }

  lemma {:induction false} UnlinkedList(f: seq<Frame>, l: Ends, id: ListID, s: seq<nat>, k: nat)
    requires IsList(f, l, id, s) && k < |s| && id != NoList
    ensures Linked(f, id, s, k) && (k > 0 ==> s[k - 1] < |f|) && (k + 1 < |s| ==> s[k + 1] < |f|)
    ensures IsList(Unlinked(f, s[k]), EndsOf(Without(s, k)), id, Without(s, k))
    ensures Unlinked(f, s[k])[s[k]] == Loose(f[s[k]])
    ensures forall x :: 0 <= x < |f| && f[x].listId != id ==> Unlinked(f, s[k])[x] == f[x]
  {
    assert Linked(f, id, s, k);
    assert k > 0 ==> Linked(f, id, s, k - 1) && Differ(s, k - 1, k);
    assert k + 1 < |s| ==> Linked(f, id, s, k + 1) && Differ(s, k + 1, k);
    assert 0 < k < |s| - 1 ==> Differ(s, k - 1, k + 1);
    var e, t := Unlinked(f, s[k]), Without(s, k);
    forall i: nat | i < |t|
      ensures Linked(e, id, t, i)
    {
      UnlinkedNode(f, id, s, k, if i < k then i else i + 1);
    }
    forall i: nat, j: nat | i < |t| && j < |t|
      ensures Differ(t, i, j)
    {
      assert Differ(s, if i < k then i else i + 1, if j < k then j else j + 1);
    }
  }

  /** Entry i of the list, other than the k-th, once that is gone. */
  lemma {:induction false} UnlinkedNode(f: seq<Frame>, id: ListID, s: seq<nat>, k: nat, i: nat)
    requires NoTwice(s) && k < |s| && i < |s| && i != k
    requires forall j: nat :: j < |s| ==> Linked(f, id, s, j)
    ensures Linked(f, id, s, k) && (k > 0 ==> s[k - 1] < |f|) && (k + 1 < |s| ==> s[k + 1] < |f|)
    ensures Linked(Unlinked(f, s[k]), id, Without(s, k), if i < k then i else i - 1)
  {
    assert Linked(f, id, s, k) && Linked(f, id, s, i) && Differ(s, i, k);
    assert k > 0 ==> Linked(f, id, s, k - 1) && Differ(s, i, k - 1);
    assert k + 1 < |s| ==> Linked(f, id, s, k + 1) && Differ(s, i, k + 1);
    var t := Without(s, k);
    assert forall j :: 0 <= j < k ==> t[j] == s[j];
    assert forall j :: k <= j < |t| ==> t[j] == s[j + 1];
  }

  /** The loose frame x at the front of the list that starts with `first`. */
  function PushedFront(f: seq<Frame>, first: Option<nat>, id: ListID, x: nat): (e: seq<Frame>)
    requires x < |f| && (first.Some? ==> first.value < |f|)
    ensures |e| == |f| && KeepCaps(f, e, |f|)
  {
    var g := f[x := f[x].(next := first)];
    var h := if first.Some? then g[first.value := g[first.value].(prev := Some(x))] else g;
    h[x := h[x].(listId := id)]
  }

  /** The loose frame x at the end of the list that ends with `last`. */
  function PushedBack(f: seq<Frame>, last: nat, id: ListID, x: nat): (e: seq<Frame>)
    requires x < |f| && last < |f|
    ensures |e| == |f| && KeepCaps(f, e, |f|)
  {
    var g := f[last := f[last].(next := Some(x))];
    g[x := g[x].(prev := Some(last), listId := id)]
  }

  lemma {:induction false} FrontList(f: seq<Frame>, l: Ends, id: ListID, s: seq<nat>, x: nat)
    requires IsList(f, l, id, s) && id != NoList && x < |f| && f[x] == Loose(f[x])
    ensures l.first.Some? ==> l.first.value < |f|
    ensures IsList(PushedFront(f, l.first, id, x), EndsOf([x] + s), id, [x] + s)
    ensures forall y :: 0 <= y < |f| && y != x && f[y].listId != id ==> PushedFront(f, l.first, id, x)[y] == f[y]
  {
    assert s != [] ==> Linked(f, id, s, 0);
    var e, t := PushedFront(f, l.first, id, x), [x] + s;
    forall i: nat | i < |t|
      ensures Linked(e, id, t, i)
    {
      if i > 0 {
        assert Linked(f, id, s, i - 1);
        assert i > 1 ==> Differ(s, 0, i - 1);
      }
    }
    NewFirst(f, id, s, x);
  }

  lemma {:induction false} NewFirst(f: seq<Frame>, id: ListID, s: seq<nat>, x: nat)
    requires NoTwice(s) && id != NoList && x < |f| && f[x].listId == NoList
    requires forall i: nat :: i < |s| ==> Linked(f, id, s, i)
    ensures NoTwice([x] + s) && NoTwice(s + [x])
  {
    forall i: nat, j: nat | i < |s| + 1 && j < |s| + 1
      ensures Differ([x] + s, i, j) && Differ(s + [x], i, j)
    {
      assert i > 0 ==> Linked(f, id, s, i - 1);
      assert j > 0 ==> Linked(f, id, s, j - 1);
      assert i < |s| ==> Linked(f, id, s, i);
      assert j < |s| ==> Linked(f, id, s, j);
      assert i > 0 && j > 0 ==> Differ(s, i - 1, j - 1);
      assert i < |s| && j < |s| ==> Differ(s, i, j);
    }
  }

  lemma {:induction false} BackList(f: seq<Frame>, l: Ends, id: ListID, s: seq<nat>, x: nat)
    requires IsList(f, l, id, s) && s != [] && id != NoList && x < |f| && f[x] == Loose(f[x])
    ensures l.last.Some? && l.last.value < |f|
    ensures IsList(PushedBack(f, l.last.value, id, x), EndsOf(s + [x]), id, s + [x])
    ensures forall y :: 0 <= y < |f| && y != x && f[y].listId != id ==> PushedBack(f, l.last.value, id, x)[y] == f[y]
  {
    var n := |s| - 1;
    assert Linked(f, id, s, n);
    var e, t := PushedBack(f, s[n], id, x), s + [x];
    forall i: nat | i < |t|
      ensures Linked(e, id, t, i)
    {
      if i <= n {
        assert Linked(f, id, s, i);
        assert Differ(s, i, n);
      }
    }
    NewFirst(f, id, s, x);
  }

  // The table -----------------------------------------------------------------------------------

  /** Every frame below `used` is free, allocated or the loose one. */
  ghost predicate Placed(f: seq<Frame>, x: nat, frees: seq<nat>, allocs: seq<nat>, loose: Option<nat>)
    requires x < |f|
  {
    match f[x].listId
    case FreeList => x in frees
    case AllocatedList => x in allocs
    case NoList => loose == Some(x) && f[x] == Loose(f[x])
  }

  /** The two lists partition the frames in use, but for the loose one. */
  ghost predicate Partitioned(f: seq<Frame>, used: nat, frees: seq<nat>, allocs: seq<nat>, loose: Option<nat>) {
    && used <= |f|
    && (forall x: nat :: x < used ==> Placed(f, x, frees, allocs, loose))
    && (forall x: nat :: x in frees ==> x < used) && (forall x: nat :: x in allocs ==> x < used)
    && (loose.Some? ==> loose.value < used && f[loose.value] == Loose(f[loose.value]))
  }

  function Freed(id: ListID, was: seq<nat>, s: seq<nat>): seq<nat> { if id == FreeList then s else was }

  function Taken(id: ListID, was: seq<nat>, s: seq<nat>): seq<nat> { if id == AllocatedList then s else was }

  lemma {:induction false} WithoutHas(s: seq<nat>, k: nat, y: nat)
    requires k < |s| && NoTwice(s)
    ensures y in Without(s, k) <==> y in s && y != s[k]
  {
    if y in s && y != s[k] {
      var j :| 0 <= j < |s| && s[j] == y;
      assert Without(s, k)[if j < k then j else j - 1] == y;
    }
    if y in Without(s, k) {
      var j :| 0 <= j < |s| - 1 && Without(s, k)[j] == y;
      assert Differ(s, if j < k then j else j + 1, k);
    }
  }

  /** A frame taken out of its list is the loose one. */
  lemma {:induction false} UnlinkedPlaces(f: seq<Frame>, used: nat, frees: seq<nat>, allocs: seq<nat>, id: ListID, l: Ends, k: nat)
    requires Partitioned(f, used, frees, allocs, None) && id != NoList
    requires var s := if id == FreeList then frees else allocs; IsList(f, l, id, s) && k < |s|
    ensures var s := if id == FreeList then frees else allocs;
            && Linked(f, id, s, k) && (k > 0 ==> s[k - 1] < |f|) && (k + 1 < |s| ==> s[k + 1] < |f|)
            && Partitioned(Unlinked(f, s[k]), used, Freed(id, frees, Without(s, k)), Taken(id, allocs, Without(s, k)), Some(s[k]))
  {
    var s := if id == FreeList then frees else allocs;
    UnlinkedList(f, l, id, s, k);
    assert s[k] in s;
    var e := Unlinked(f, s[k]);
    forall y: nat | y < used
      ensures Placed(e, y, Freed(id, frees, Without(s, k)), Taken(id, allocs, Without(s, k)), Some(s[k]))
    {
      assert Placed(f, y, frees, allocs, None);
      WithoutHas(s, k, y);
    }
    forall y: nat | y in Without(s, k)
      ensures y < used
    {
      WithoutHas(s, k, y);
    }
  }

  /** The ends of the list without its k-th frame x, as remove_frame sets them. */
  lemma {:induction false} EndsWithout(f: seq<Frame>, l: Ends, id: ListID, s: seq<nat>, k: nat)
    requires IsList(f, l, id, s) && k < |s|
    ensures Linked(f, id, s, k)
    ensures EndsOf(Without(s, k)) == Ends(if f[s[k]].prev == None then f[s[k]].next else l.first,
                                          if f[s[k]].next == None then f[s[k]].prev else l.last, l.length - 1)
    ensures k == 0 ==> (l.last == l.first <==> f[s[k]].next == None)
    ensures f[s[k]].next.Some? ==> f[s[k]].next.value < |f| && f[s[k]].next.value != s[k]
  {
    assert Linked(f, id, s, k) && Differ(s, 0, |s| - 1);
    assert k + 1 < |s| ==> Linked(f, id, s, k + 1) && Differ(s, k, k + 1);
  }

  /** The loose frame put into a list. */
  lemma {:induction false} JoinedPlaces(f: seq<Frame>, e: seq<Frame>, used: nat, frees: seq<nat>, allocs: seq<nat>,
                                        id: ListID, t: seq<nat>, x: nat)
    requires Partitioned(f, used, frees, allocs, Some(x)) && id != NoList && |e| == |f|
    requires var s := if id == FreeList then frees else allocs; t == [x] + s || t == s + [x]
    requires e[x].listId == id && forall y :: 0 <= y < |f| && y != x ==> e[y].listId == f[y].listId
    ensures Partitioned(e, used, Freed(id, frees, t), Taken(id, allocs, t), None)
  {
    forall y: nat | y < used
      ensures Placed(e, y, Freed(id, frees, t), Taken(id, allocs, t), None)
    {
      assert Placed(f, y, frees, allocs, Some(x));
    }
  }

  /** The same page capabilities in the first n entries. */
  ghost predicate KeepCaps(f: seq<Frame>, e: seq<Frame>, n: nat) {
    n <= |f| && n <= |e| && forall x :: 0 <= x < n ==> e[x].cap == f[x].cap
  }

  ghost predicate CapApart(f: seq<Frame>, x: nat, y: nat)
    requires x < |f| && y < |f|
  {
    x != y ==> f[x].cap != f[y].cap
  }

  /** The frames in use hold capabilities in slots taken, each its own. */
  ghost predicate CapsOk(f: seq<Frame>, used: nat, slots: set<nat>) {
    && used <= |f| && (forall x :: 0 <= x < used ==> f[x].cap in slots)
    && forall x: nat, y: nat :: x < used && y < used ==> CapApart(f, x, y)
  }

  lemma {:induction false} CapsKept(f: seq<Frame>, used: nat, slots: set<nat>, e: seq<Frame>, slots': set<nat>)
    requires KeepCaps(f, e, used) && slots <= slots' && CapsOk(f, used, slots)
    ensures CapsOk(e, used, slots')
  {
    forall x: nat, y: nat | x < used && y < used
      ensures CapApart(e, x, y)
    {
      assert CapApart(f, x, y);
    }
  }

  lemma {:induction false} CapsGrown(f: seq<Frame>, used: nat, slots: set<nat>, e: seq<Frame>, slots': set<nat>)
    requires KeepCaps(f, e, used) && slots <= slots' && used < |e| && e[used].cap in slots' && e[used].cap !in slots
    requires CapsOk(f, used, slots)
    ensures CapsOk(e, used + 1, slots')
  {
    forall x: nat, y: nat | x < used + 1 && y < used + 1
      ensures CapApart(e, x, y)
    {
      assert x < used && y < used ==> CapApart(f, x, y);
    }
  }

  class Table {
    var frames: seq<Frame>   // mapped entries, as many as the capacity
    var used: nat
    var byteLength: nat
    var freeEnds: Ends    // free
    var allocEnds: Ends   // allocated
    ghost var freeRefs: seq<nat>
    ghost var allocRefs: seq<nat>

    ghost predicate ValidBut(loose: Option<nat>)
      reads this
    {
      && IsList(frames, freeEnds, FreeList, freeRefs) && IsList(frames, allocEnds, AllocatedList, allocRefs)
      && Partitioned(frames, used, freeRefs, allocRefs, loose)
      && byteLength % Untypeds.PAGE_SIZE == 0 && |frames| == byteLength / 32
    }

    ghost predicate Valid()
      reads this
    {
      ValidBut(None)
    }

    /** init */
    constructor ()
      ensures Valid() && used == 0 && freeRefs == allocRefs == []
    {
      frames, used, byteLength := [], 0, 0;
      freeEnds, allocEnds := Ends(None, None, 0), Ends(None, None, 0);
      freeRefs, allocRefs := [], [];
    }

    ghost function Refs(id: ListID): seq<nat>
      reads this`freeRefs, this`allocRefs
    {
      if id == FreeList then freeRefs else allocRefs
    }

    function EndsFor(id: ListID): Ends
      reads this`freeEnds, this`allocEnds
    {
      if id == FreeList then freeEnds else allocEnds
    }

    /** The list copied back into the table. */
    method SetList(id: ListID, l: Ends, ghost s: seq<nat>)
      requires id != NoList
      modifies this`freeEnds, this`allocEnds, this`freeRefs, this`allocRefs
      ensures freeEnds == if id == FreeList then l else old(freeEnds)
      ensures allocEnds == if id == AllocatedList then l else old(allocEnds)
      ensures freeRefs == Freed(id, old(freeRefs), s) && allocRefs == Taken(id, old(allocRefs), s)
    {
      if id == FreeList {
        freeEnds, freeRefs := l, s;
      } else {
        allocEnds, allocRefs := l, s;
      }
    }

    /** The first frame of a list is unlinked from the second, if there is one. */
    method DetachHead(head: nat)
      requires head < |frames| && frames[head].prev == None
      requires frames[head].next.Some? ==> frames[head].next.value < |frames| && frames[head].next.value != head
      modifies this`frames
      ensures frames == Unlinked(old(frames), head)
    {
      if frames[head].next.Some? {
        var next := frames[head].next.value;
        frames := frames[next := frames[next].(prev := None)];
      }
      frames := frames[head := Loose(frames[head])];
    }

    /** pop_front */
    method PopFront(id: ListID) returns (x: Option<nat>)
      requires Valid() && id != NoList
      modifies this`frames, this`freeEnds, this`allocEnds, this`freeRefs, this`allocRefs
      ensures ValidBut(x) && (x == None <==> old(Refs(id)) == [])
      ensures |frames| == |old(frames)| && KeepCaps(old(frames), frames, |frames|)
      ensures if x.Some? then x.value == old(Refs(id))[0] && Refs(id) == old(Refs(id))[1..] else Refs(id) == old(Refs(id))
      ensures freeRefs == Freed(id, old(freeRefs), Refs(id)) && allocRefs == Taken(id, old(allocRefs), Refs(id))
    {
      var l := EndsFor(id);
      if l.first == None {
        return None;
      }
      var head := l.first.value;
      ghost var f, s := frames, Refs(id);
      UnlinkedPlaces(f, used, freeRefs, allocRefs, id, l, 0);
      UnlinkedList(f, l, id, s, 0);
      EndsWithout(f, l, id, s, 0);
      OtherList(f, Unlinked(f, head), id);
      if l.last == l.first {
        l := l.(last := None);
      }
      l := l.(first := frames[head].next, length := l.length - 1);
      DetachHead(head);
      assert frames == Unlinked(f, head) && Without(s, 0) == s[1..] && l == EndsOf(s[1..]);
      SetList(id, l, s[1..]);
      x := Some(head);
    }

    /** The list not meant by id. */
    lemma {:induction false} OtherList(f: seq<Frame>, e: seq<Frame>, id: ListID)
      requires id != NoList && f == frames && |e| == |f|
      requires IsList(f, freeEnds, FreeList, freeRefs) && IsList(f, allocEnds, AllocatedList, allocRefs)
      requires forall x :: 0 <= x < |f| && f[x].listId != id && f[x].listId != NoList ==> e[x] == f[x]
      ensures id == FreeList ==> IsList(e, allocEnds, AllocatedList, allocRefs)
      ensures id == AllocatedList ==> IsList(e, freeEnds, FreeList, freeRefs)
    {
      if id == FreeList {
        ListFrame(f, e, allocEnds, AllocatedList, allocRefs);
      } else {
        ListFrame(f, e, freeEnds, FreeList, freeRefs);
      }
    }

    /** push_front */
    method PushFront(id: ListID, x: nat)
      requires ValidBut(Some(x)) && id != NoList
      modifies this`frames, this`freeEnds, this`allocEnds, this`freeRefs, this`allocRefs
      ensures Valid() && Refs(id) == [x] + old(Refs(id))
      ensures |frames| == |old(frames)| && KeepCaps(old(frames), frames, |frames|)
      ensures freeRefs == Freed(id, old(freeRefs), Refs(id)) && allocRefs == Taken(id, old(allocRefs), Refs(id))
    {
      var l := EndsFor(id);
      ghost var f, s := frames, Refs(id);
      FrontList(f, l, id, s, x);
      ghost var e := PushedFront(f, l.first, id, x);
      OtherList(f, e, id);
      JoinedPlaces(f, e, used, freeRefs, allocRefs, id, [x] + s, x);
      if l.last == None {
        l := l.(last := Some(x));
      }
      frames := frames[x := frames[x].(next := l.first)];
      if frames[x].next.Some? {
        var next := frames[x].next.value;
        frames := frames[next := frames[next].(prev := Some(x))];
      }
      l := l.(first := Some(x), length := l.length + 1);
      frames := frames[x := frames[x].(listId := id)];
      assert frames == e && l == EndsOf([x] + s);
      SetList(id, l, [x] + s);
    }

    /** push_back */
    method PushBack(id: ListID, x: nat)
      requires ValidBut(Some(x)) && id != NoList
      modifies this`frames, this`freeEnds, this`allocEnds, this`freeRefs, this`allocRefs
      ensures Valid() && Refs(id) == old(Refs(id)) + [x]
      ensures |frames| == |old(frames)| && KeepCaps(old(frames), frames, |frames|)
      ensures freeRefs == Freed(id, old(freeRefs), Refs(id)) && allocRefs == Taken(id, old(allocRefs), Refs(id))
    {
      var l := EndsFor(id);
      ghost var f, s := frames, Refs(id);
      if l.last == None {
        assert [x] + s == s + [x];
        PushFront(id, x);
        return;
      }
      BackList(f, l, id, s, x);
      var last := l.last.value;
      ghost var e := PushedBack(f, last, id, x);
      OtherList(f, e, id);
      JoinedPlaces(f, e, used, freeRefs, allocRefs, id, s + [x], x);
      frames := frames[last := frames[last].(next := Some(x))];
      frames := frames[x := frames[x].(prev := l.last, listId := id)];
      l := l.(last := Some(x), length := l.length + 1);
      assert frames == e && l == EndsOf(s + [x]);
      SetList(id, l, s + [x]);
    }

    /** remove_frame: x may be anywhere in its list. */
    method Remove(id: ListID, x: nat, ghost k: nat)
      requires Valid() && id != NoList && k < |Refs(id)| && Refs(id)[k] == x
      modifies this`frames, this`freeEnds, this`allocEnds, this`freeRefs, this`allocRefs
      ensures ValidBut(Some(x)) && Refs(id) == Without(old(Refs(id)), k)
      ensures |frames| == |old(frames)| && KeepCaps(old(frames), frames, |frames|)
      ensures freeRefs == Freed(id, old(freeRefs), Refs(id)) && allocRefs == Taken(id, old(allocRefs), Refs(id))
    {
      var l := EndsFor(id);
      ghost var f, s := frames, Refs(id);
      UnlinkedPlaces(f, used, freeRefs, allocRefs, id, l, k);
      UnlinkedList(f, l, id, s, k);
      EndsWithout(f, l, id, s, k);
      OtherList(f, Unlinked(f, x), id);
      if frames[x].prev == None {
        l := l.(first := frames[x].next);
      } else {
        var p := frames[x].prev.value;
        frames := frames[p := frames[p].(next := frames[x].next)];
      }
      if frames[x].next == None {
        l := l.(last := frames[x].prev);
      } else {
        var n := frames[x].next.value;
        frames := frames[n := frames[n].(prev := frames[x].prev)];
      }
      l := l.(length := l.length - 1);
      frames := frames[x := Loose(frames[x])];
      assert frames == Unlinked(f, x) && l == EndsOf(Without(s, k));
      SetList(id, l, Without(s, k));
    }

    /** bump_capacity: a page of further entries. */
    method BumpCapacity(ut: UTTable, k: Kernel) returns (ok: bool, ghost slots: nat)
      requires Valid() && ut.Ok() && k.Valid()
      modifies this`frames, this`byteLength, ut, k
      ensures Valid() && ut.Ok() && k.Valid() && old(frames) <= frames
      ensures if ok then |frames| == |old(frames)| + FRAMES_PER_PAGE else frames == old(frames)
      ensures byteLength == old(byteLength) + if ok then PAGE_SIZE else 0
      ensures var m := FrameOutcome(k.outcome, old(k.served), |old(ut.lists[PAGES])|);
              && ok == m.ok && ut.taken == old(ut.taken) + m.pages && slots == m.slots + (if ok then 1 else 0)
              && k.served == m.next && (ok ==> |ut.lists[PAGES]| + 1 + m.pages == |old(ut.lists[PAGES])|)
      ensures UsedUp(old(ut.Img()), old(ut.taken), old(k.used), ut.Img(), ut.taken, k.used, if ok then 1 else 0, slots)
    {
      slots := FrameOutcome(k.outcome, k.served, |ut.lists[PAGES]|).slots;
      var cap;
      ok, cap := AllocFrameAt(ut, k);
      slots := slots + if ok then 1 else 0;
      if ok {
        Widen();
      }
    }

    method Widen()
      requires Valid()
      modifies this`frames, this`byteLength
      ensures Valid() && old(frames) <= frames && |frames| == |old(frames)| + FRAMES_PER_PAGE
      ensures byteLength == old(byteLength) + PAGE_SIZE
    {
      ghost var f := frames;
      frames := frames + seq(FRAMES_PER_PAGE, _ => Frame(0, None, None, NoList));
      byteLength := byteLength + PAGE_SIZE;
      MoreEntries(f, frames);
    }

    /** New entries above `used` do not matter. */
    lemma {:induction false} MoreEntries(f: seq<Frame>, e: seq<Frame>)
      requires f <= e && IsList(f, freeEnds, FreeList, freeRefs) && IsList(f, allocEnds, AllocatedList, allocRefs)
      requires Partitioned(f, used, freeRefs, allocRefs, None)
      ensures IsList(e, freeEnds, FreeList, freeRefs) && IsList(e, allocEnds, AllocatedList, allocRefs)
      ensures Partitioned(e, used, freeRefs, allocRefs, None)
    {
      ListFrame(f, e, freeEnds, FreeList, freeRefs);
      ListFrame(f, e, allocEnds, AllocatedList, allocRefs);
      forall x: nat | x < used
        ensures Placed(e, x, freeRefs, allocRefs, None)
      {
        assert Placed(f, x, freeRefs, allocRefs, None);
      }
    }

    /** alloc_fresh_frame: the first entry never used so far; a failure restores `used` and both lists. */
    method AllocFreshFrame(ut: UTTable, k: Kernel) returns (x: Option<nat>, ghost pages: nat, ghost slots: nat)
      requires Valid() && ut.Ok() && k.Valid()
      modifies this`frames, this`byteLength, this`used, ut, k
      ensures ut.Ok() && k.Valid() && ValidBut(x)
      ensures UsedUp(old(ut.Img()), old(ut.taken), old(k.used), ut.Img(), ut.taken, k.used, pages, slots)
      ensures byteLength + (if x.Some? then PAGE_SIZE else 0) == old(byteLength) + PageBytes(pages)
      ensures x == None ==> used == old(used) && old(frames) <= frames
      ensures x.Some? ==> x.value == old(used) && used == old(used) + 1
      ensures KeepCaps(old(frames), frames, old(used))
      ensures x.Some? ==> frames[x.value].cap in k.used && frames[x.value].cap !in old(k.used)
      ensures x.Some? <==> FreshOutcome(k.outcome, old(k.served), |old(ut.lists[PAGES])|, old(used) < |old(frames)|)
    {
      ghost var h, t, v := ut.Img(), ut.taken, k.used;
      x := None;
      var ok;
      ok, pages, slots := MakeRoom(ut, k);
      if ok {
        ghost var m, t1, v1 := ut.Img(), ut.taken, k.used;
        ghost var more: nat;
        x, more := FreshEntry(ut, k);
        UsedMore(h, t, v, m, t1, v1, pages, slots, ut.Img(), ut.taken, k.used, if x.Some? then 1 else 0, more);
        pages, slots := pages + (if x.Some? then 1 else 0), slots + more;
      }
    }

    /** Room for one more frame. */
    method MakeRoom(ut: UTTable, k: Kernel) returns (ok: bool, ghost pages: nat, ghost slots: nat)
      requires Valid() && ut.Ok() && k.Valid()
      modifies this`frames, this`byteLength, ut, k
      ensures Valid() && ut.Ok() && k.Valid() && old(frames) <= frames && (ok ==> used < |frames|)
      ensures ok == RoomOutcome(k.outcome, old(k.served), |old(ut.lists[PAGES])|, used < |old(frames)|).ok
      ensures ok ==> var m := RoomOutcome(k.outcome, old(k.served), |old(ut.lists[PAGES])|, used < |old(frames)|);
                     k.served == m.next && |ut.lists[PAGES]| + m.pages == |old(ut.lists[PAGES])|
      ensures UsedUp(old(ut.Img()), old(ut.taken), old(k.used), ut.Img(), ut.taken, k.used, pages, slots)
      ensures byteLength == old(byteLength) + PageBytes(pages)
    {
      ok, pages, slots := true, 0, 0;
      if used == |frames| {
        ok, slots := BumpCapacity(ut, k);
        pages := if ok then 1 else 0;
      }
    }

    /** The frame at `used`, if it gets memory. */
    method FreshEntry(ut: UTTable, k: Kernel) returns (x: Option<nat>, ghost slots: nat)
      requires Valid() && ut.Ok() && k.Valid() && used < |frames|
      modifies this`frames, this`used, ut, k
      ensures ut.Ok() && k.Valid() && ValidBut(x) && |frames| == |old(frames)|
      ensures UsedUp(old(ut.Img()), old(ut.taken), old(k.used), ut.Img(), ut.taken, k.used, if x.Some? then 1 else 0, slots)
      ensures x == None ==> used == old(used) && old(frames) == frames
      ensures x.Some? ==> x.value == old(used) && used == old(used) + 1
      ensures KeepCaps(old(frames), frames, old(used))
      ensures x.Some? ==> frames[x.value].cap in k.used && frames[x.value].cap !in old(k.used)
      ensures x.Some? <==> FrameOutcome(k.outcome, old(k.served), |old(ut.lists[PAGES])|).ok
    {
      slots := FrameOutcome(k.outcome, k.served, |ut.lists[PAGES]|).slots;
      var ok, cap := AllocFrameAt(ut, k);
      x := None;
      if ok {
        x, slots := Some(used), slots + 1;
        UseEntry(cap);
      }
    }

    /** The entry at `used` becomes the loose frame. */
    method UseEntry(cap: nat)
      requires Valid() && used < |frames|
      modifies this`frames, this`used
      ensures ValidBut(Some(old(used))) && used == old(used) + 1
      ensures frames == old(frames)[old(used) := Frame(cap, None, None, NoList)]
    {
      ghost var f := frames;
      frames := frames[used := Frame(cap, None, None, NoList)];
      NewEntry(f, frames, used);
      used := used + 1;
    }

    lemma {:induction false} NewEntry(f: seq<Frame>, e: seq<Frame>, x: nat)
      requires IsList(f, freeEnds, FreeList, freeRefs) && IsList(f, allocEnds, AllocatedList, allocRefs)
      requires Partitioned(f, used, freeRefs, allocRefs, None) && x == used < |f| == |e|
      requires e[x] == Loose(e[x]) && forall y :: 0 <= y < |f| && y != x ==> e[y] == f[y]
      ensures IsList(e, freeEnds, FreeList, freeRefs) && IsList(e, allocEnds, AllocatedList, allocRefs)
      ensures Partitioned(e, used + 1, freeRefs, allocRefs, Some(x))
    {
      ListApart(f, e, freeEnds, FreeList, freeRefs, x);
      ListApart(f, e, allocEnds, AllocatedList, allocRefs, x);
      forall y: nat | y < used + 1
        ensures Placed(e, y, freeRefs, allocRefs, Some(x))
      {
        assert y < used ==> Placed(f, y, freeRefs, allocRefs, None);
      }
    }

    /** alloc_frame: a free frame, or a fresh one; never one that is allocated already. */
    method AllocFrame(ut: UTTable, k: Kernel) returns (x: Option<nat>, ghost pages: nat, ghost slots: nat)
      requires Valid() && ut.Ok() && k.Valid()
      modifies this, ut, k
      ensures Valid() && ut.Ok() && k.Valid()
      ensures UsedUp(old(ut.Img()), old(ut.taken), old(k.used), ut.Img(), ut.taken, k.used, pages, slots)
      ensures byteLength + (if used > old(used) then PAGE_SIZE else 0) == old(byteLength) + PageBytes(pages)
      ensures x.Some? ==> x.value !in old(allocRefs) && allocRefs == old(allocRefs) + [x.value] && x.value < used
      ensures x.Some? ==> if old(freeRefs) != [] then x.value == old(freeRefs)[0] && freeRefs == old(freeRefs)[1..]
                          else x.value == old(used) && freeRefs == []
      ensures x == None ==> allocRefs == old(allocRefs) && freeRefs == old(freeRefs) == [] && used == old(used)
      ensures old(freeRefs) == [] ==>
                (x.Some? <==> FreshOutcome(k.outcome, old(k.served), |old(ut.lists[PAGES])|, old(used) < |old(frames)|))
      ensures old(freeRefs) == [] && x.Some? ==> frames[x.value].cap in k.used && frames[x.value].cap !in old(k.used)
      ensures old(used) <= used && KeepCaps(old(frames), frames, old(used))
      ensures CapsOk(old(frames), old(used), old(k.used)) ==> CapsOk(frames, used, k.used)
    {
      pages, slots := 0, 0;
      ghost var f, n, v := frames, used, k.used;
      x := PopFront(FreeList);
      if x == None {
        x, pages, slots := AllocFreshFrame(ut, k);
        if x == None {
          CapsStay(f, n, v, k.used);
          return;
        }
      }
      LooseIsNew(x.value);
      PushBack(AllocatedList, x.value);
      if used > n {
        CapsMore(f, n, v, k.used);
      } else {
        CapsStay(f, n, v, k.used);
      }
    }

    lemma {:induction false} CapsStay(f: seq<Frame>, n: nat, v: set<nat>, slots: set<nat>)
      requires used == n && KeepCaps(f, frames, n) && v <= slots
      ensures CapsOk(f, n, v) ==> CapsOk(frames, used, slots)
    {
      if CapsOk(f, n, v) {
        CapsKept(f, n, v, frames, slots);
      }
    }

    lemma {:induction false} CapsMore(f: seq<Frame>, n: nat, v: set<nat>, slots: set<nat>)
      requires used == n + 1 && KeepCaps(f, frames, n) && v <= slots
      requires n < |frames| && frames[n].cap in slots && frames[n].cap !in v
      ensures CapsOk(f, n, v) ==> CapsOk(frames, used, slots)
    {
      if CapsOk(f, n, v) {
        CapsGrown(f, n, v, frames, slots);
      }
    }

    lemma {:induction false} LooseIsNew(x: nat)
      requires ValidBut(Some(x))
      ensures x !in allocRefs && x < used
    {
      forall i: nat | i < |allocRefs|
        ensures allocRefs[i] != x
      {
        assert Linked(frames, AllocatedList, allocRefs, i);
      }
    }

    /** free_frame of an allocated frame, at place i of that list. */
    method FreeFrame(x: nat, ghost i: nat)
      requires Valid() && i < |allocRefs| && allocRefs[i] == x
      modifies this
      ensures Valid() && allocRefs == Without(old(allocRefs), i) && freeRefs == [x] + old(freeRefs)
      ensures x !in allocRefs && used == old(used) && |frames| == |old(frames)| && KeepCaps(old(frames), frames, |frames|)
    {
      WithoutHas(allocRefs, i, x);
      Remove(AllocatedList, x, i);
      PushFront(FreeList, x);
    }
  }

  /** Changing the entry above those in use. */
  lemma {:induction false} ListApart(f: seq<Frame>, e: seq<Frame>, l: Ends, id: ListID, s: seq<nat>, x: nat)
    requires IsList(f, l, id, s) && |e| == |f| && x !in s
    requires forall y :: 0 <= y < |f| && y != x ==> e[y] == f[y]
    ensures IsList(e, l, id, s)
  {
    forall i: nat | i < |s|
      ensures Linked(e, id, s, i)
    {
      assert Linked(f, id, s, i);
    }
  }

  /** What a call used up: `pages` pages besides those taken for page tables, and so many slots. */
  ghost predicate UsedUp(h: Untypeds.Heap, t: nat, used: set<nat>, e: Untypeds.Heap, t': nat, used': set<nat>,
                         pages: nat, slots: nat) {
    && |h.lists| == |e.lists| == LISTS && t <= t'
    && FreeBytes(h) == FreeBytes(e) + PageBytes(t' - t + pages)
    && used <= used' && |used'| == |used| + slots
  }

  lemma {:induction false} UsedMore(h: Untypeds.Heap, t: nat, used: set<nat>, m: Untypeds.Heap, t1: nat, used1: set<nat>,
                                    pages: nat, slots: nat, e: Untypeds.Heap, t': nat, used': set<nat>, p: nat, n: nat)
    requires UsedUp(h, t, used, m, t1, used1, pages, slots) && UsedUp(m, t1, used1, e, t', used', p, n)
    ensures UsedUp(h, t, used, e, t', used', pages + p, slots + n)
  {
  }

  /** Outcome of alloc_frame_at from call s on, with so many free pages; a failed mapping is followed by a delete. */
  function FrameOutcome(outcome: nat -> Answer, s: nat, free: nat): Mapping {
    if free == 0 then Mapping(false, 0, 0, s)
    else if outcome(s) != Success then Mapping(false, 0, 0, s + 1)
    else if outcome(s + 1) != Success then Mapping(false, 0, 0, s + 2)
    else
      var m := MapOutcome(outcome, s + 2, free - 1);
      Mapping(m.ok, m.pages, m.slots, m.next + if m.ok then 0 else 1)
  }

  /** Room for a frame: nothing is needed if there is an entry left, else a frame for more of them. */
  function RoomOutcome(outcome: nat -> Answer, s: nat, free: nat, room: bool): Mapping {
    if room then Mapping(true, 0, 0, s)
    else var b := FrameOutcome(outcome, s, free); Mapping(b.ok, b.pages + 1, b.slots, b.next)
  }

  /** A fresh frame needs an entry and a frame of its own. */
  predicate FreshOutcome(outcome: nat -> Answer, s: nat, free: nat, room: bool) {
    var m := RoomOutcome(outcome, s, free, room);
    m.ok && m.pages <= free && FrameOutcome(outcome, m.next, free - m.pages).ok
  }

  /**
   * A fresh frame takes a page, and one more if the entries are used up; a kernel that always
   * answers Success asks for nothing else.
   */
  lemma {:induction false} FreshNeeds(outcome: nat -> Answer, s: nat, free: nat, room: bool)
    ensures FreshOutcome(outcome, s, free, room) ==> free >= if room then 1 else 2
    ensures Willing(outcome, s) ==> (FreshOutcome(outcome, s, free, room) <==> free >= if room then 1 else 2)
  {
    if Willing(outcome, s) && free >= 2 {
      assert FrameOutcome(outcome, s, free) == Mapping(true, 0, 0, s + 3);
    }
  }

  /** The page, its slot and the retype of alloc_frame_at; a failure gives everything back. */
  method TakeFrame(ut: UTTable, k: Kernel) returns (ok: bool, x: nat, cap: nat)
    requires ut.Ok() && k.Valid()
    modifies ut, k
    ensures ut.Ok() && k.Valid() && ut.taken == old(ut.taken) && |ut.Img().lists| == LISTS
    ensures ok <==> old(ut.lists[PAGES]) != [] && k.outcome(old(k.served)) == k.outcome(old(k.served) + 1) == Success
    ensures FreeBytes(old(ut.Img())) == FreeBytes(ut.Img()) + if ok then PAGE_SIZE else 0
    ensures k.served == old(k.served) + if old(ut.lists[PAGES]) == [] then 0 else if k.outcome(old(k.served)) != Success then 1 else 2
    ensures k.used == old(k.used) + if ok then {cap} else {}
    ensures ok ==> && cap !in old(k.used)
                   && |ut.lists[PAGES]| == |old(ut.lists[PAGES])| - 1
                   && x < |ut.mem| && ut.owner[x] == OUT && ut.mem[x].sizeBits == PAGE_BITS
  {
    PowPage();
    cap := 0;
    ok, x := ut.Alloc4k();
    if !ok {
      return;
    }
    ok, cap := k.AllocSlot();
    if !ok {
      ut.Free(x);
      return;
    }
    var r := k.Call();   // retype into a frame
    if r != Success {
      k.FreeSlot(cap);
      ut.Free(x);
      ok := false;
    }
  }

  /** The mapping of a frame, whose page and slot go back if it fails. */
  method MapOrGiveBack(ut: UTTable, k: Kernel, x: nat, cap: nat) returns (ok: bool)
    requires ut.Ok() && k.Valid() && cap in k.used
    requires x < |ut.mem| && ut.owner[x] == OUT && ut.mem[x].sizeBits == PAGE_BITS
    modifies ut, k
    ensures ut.Ok() && k.Valid()
    ensures var m := MapOutcome(k.outcome, old(k.served), |old(ut.lists[PAGES])|);
            && ok == m.ok && ut.taken == old(ut.taken) + m.pages && k.served == m.next + (if ok then 0 else 1)
            && (ok ==> |ut.lists[PAGES]| + m.pages == |old(ut.lists[PAGES])|)
            && FreeBytes(ut.Img()) + PageBytes(m.pages) == FreeBytes(old(ut.Img())) + (if ok then 0 else PAGE_SIZE)
            && old(k.used) - {cap} <= k.used && (ok <==> cap in k.used)
            && |k.used| == |old(k.used)| + m.slots - if ok then 0 else 1
  {
    PowPage();
    ok := ut.MapFrame(k);
    if !ok {
      var _ := k.Delete();
      k.FreeSlot(cap);
      ut.Free(x);
    }
  }

  /**
   * alloc_frame_at: a page of untyped memory, a slot, a retype and a mapping.  A failure returns
   * the page and the slot of the frame, but not what the mapping took for page tables.
   */
  method AllocFrameAt(ut: UTTable, k: Kernel) returns (ok: bool, cap: nat)
    requires ut.Ok() && k.Valid()
    modifies ut, k
    ensures ut.Ok() && k.Valid()
    ensures var m := FrameOutcome(k.outcome, old(k.served), |old(ut.lists[PAGES])|);
            && ok == m.ok && ut.taken == old(ut.taken) + m.pages && k.served == m.next
            && (ok ==> |ut.lists[PAGES]| + 1 + m.pages == |old(ut.lists[PAGES])|)
            && var f := if ok then 1 else 0;
               UsedUp(old(ut.Img()), old(ut.taken), old(k.used), ut.Img(), ut.taken, k.used, f, m.slots + f)
    ensures ok ==> cap in k.used && cap !in old(k.used)
  {
    var x;
    ok, x, cap := TakeFrame(ut, k);
    if ok {
      ok := MapOrGiveBack(ut, k, x, cap);
    }
  }

  /**
   * A failure leaves memory and slots as they were exactly if the first mapping does not ask for a
   * page table, or there is no page for one, or it is not reached.
   */
  lemma {:induction false} FailureRestores(outcome: nat -> Answer, s: nat, free: nat)
    requires !FrameOutcome(outcome, s, free).ok
    ensures var m := FrameOutcome(outcome, s, free);
            m.pages == m.slots == 0 <==>
              !(free >= 2 && outcome(s) == Success && outcome(s + 1) == Success && outcome(s + 2) == FailedLookup)
    ensures FrameOutcome(outcome, s, free).pages <= MAPPING_SLOTS
  {
    if free > 0 {
      MapBounds(outcome, s + 2, free - 1);
    }
  }

  /** A mapping that lacks a table whose retype fails: one page and one slot are gone. */
  lemma {:induction false} LostTable(outcome: nat -> Answer, s: nat, free: nat)
    requires free >= 2 && outcome(s) == outcome(s + 1) == Success && outcome(s + 2) == FailedLookup
    requires outcome(s + 3) == Success && outcome(s + 4) == OtherError
    ensures FrameOutcome(outcome, s, free) == Mapping(false, 1, 1, s + 6)
  {
    assert AfterTable(outcome, s + 4) == Served(OtherError, s + 5);
    assert WithTables(outcome, s + 3, free - 1, MAPPING_SLOTS) == Mapping(false, 1, 1, s + 5);
  }
}
