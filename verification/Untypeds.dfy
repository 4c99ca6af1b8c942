/**
 * The untyped allocator of the root server: free lists by size, larger untypeds split in two, and
 * a pool of node structures that is refilled from the memory it manages.
 */
module Untypeds {
  import opened Arith

  const MIN_BITS: nat := 4      // seL4_EndpointBits
  const PAGE_BITS: nat := 12    // seL4_PageBits
  const PAGE_SIZE: nat := 4096
  const UTS_PER_PAGE: nat := 128
  const MAPPING_SLOTS: nat := 3

  /** The list of free pages. */
  const PAGES: nat := 8

  /** Lists 0 to 8 hold free untypeds by size, list 9 the spare structures. */
  const STRUCTURES: nat := 9
  const LISTS: nat := 10

  // A node in none of the lists is spare, or stands for memory that was handed out.
  const NONE: int := -1
  const OUT: int := -2

  datatype Link = Nil | To(node: nat)

  /** UT, with pointers as indices. */
  datatype Node = Node(cap: nat, valid: bool, sizeBits: nat, next: Link)

  /** The nodes, the heads of the lists, and what the proofs know: list contents, owners, addresses. */
  datatype Heap = Heap(mem: seq<Node>, heads: seq<Link>, lists: seq<seq<nat>>, owner: seq<int>, base: seq<nat>)

  /** Bytes of n pages. */
  function PageBytes(n: nat): nat { 4096 * n }

  function Pow2(k: nat): (p: nat)
    ensures p > 0
  {
    if k == 0 then 1 else 2 * Pow2(k - 1)
  }

  /** Following next from the head gives exactly the nodes s. */
  ghost predicate Chain(mem: seq<Node>, head: Link, s: seq<nat>)
    decreases |s|
  {
    if s == [] then head == Nil else head == To(s[0]) && s[0] < |mem| && Chain(mem, mem[s[0]].next, s[1..])
  }

  ghost predicate Shaped(h: Heap) {
    |h.heads| == |h.lists| == LISTS && |h.owner| == |h.base| == |h.mem|
  }

  ghost predicate ItemOk(h: Heap, a: nat, x: nat)
    requires Shaped(h)
  {
    x < |h.mem| && h.owner[x] == a && (a < STRUCTURES ==> h.mem[x].sizeBits == a + MIN_BITS)
  }

  ghost predicate Differ(s: seq<nat>, i: nat, j: nat)
    requires i < |s| && j < |s|
  {
    i != j ==> s[i] != s[j]
  }

  /** A list: linked by its nodes, of one size, with no node twice and none of another list. */
  ghost predicate ListOk(h: Heap, a: nat)
    requires Shaped(h) && a < LISTS
  {
    && Chain(h.mem, h.heads[a], h.lists[a])
    && (forall i :: 0 <= i < |h.lists[a]| ==> ItemOk(h, a, h.lists[a][i]))
    && (forall i: nat, j: nat :: i < |h.lists[a]| && j < |h.lists[a]| ==> Differ(h.lists[a], i, j))
  }

  /** The node stands for memory: free or handed out. */
  predicate Live(h: Heap, x: nat)
    requires x < |h.owner|
  {
    0 <= h.owner[x] < STRUCTURES || h.owner[x] == OUT
  }

  /** Two live untypeds do not overlap. */
  ghost predicate Separate(h: Heap, x: nat, y: nat)
    requires Shaped(h) && x < |h.mem| && y < |h.mem|
  {
    x != y && Live(h, x) && Live(h, y) ==>
      h.base[x] + Pow2(h.mem[x].sizeBits) <= h.base[y] || h.base[y] + Pow2(h.mem[y].sizeBits) <= h.base[x]
  }

  ghost predicate Valid(h: Heap) {
    && Shaped(h) && (forall a: nat :: a < LISTS ==> ListOk(h, a))
    && forall x: nat, y: nat :: x < |h.mem| && y < |h.mem| ==> Separate(h, x, y)
  }

  /** Changing a node outside a list leaves the list linked. */
  lemma {:induction false} ChainFrame(mem: seq<Node>, e: seq<Node>, head: Link, s: seq<nat>)
    requires Chain(mem, head, s) && |mem| <= |e|
    requires forall i :: 0 <= i < |s| ==> s[i] < |mem| && e[s[i]].next == mem[s[i]].next
    ensures Chain(e, head, s)
    decreases |s|
  {
    if s != [] {
      assert forall i :: 0 <= i < |s| - 1 ==> s[1..][i] == s[i + 1];
      ChainFrame(mem, e, mem[s[0]].next, s[1..]);
    }
  }

  /** Node x at the front of list a. */
  function Pushed(h: Heap, a: nat, x: nat): Heap
    requires Shaped(h) && a < LISTS && x < |h.mem|
  {
    Heap(h.mem[x := h.mem[x].(next := h.heads[a])], h.heads[a := To(x)], h.lists[a := [x] + h.lists[a]],
         h.owner[x := a], h.base)
  }

  /** The front node of list a taken out. */
  function Popped(h: Heap, a: nat): Heap
    requires Shaped(h) && a < LISTS && h.lists[a] != [] && h.lists[a][0] < |h.mem|
  {
    var x := h.lists[a][0];
    Heap(h.mem, h.heads[a := h.mem[x].next], h.lists[a := h.lists[a][1..]],
         h.owner[x := if a < STRUCTURES then OUT else NONE], h.base)
  }

  /** x is in none of the lists. */
  predicate Outside(h: Heap, x: nat)
    requires x < |h.owner|
  {
    h.owner[x] == OUT || h.owner[x] == NONE
  }

  lemma {:induction false} PushOther(h: Heap, a: nat, x: nat, b: nat)
    requires Valid(h) && a < LISTS && b < LISTS && a != b && x < |h.mem| && Outside(h, x)
    ensures ListOk(Pushed(h, a, x), b)
  {
    var e := Pushed(h, a, x);
    assert ListOk(h, b);
    forall i | 0 <= i < |h.lists[b]|
      ensures ItemOk(e, b, e.lists[b][i]) && h.lists[b][i] != x
    {
      assert ItemOk(h, b, h.lists[b][i]);
    }
    ChainFrame(h.mem, e.mem, h.heads[b], h.lists[b]);
    forall i: nat, j: nat | i < |h.lists[b]| && j < |h.lists[b]|
      ensures Differ(e.lists[b], i, j)
    {
      assert Differ(h.lists[b], i, j);
    }
  }

  lemma {:induction false} PushSame(h: Heap, a: nat, x: nat)
    requires Valid(h) && a < LISTS && x < |h.mem| && Outside(h, x)
    requires a < STRUCTURES ==> h.mem[x].sizeBits == a + MIN_BITS
    ensures ListOk(Pushed(h, a, x), a)
  {
    var e, s := Pushed(h, a, x), h.lists[a];
    assert ListOk(h, a);
    forall i | 0 <= i < |s|
      ensures ItemOk(e, a, s[i]) && s[i] != x
    {
      assert ItemOk(h, a, s[i]);
    }
    ChainFrame(h.mem, e.mem, h.heads[a], s);
    assert e.lists[a][1..] == s;
    forall i: nat, j: nat | i < |s| + 1 && j < |s| + 1
      ensures Differ(e.lists[a], i, j)
    {
      assert i > 0 && j > 0 ==> Differ(s, i - 1, j - 1);
    }
    forall i | 0 <= i < |s| + 1
      ensures ItemOk(e, a, e.lists[a][i])
    {
      assert i > 0 ==> e.lists[a][i] == s[i - 1];
    }
  }

  /** Returning memory, or a spare structure, keeps the lists. */
  lemma {:induction false} PushValid(h: Heap, a: nat, x: nat)
    requires Valid(h) && a < LISTS && x < |h.mem|
    requires if a < STRUCTURES then h.owner[x] == OUT && h.mem[x].sizeBits == a + MIN_BITS else h.owner[x] == NONE
    ensures Valid(Pushed(h, a, x))
  {
    var e := Pushed(h, a, x);
    forall b: nat | b < LISTS
      ensures ListOk(e, b)
    {
      if b == a {
        PushSame(h, a, x);
      } else {
        PushOther(h, a, x, b);
      }
    }
    forall y: nat, z: nat | y < |h.mem| && z < |h.mem|
      ensures Separate(e, y, z)
    {
      assert Separate(h, y, z);
    }
  }

  lemma {:induction false} PopValid(h: Heap, a: nat)
    requires Valid(h) && a < LISTS && h.lists[a] != []
    ensures h.lists[a][0] < |h.mem| && h.heads[a] == To(h.lists[a][0]) && h.owner[h.lists[a][0]] == a
    ensures a < STRUCTURES ==> h.mem[h.lists[a][0]].sizeBits == a + MIN_BITS
    ensures Valid(Popped(h, a))
  {
    var s := h.lists[a];
    assert ListOk(h, a) && ItemOk(h, a, s[0]);
    var e := Popped(h, a);
    forall b: nat | b < LISTS
      ensures ListOk(e, b)
    {
      PopList(h, a, b);
    }
    forall y: nat, z: nat | y < |h.mem| && z < |h.mem|
      ensures Separate(e, y, z)
    {
      assert Separate(h, y, z);
    }
  }

  lemma {:induction false} PopList(h: Heap, a: nat, b: nat)
    requires Valid(h) && a < LISTS && b < LISTS && h.lists[a] != [] && h.lists[a][0] < |h.mem|
    ensures ListOk(Popped(h, a), b)
  {
    var e, s, k := Popped(h, a), h.lists[b], if a == b then 1 else 0;
    assert ListOk(h, b) && ListOk(h, a);
    assert e.lists[b] == s[k..];
    forall i | 0 <= i < |s| - k
      ensures ItemOk(e, b, e.lists[b][i])
    {
      assert ItemOk(h, b, s[i + k]) && ItemOk(h, a, h.lists[a][0]);
      assert a == b ==> Differ(s, 0, i + k);
    }
    forall i: nat, j: nat | i < |s| - k && j < |s| - k
      ensures Differ(e.lists[b], i, j)
    {
      assert Differ(s, i + k, j + k);
    }
  }

  // Bytes ---------------------------------------------------------------------------------------

  /** Bytes in the first n free lists. */
  function BytesIn(lists: seq<seq<nat>>, n: nat): nat
    requires n <= |lists|
  {
    if n == 0 then 0 else BytesIn(lists, n - 1) + Times(|lists[n - 1]|, Pow2(n - 1 + MIN_BITS))
  }

  function FreeBytes(h: Heap): nat
    requires |h.lists| == LISTS
  {
    BytesIn(h.lists, STRUCTURES)
  }

  lemma {:induction false} BytesPushed(lists: seq<seq<nat>>, n: nat, a: nat, s: seq<nat>)
    requires n <= |lists| && a < |lists| && |s| == |lists[a]| + 1
    ensures BytesIn(lists[a := s], n) == BytesIn(lists, n) + if a < n then Pow2(a + MIN_BITS) else 0
  {
    if n > 0 {
      BytesPushed(lists, n - 1, a, s);
    }
  }

  lemma {:induction false} PushBytes(h: Heap, a: nat, x: nat)
    requires Shaped(h) && a < LISTS && x < |h.mem|
    ensures FreeBytes(Pushed(h, a, x)) == FreeBytes(h) + if a < STRUCTURES then Pow2(a + MIN_BITS) else 0
  {
    BytesPushed(h.lists, STRUCTURES, a, [x] + h.lists[a]);
  }

  lemma {:induction false} PopBytes(h: Heap, a: nat)
    requires Shaped(h) && a < LISTS && h.lists[a] != [] && h.lists[a][0] < |h.mem|
    ensures FreeBytes(h) == FreeBytes(Popped(h, a)) + if a < STRUCTURES then Pow2(a + MIN_BITS) else 0
  {
    var l := h.lists[a := h.lists[a][1..]];
    assert l[a := h.lists[a]] == h.lists;
    BytesPushed(l, STRUCTURES, a, h.lists[a]);
  }

  // Splitting -----------------------------------------------------------------------------------

  /** cap and size_bits of a spare structure. */
  function WithCap(h: Heap, x: nat, cap: nat, sizeBits: nat): Heap
    requires x < |h.mem|
  {
    h.(mem := h.mem[x := h.mem[x].(cap := cap, sizeBits := sizeBits)])
  }

  /** The nodes in lists, and live ones, are the same in both heaps. */
  ghost predicate ListsSame(h: Heap, e: Heap)
    requires Shaped(h) && Shaped(e)
  {
    && |h.mem| <= |e.mem| && e.lists == h.lists && e.heads == h.heads
    && forall x :: 0 <= x < |h.mem| && 0 <= h.owner[x] ==>
         e.owner[x] == h.owner[x] && e.mem[x].next == h.mem[x].next && e.mem[x].sizeBits == h.mem[x].sizeBits
  }

  lemma {:induction false} ListsFrame(h: Heap, e: Heap, a: nat)
    requires Shaped(h) && Shaped(e) && ListsSame(h, e) && a < LISTS && ListOk(h, a)
    ensures ListOk(e, a)
  {
    var s := h.lists[a];
    forall i | 0 <= i < |s|
      ensures ItemOk(e, a, s[i]) && s[i] < |h.mem| && e.mem[s[i]].next == h.mem[s[i]].next
    {
      assert ItemOk(h, a, s[i]);
    }
    ChainFrame(h.mem, e.mem, h.heads[a], s);
  }

  lemma {:induction false} WithCapValid(h: Heap, x: nat, cap: nat, sizeBits: nat)
    requires Valid(h) && x < |h.mem| && h.owner[x] == NONE
    ensures Valid(WithCap(h, x, cap, sizeBits))
  {
    var e := WithCap(h, x, cap, sizeBits);
    forall a: nat | a < LISTS
      ensures ListOk(e, a)
    {
      ListsFrame(h, e, a);
    }
    forall y: nat, z: nat | y < |h.mem| && z < |h.mem|
      ensures Separate(e, y, z)
    {
      assert Separate(h, y, z);
    }
  }

  /** Two retypes of `larger` gave its lower and its upper half to the nodes x and y. */
  function Halved(h: Heap, larger: nat, x: nat, y: nat, sizeBits: nat): Heap
    requires Shaped(h) && larger < |h.mem| && x < |h.mem| && y < |h.mem|
  {
    h.(owner := h.owner[larger := NONE][x := OUT][y := OUT],
       base := h.base[x := h.base[larger]][y := h.base[larger] + Pow2(sizeBits)])
  }

  lemma {:induction false} HalvedValid(h: Heap, larger: nat, x: nat, y: nat, sizeBits: nat)
    requires Valid(h) && larger < |h.mem| && x < |h.mem| && y < |h.mem| && x != y
    requires h.owner[larger] == OUT && h.owner[x] == NONE && h.owner[y] == NONE
    requires h.mem[larger].sizeBits == sizeBits + 1 && h.mem[x].sizeBits == sizeBits == h.mem[y].sizeBits
    ensures Valid(Halved(h, larger, x, y, sizeBits))
  {
    var e := Halved(h, larger, x, y, sizeBits);
    forall a: nat | a < LISTS
      ensures ListOk(e, a)
    {
      ListsFrame(h, e, a);
    }
    forall v: nat, w: nat | v < |h.mem| && w < |h.mem|
      ensures Separate(e, v, w)
    {
      assert Separate(h, v, w) && Separate(h, larger, w) && Separate(h, v, larger);
    }
  }

  /** n new spare structures behind the nodes so far. */
  function Extended(h: Heap, n: nat): Heap {
    Heap(h.mem + seq(n, _ => Node(0, false, 0, Nil)), h.heads, h.lists,
         h.owner + seq(n, _ => NONE), h.base + seq(n, _ => 0))
  }

  lemma {:induction false} ExtendedValid(h: Heap, n: nat)
    requires Valid(h)
    ensures Valid(Extended(h, n))
  {
    var e := Extended(h, n);
    forall a: nat | a < LISTS
      ensures ListOk(e, a)
    {
      ListsFrame(h, e, a);
    }
    forall v: nat, w: nat | v < |e.mem| && w < |e.mem|
      ensures Separate(e, v, w)
    {
      assert v < |h.mem| && w < |h.mem| ==> Separate(h, v, w);
    }
  }

  // The kernel ----------------------------------------------------------------------------------

  /** What a call answers; FailedLookup asks for one more level of page tables. */
  datatype Answer = Success | FailedLookup | OtherError

  /** Slots and kernel calls; any call may fail.  A slot given out is not in use. */
  class Kernel {
    const outcome: nat -> Answer
    var served: nat
    var nextSlot: nat
    ghost var used: set<nat>
    ghost var stuck: nat      // deletes that failed

    ghost predicate Valid()
      reads this
    {
      nextSlot > 0 && forall s :: s in used ==> s < nextSlot
    }

    constructor (outcome: nat -> Answer)
      ensures Valid() && used == {} && stuck == 0 && this.outcome == outcome && served == 0
    {
      this.outcome := outcome;
      served, nextSlot, used, stuck := 0, 1, {}, 0;
    }

    method AllocSlot() returns (ok: bool, slot: nat)
      requires Valid()
      modifies this
      ensures Valid() && stuck == old(stuck)
      ensures if ok then slot !in old(used) && used == old(used) + {slot} else used == old(used)
      ensures ok <==> outcome(old(served)) == Success
      ensures served == old(served) + 1
    {
      ok, slot := outcome(served) == Success, nextSlot;
      served := served + 1;
      if ok {
        used, nextSlot := used + {slot}, nextSlot + 1;
      }
    }

    method FreeSlot(slot: nat)
      requires Valid()
      modifies this`used
      ensures Valid() && used == old(used) - {slot}
    {
      used := used - {slot};
    }

    /** A retype or a mapping. */
    method Call() returns (r: Answer)
      requires Valid()
      modifies this`served
      ensures Valid() && r == outcome(old(served)) && served == old(served) + 1
    {
      r := outcome(served);
      served := served + 1;
    }

    method Delete() returns (ok: bool)
      requires Valid()
      modifies this`served, this`stuck
      ensures Valid() && stuck == old(stuck) + (if ok then 0 else 1) && served == old(served) + 1
    {
      ok := outcome(served) == Success;
      served := served + 1;
      stuck := stuck + if ok then 0 else 1;
    }
  }

  /** What one operation must not disturb: untypeds that are handed out keep their node and their memory. */
  ghost predicate OthersKept(h: Heap, e: Heap, but: set<nat>)
    requires Shaped(h) && Shaped(e)
  {
    && |h.mem| <= |e.mem|
    && forall x :: 0 <= x < |h.mem| && h.owner[x] == OUT && x !in but ==>
         e.owner[x] == OUT && e.mem[x] == h.mem[x] && e.base[x] == h.base[x]
  }

  // Mapping a frame -----------------------------------------------------------------------------

  /** Whether the frame is mapped, the pages and slots kept for page tables, and the number of the next call. */
  datatype Mapping = Mapping(ok: bool, pages: nat, slots: nat, next: nat)

  /** The answer of a call, and the number of the next. */
  datatype Served = Served(answer: Answer, next: nat)

  /** Retype, map the table, map the frame: the first failure is the answer. */
  function AfterTable(outcome: nat -> Answer, s: nat): Served {
    if outcome(s) != Success then Served(outcome(s), s + 1)
    else if outcome(s + 1) != Success then Served(outcome(s + 1), s + 2)
    else Served(outcome(s + 2), s + 3)
  }

  /** What becomes of the mapping from call s on, with so many free pages and tables left to add. */
  function WithTables(outcome: nat -> Answer, s: nat, free: nat, left: nat): Mapping
    decreases left, 0
  {
    if left == 0 || free == 0 then Mapping(false, 0, 0, s)
    else if outcome(s) != Success then Mapping(false, 1, 0, s + 1)
    else
      var a := AfterTable(outcome, s + 1);
      var m := Continued(outcome, a.next, free - 1, left - 1, a.answer);
      Mapping(m.ok, m.pages + 1, m.slots + 1, m.next)
  }

  function Continued(outcome: nat -> Answer, s: nat, free: nat, left: nat, r: Answer): Mapping
    decreases left, 1
  {
    if r == FailedLookup then WithTables(outcome, s, free, left) else Mapping(r == Success, 0, 0, s)
  }

  /** After so many pages and slots for tables, what is still to come leads to the outcome `goal`. */
  ghost predicate OnTrack(goal: Mapping, pages: int, slots: nat, outcome: nat -> Answer, s: nat, free: nat, left: nat, r: Answer) {
    var m := Continued(outcome, s, free, left, r);
    pages >= 0 && goal.ok == m.ok && goal.pages == pages + m.pages && goal.slots == slots + m.slots && goal.next == m.next
  }

  lemma {:induction false} NextTable(goal: Mapping, pages: int, slots: nat, outcome: nat -> Answer, s: nat, free: nat, left: nat)
    requires left > 0 && OnTrack(goal, pages, slots, outcome, s, free, left, FailedLookup)
    ensures if free == 0 then goal == Mapping(false, pages, slots, s)
            else if outcome(s) != Success then goal == Mapping(false, pages + 1, slots, s + 1)
            else var a := AfterTable(outcome, s + 1);
                 OnTrack(goal, pages + 1, slots + 1, outcome, a.next, free - 1, left - 1, a.answer)
  {
    assert Continued(outcome, s, free, left, FailedLookup) == WithTables(outcome, s, free, left);
  }

  function MapOutcome(outcome: nat -> Answer, s: nat, free: nat): Mapping {
    Continued(outcome, s + 1, free, MAPPING_SLOTS, outcome(s))
  }

  lemma {:induction false} MapStarts(outcome: nat -> Answer, s: nat, free: nat)
    ensures OnTrack(MapOutcome(outcome, s, free), 0, 0, outcome, s + 1, free, MAPPING_SLOTS, outcome(s))
  {
  }

  /** At most one page without a slot is lost, and only by a failure. */
  predicate Bounded(m: Mapping, free: nat, left: nat) {
    m.pages <= left && m.pages <= free && m.slots <= m.pages <= m.slots + if m.ok then 0 else 1
  }

  lemma {:induction false} TableBounds(outcome: nat -> Answer, s: nat, free: nat, left: nat)
    ensures Bounded(WithTables(outcome, s, free, left), free, left)
    decreases left, 0
  {
    if left > 0 && free > 0 && outcome(s) == Success {
      var a := AfterTable(outcome, s + 1);
      ContinuedBounds(outcome, a.next, free - 1, left - 1, a.answer);
    }
  }

  lemma {:induction false} ContinuedBounds(outcome: nat -> Answer, s: nat, free: nat, left: nat, r: Answer)
    ensures Bounded(Continued(outcome, s, free, left, r), free, left)
    decreases left, 1
  {
    TableBounds(outcome, s, free, left);
  }

  /** Pages are kept exactly if the first mapping lacks a table and there is a page for one. */
  lemma {:induction false} MapBounds(outcome: nat -> Answer, s: nat, free: nat)
    ensures var m := MapOutcome(outcome, s, free);
            Bounded(m, free, 3) && (m.pages > 0 <==> outcome(s) == FailedLookup && free > 0)
  {
    TableBounds(outcome, s + 1, free, MAPPING_SLOTS);
  }

  /** A mapping that asks for three page tables and gets them succeeds; when it asks for a fourth it fails. */
  lemma {:induction false} ThreeTables(outcome: nat -> Answer, s: nat, free: nat)
    requires free >= 3 && outcome(s) == outcome(s + 4) == outcome(s + 8) == FailedLookup
    requires outcome(s + 1) == outcome(s + 2) == outcome(s + 3) == Success
    requires outcome(s + 5) == outcome(s + 6) == outcome(s + 7) == Success
    requires outcome(s + 9) == outcome(s + 10) == outcome(s + 11) == Success
    ensures MapOutcome(outcome, s, free) == Mapping(outcome(s + 12) == Success, 3, 3, s + 13)
  {
    assert AfterTable(outcome, s + 2) == Served(FailedLookup, s + 5);
    assert AfterTable(outcome, s + 6) == Served(FailedLookup, s + 9);
    assert AfterTable(outcome, s + 10) == Served(outcome(s + 12), s + 13);
    assert WithTables(outcome, s + 13, free - 3, 0) == Mapping(false, 0, 0, s + 13);
    assert WithTables(outcome, s + 9, free - 2, 1) == Mapping(outcome(s + 12) == Success, 1, 1, s + 13);
    assert WithTables(outcome, s + 5, free - 1, 2) == Mapping(outcome(s + 12) == Success, 2, 2, s + 13);
  }

  /** A page as a frame of structures: a slot, a retype and a mapping. */
  function PageOutcome(outcome: nat -> Answer, s: nat, pages: nat): Mapping {
    if outcome(s) != Success then Mapping(false, 0, 0, s + 1)
    else if outcome(s + 1) != Success then Mapping(false, 0, 1, s + 2)
    else var m := MapOutcome(outcome, s + 2, pages); Mapping(m.ok, m.pages, m.slots + 1, m.next)
  }

  /** A page of structures. */
  function RefillOutcome(outcome: nat -> Answer, s: nat, pages: nat): Mapping {
    if pages == 0 then Mapping(false, 0, 0, s)
    else var m := PageOutcome(outcome, s, pages - 1); Mapping(m.ok, m.pages + 1, m.slots, m.next)
  }

  /** Nothing is needed while two structures are left. */
  function EnsureOutcome(outcome: nat -> Answer, s: nat, pages: nat, st: nat): Mapping {
    if st >= 2 then Mapping(true, 0, 0, s) else RefillOutcome(outcome, s, pages)
  }

  /** The lists after a refill with the outcome m, and the numbers of pages taken and of the next call. */
  ghost predicate Refilled(m: Mapping, l: seq<seq<nat>>, t: nat, ok: bool, e: seq<seq<nat>>, t': nat, next: nat) {
    && |l| == |e| == LISTS && ok == m.ok && t' == t + m.pages
    && |e[PAGES]| + m.pages == |l[PAGES]| && e == l[PAGES := e[PAGES]][STRUCTURES := e[STRUCTURES]]
    && |e[STRUCTURES]| == |l[STRUCTURES]| + (if ok && m.pages > 0 then UTS_PER_PAGE else 0) && (ok ==> next == m.next)
  }

  // Allocating ----------------------------------------------------------------------------------

  /** Success, the number of the next call, and the free pages and spare structures after it. */
  datatype Run = Run(ok: bool, next: nat, pages: nat, st: nat)

  /** Splitting a block, with so many free pages and spare structures. */
  function SplitRun(outcome: nat -> Answer, s: nat, pages: nat, st: nat): Run {
    var m := EnsureOutcome(outcome, s, pages, st);
    var n := if st >= 2 then st else st + UTS_PER_PAGE;
    if m.ok && m.pages <= pages && outcome(m.next) == outcome(m.next + 1) == outcome(m.next + 2) == outcome(m.next + 3) == Success
    then Run(true, m.next + 4, pages - m.pages, n - 2)
    else Run(false, s, pages, st)
  }

  /** alloc for list a: a free block of the size, or a larger one split as often as needed. */
  function AllocRun(outcome: nat -> Answer, s: nat, lists: seq<seq<nat>>, a: nat): Run
    requires |lists| == LISTS && a <= PAGES
    decreases PAGES - a
  {
    if lists[a] != [] then
      Run(true, s, if a == PAGES then |lists[PAGES]| - 1 else |lists[PAGES]|, |lists[STRUCTURES]|)
    else if a == PAGES then Run(false, s, 0, |lists[STRUCTURES]|)
    else
      var r := AllocRun(outcome, s, lists, a + 1);
      if r.ok then SplitRun(outcome, r.next, r.pages, r.st) else r
  }

  /** b is the least size of at least a with a free block. */
  ghost predicate LeastFree(lists: seq<seq<nat>>, a: nat, b: nat)
    requires |lists| == LISTS
  {
    a <= b <= PAGES && lists[b] != [] && forall c :: a <= c < b ==> lists[c] == []
  }

  /** Enough structures for the splits from size b down to size a, or a page for more. */
  predicate Enough(lists: seq<seq<nat>>, a: nat, b: nat)
    requires |lists| == LISTS && a <= b <= PAGES
  {
    a == b || |lists[STRUCTURES]| >= 2 * (b - a) || |lists[PAGES]| > if b == PAGES then 1 else 0
  }

  /** Structures and pages left after the splits from b down to a, without and with a refill. */
  predicate Left(lists: seq<seq<nat>>, a: nat, b: nat, r: Run)
    requires |lists| == LISTS && a <= b <= PAGES
  {
    var st, pages := |lists[STRUCTURES]|, |lists[PAGES]| - if b == PAGES then 1 else 0;
    || (st >= 2 * (b - a) && r.st == st - 2 * (b - a) && r.pages == pages)
    || (pages > 0 && a < b && r.st >= UTS_PER_PAGE - 2 * (b - a) && r.pages < pages)
  }

  /** Whatever the kernel answers, an allocation needs a block of the size or larger, and structures or a page. */
  lemma {:induction false} RunNeeds(outcome: nat -> Answer, s: nat, lists: seq<seq<nat>>, a: nat) returns (b: nat)
    requires |lists| == LISTS && a <= PAGES && AllocRun(outcome, s, lists, a).ok
    ensures LeastFree(lists, a, b) && Enough(lists, a, b) && Left(lists, a, b, AllocRun(outcome, s, lists, a))
    decreases PAGES - a
  {
    if lists[a] != [] {
      b := a;
    } else {
      b := RunNeeds(outcome, s, lists, a + 1);
      var r := AllocRun(outcome, s, lists, a + 1);
      SplitNeeds(outcome, r.next, r.pages, r.st);
      OneSizeLess(lists, a, b);
    }
  }

  /** A split uses two structures; if they are not there, a page at least. */
  lemma {:induction false} SplitNeeds(outcome: nat -> Answer, s: nat, pages: nat, st: nat)
    requires SplitRun(outcome, s, pages, st).ok
    ensures var r := SplitRun(outcome, s, pages, st);
            if st >= 2 then r.st == st - 2 && r.pages == pages
            else pages > 0 && r.st == st + UTS_PER_PAGE - 2 && r.pages < pages
  {
  }

  lemma {:induction false} OneSizeLess(lists: seq<seq<nat>>, a: nat, b: nat)
    requires |lists| == LISTS && a < PAGES && lists[a] == [] && LeastFree(lists, a + 1, b)
    ensures LeastFree(lists, a, b)
  {
  }

  /** A kernel that answers Success from call s on. */
  ghost predicate Willing(outcome: nat -> Answer, s: nat) {
    forall n: nat :: n >= s ==> outcome(n) == Success
  }

  /** If it does, that is all it needs. */
  lemma {:induction false} RunSucceeds(outcome: nat -> Answer, s: nat, lists: seq<seq<nat>>, a: nat, b: nat)
    requires |lists| == LISTS && LeastFree(lists, a, b) && Enough(lists, a, b) && Willing(outcome, s)
    ensures AllocRun(outcome, s, lists, a).ok && AllocRun(outcome, s, lists, a).next >= s
    ensures Left(lists, a, b, AllocRun(outcome, s, lists, a))
    decreases PAGES - a
  {
    if a < b {
      RunSucceeds(outcome, s, lists, a + 1, b);
      var r := AllocRun(outcome, s, lists, a + 1);
      SplitSucceeds(outcome, r.next, r.pages, r.st);
    }
  }

  lemma {:induction false} SplitSucceeds(outcome: nat -> Answer, s: nat, pages: nat, st: nat)
    requires Willing(outcome, s) && (st >= 2 || pages > 0)
    ensures var r := SplitRun(outcome, s, pages, st);
            && r.ok && r.next >= s
            && if st >= 2 then r.st == st - 2 && r.pages == pages else r.st == st + UTS_PER_PAGE - 2 && r.pages == pages - 1
  {
    assert MapOutcome(outcome, s + 2, if pages > 0 then pages - 1 else 0) == Mapping(true, 0, 0, s + 3);
  }

  /**
   * With a kernel that always answers Success, allocation succeeds exactly if there is a free
   * block of the size or larger, and structures for the splits or a page for more.
   */
  lemma {:induction false} AllocExactly(outcome: nat -> Answer, s: nat, lists: seq<seq<nat>>, a: nat)
    requires |lists| == LISTS && a <= PAGES && Willing(outcome, s)
    ensures AllocRun(outcome, s, lists, a).ok <==> exists b :: LeastFree(lists, a, b) && Enough(lists, a, b)
  {
    if AllocRun(outcome, s, lists, a).ok {
      var b := RunNeeds(outcome, s, lists, a);
    }
    if b :| LeastFree(lists, a, b) && Enough(lists, a, b) {
      RunSucceeds(outcome, s, lists, a, b);
    }
  }

  /** From h to e the pages t to t' and so many slots were taken for good, and nothing else happened. */
  ghost predicate Consumed(h: Heap, t: nat, used: set<nat>, e: Heap, t': nat, used': set<nat>, slots: nat) {
    && Shaped(h) && Shaped(e) && OthersKept(h, e, {}) && e.lists == h.lists[PAGES := e.lists[PAGES]]
    && |e.lists[PAGES]| + (t' - t) == |h.lists[PAGES]|
    && t <= t' && FreeBytes(e) + PageBytes(t' - t) == FreeBytes(h)
    && used <= used' && |used'| == |used| + slots
  }

  lemma {:induction false} ConsumedNothing(h: Heap, t: nat, used: set<nat>)
    requires Shaped(h)
    ensures Consumed(h, t, used, h, t, used, 0)
  {
  }

  lemma {:induction false} ConsumedMore(h: Heap, t: nat, used: set<nat>, m: Heap, u: nat, v: set<nat>, slots: nat,
                                        e: Heap, t': nat, used': set<nat>, more: nat)
    requires Consumed(h, t, used, m, u, v, slots) && Consumed(m, u, v, e, t', used', more)
    ensures Consumed(h, t, used, e, t', used', slots + more)
  {
  }

  /** e is m with so many more structures. */
  ghost predicate Stocked(m: Heap, e: Heap, n: nat) {
    && Shaped(m) && Shaped(e) && OthersKept(m, e, {}) && FreeBytes(e) == FreeBytes(m)
    && e.lists == m.lists[STRUCTURES := e.lists[STRUCTURES]] && |e.lists[STRUCTURES]| == |m.lists[STRUCTURES]| + n
  }

  lemma {:induction false} StockedAfter(h: Heap, t: nat, used: set<nat>, m: Heap, u: nat, v: set<nat>, slots: nat, e: Heap, n: nat)
    requires Consumed(h, t, used, m, u, v, slots) && Stocked(m, e, n)
    ensures OthersKept(h, e, {}) && FreeBytes(e) + PageBytes(u - t) == FreeBytes(h) && used <= v && t <= u
    ensures e.lists == h.lists[PAGES := e.lists[PAGES]][STRUCTURES := e.lists[STRUCTURES]]
    ensures |e.lists[PAGES]| + (u - t) == |h.lists[PAGES]| && |e.lists[STRUCTURES]| == |h.lists[STRUCTURES]| + n
  {
  }

  /** Two blocks more on list a; of the others only pages and structures may have changed. */
  ghost predicate HalvesIn(l: seq<seq<nat>>, e: seq<seq<nat>>, a: nat) {
    && |l| == |e| == LISTS && a < PAGES && |e[a]| == |l[a]| + 2 && e[a][2..] == l[a]
    && forall b :: 0 <= b < PAGES && b != a ==> e[b] == l[b]
  }

  /** The block is back at the front of its list. */
  ghost predicate WholeBack(l: seq<seq<nat>>, e: seq<seq<nat>>, a: nat, larger: nat) {
    && |l| == |e| == LISTS && a <= PAGES && 0 < |e[a]| && e[a][0] == larger
    && (a < PAGES ==> e[a] == [larger] + l[a]) && forall b :: 0 <= b < PAGES && b != a ==> e[b] == l[b]
  }

  /** The first of the list has a capability in a slot newly taken. */
  ghost predicate FreshCap(mem: seq<Node>, s: seq<nat>, used: set<nat>, used': set<nat>) {
    s != [] && s[0] < |mem| && mem[s[0]].cap in used' && mem[s[0]].cap !in used
  }

  /** x left the spare structures, and on success has a new slot for a half of that size. */
  ghost predicate HalfTaken(ok: bool, h: Heap, used: set<nat>, m: Heap, used': set<nat>, x: nat, slot: nat, sizeBits: nat) {
    && Shaped(h) && Shaped(m) && OthersKept(h, m, {}) && h.lists[STRUCTURES] != [] && x < |m.mem| == |h.mem|
    && m.owner[x] == NONE && h.owner[x] == STRUCTURES
    && m.lists == h.lists[STRUCTURES := h.lists[STRUCTURES][1..]] && FreeBytes(m) == FreeBytes(h)
    && (forall y :: 0 <= y < |m.mem| && y != x ==> m.owner[y] == h.owner[y] && m.mem[y] == h.mem[y])
    && if ok then m.mem[x].sizeBits == sizeBits && m.mem[x].cap == slot && slot !in used && used' == used + {slot}
       else used' == used
  }

  /** What a split has made of larger: two halves in list a, with new capabilities, or the block back in the next list. */
  ghost predicate Divided(ok: bool, h: Heap, used: set<nat>, e: Heap, used': set<nat>, larger: nat, a: nat) {
    && Shaped(h) && Shaped(e) && OthersKept(h, e, {larger})
    && if ok then HalvesIn(h.lists, e.lists, a) && FreshCap(e.mem, e.lists[a], used, used') && used <= used'
       else WholeBack(h.lists, e.lists, a + 1, larger)
  }

  /** The end of a split; unless a delete failed, a failure gives back all structures and slots. */
  ghost predicate SplitEnds(ok: bool, h: Heap, used: set<nat>, stuck: nat, e: Heap, used': set<nat>, stuck': nat, larger: nat, a: nat) {
    && Divided(ok, h, used, e, used', larger, a) && FreeBytes(e) == FreeBytes(h) + Pow2(a + 1 + MIN_BITS)
    && if ok then e.lists[PAGES] == h.lists[PAGES] && |e.lists[STRUCTURES]| + 2 == |h.lists[STRUCTURES]|
       else stuck == stuck' ==> used' == used && |e.lists[STRUCTURES]| == |h.lists[STRUCTURES]|
  }

  /** Two structures were taken out, nothing else changed. */
  ghost predicate BothReady(h: Heap, n: Heap, x: nat, y: nat) {
    && Shaped(h) && Shaped(n) && OthersKept(h, n, {}) && n.lists == h.lists[STRUCTURES := n.lists[STRUCTURES]]
    && FreeBytes(n) == FreeBytes(h) && |h.lists[STRUCTURES]| == |n.lists[STRUCTURES]| + 2
    && x < |n.mem| && y < |n.mem| && x != y && n.owner[x] == NONE && n.owner[y] == NONE
  }

  /** Two structures and slots taken one after the other. */
  lemma {:induction false} BothTaken(ok: bool, h: Heap, used: set<nat>, m: Heap, u: set<nat>, n: Heap, v: set<nat>,
                                     x: nat, y: nat, slot1: nat, slot2: nat, sizeBits: nat, larger: nat)
    requires HalfTaken(true, h, used, m, u, x, slot1, sizeBits) && HalfTaken(ok, m, u, n, v, y, slot2, sizeBits)
    requires larger < |m.mem| && m.owner[larger] == OUT
    ensures BothReady(h, n, x, y) && n.owner[larger] == OUT && n.mem[larger] == m.mem[larger] && n.mem[x].sizeBits == sizeBits
    ensures slot1 !in used && slot1 in v && if ok then v == used + {slot1, slot2} && slot2 !in used && slot1 != slot2 else v == used + {slot1}
    ensures v - {slot1} == (if ok then used + {slot2} else used) && (ok ==> v - {slot1, slot2} == used)
  {
    assert m.owner[x] == NONE && m.owner[y] == STRUCTURES;
  }

  lemma {:induction false} HalvesDone(h: Heap, used: set<nat>, n: Heap, e: Heap, v: set<nat>, larger: nat, a: nat, x: nat, y: nat)
    requires Shaped(h) && Shaped(n) && Shaped(e) && OthersKept(h, n, {}) && OthersKept(n, e, {larger}) && a < PAGES
    requires n.lists == h.lists[STRUCTURES := n.lists[STRUCTURES]] && e.lists == n.lists[a := [y, x] + n.lists[a]]
    requires y < |e.mem| && e.mem[y].cap in v && e.mem[y].cap !in used
    ensures OthersKept(h, e, {larger}) && HalvesIn(h.lists, e.lists, a) && e.lists[PAGES] == h.lists[PAGES]
    ensures e.lists[STRUCTURES] == n.lists[STRUCTURES] && FreshCap(e.mem, e.lists[a], used, v)
  {
  }

  lemma {:induction false} WholeDone(h: Heap, n: Heap, e: Heap, larger: nat, a: nat, back: seq<nat>)
    requires Shaped(h) && Shaped(n) && Shaped(e) && OthersKept(h, n, {}) && OthersKept(n, e, {larger}) && a <= PAGES
    requires n.lists == h.lists[STRUCTURES := n.lists[STRUCTURES]]
    requires e.lists == n.lists[a := [larger] + n.lists[a]][STRUCTURES := back + n.lists[STRUCTURES]]
    ensures OthersKept(h, e, {larger}) && WholeBack(h.lists, e.lists, a, larger)
    ensures |e.lists[STRUCTURES]| == |n.lists[STRUCTURES]| + |back|
  {
  }

  lemma {:induction false} SplitRuns(ready: bool, ok: bool, outcome: nat -> Answer, s: nat, l: seq<seq<nat>>, t: nat,
                                     e: seq<seq<nat>>, t': nat, u: nat, f: seq<seq<nat>>, next: nat)
    requires |l| == |f| == LISTS && Refilled(EnsureOutcome(outcome, s, |l[PAGES]|, |l[STRUCTURES]|), l, t, ready, e, t', u)
    requires ready ==> (ok <==> outcome(u) == outcome(u + 1) == outcome(u + 2) == outcome(u + 3) == Success)
    requires ready && ok ==> next == u + 4 && f[PAGES] == e[PAGES] && |f[STRUCTURES]| + 2 == |e[STRUCTURES]|
    requires ready ==> (t' > t <==> |l[STRUCTURES]| < 2)
    requires ok ==> ready
    ensures RunLeads(SplitRun(outcome, s, |l[PAGES]|, |l[STRUCTURES]|), ok, f, next)
  {
  }

  /** A larger block and then a split. */
  lemma {:induction false} OneMoreSplit(outcome: nat -> Answer, s: nat, l: seq<seq<nat>>, a: nat, larger: bool,
                                        m: seq<seq<nat>>, t: nat, ok: bool, e: seq<seq<nat>>, next: nat)
    requires |l| == |m| == |e| == LISTS && a < PAGES && RunLeads(AllocRun(outcome, s, l, a + 1), larger, m, t)
    requires if larger then RunLeads(SplitRun(outcome, t, |m[PAGES]|, |m[STRUCTURES]|), ok, e, next) else !ok
    ensures l[a] == [] ==> RunLeads(AllocRun(outcome, s, l, a), ok, e, next)
  {
  }

  /** A split after a refill. */
  lemma {:induction false} SplitAfter(ok: bool, h: Heap, used: set<nat>, m: Heap, v: set<nat>, e: Heap, used': set<nat>, larger: nat, a: nat)
    requires Divided(ok, m, v, e, used', larger, a) && Shaped(h) && OthersKept(h, m, {}) && used <= v
    requires m.lists == h.lists[PAGES := m.lists[PAGES]][STRUCTURES := m.lists[STRUCTURES]]
    ensures Divided(ok, h, used, e, used', larger, a)
  {
  }

  /** The block back after a failed refill. */
  lemma {:induction false} WholeAgain(h: Heap, used: set<nat>, m: Heap, v: set<nat>, larger: nat, a: nat)
    requires Shaped(h) && Shaped(m) && OthersKept(h, m, {}) && larger < |m.mem| && 0 < a <= PAGES
    requires m.lists == h.lists[PAGES := m.lists[PAGES]][STRUCTURES := m.lists[STRUCTURES]]
    requires OthersKept(m, Pushed(m, a, larger), {larger})
    ensures var e := Pushed(m, a, larger);
            Divided(false, h, used, e, v, larger, a - 1) && e.lists[STRUCTURES] == m.lists[STRUCTURES]
  {
  }

  class UTTable {
    var mem: seq<Node>
    var free: seq<Link>         // free_untypeds
    var structures: Link        // free_structures
    ghost var lists: seq<seq<nat>>
    ghost var owner: seq<int>
    ghost var base: seq<nat>
    ghost var taken: nat        // pages taken for structures and page tables, and not given back

    ghost function Img(): Heap
      reads this
    {
      Heap(mem, free + [structures], lists, owner, base)
    }

    ghost predicate Ok()
      reads this
    {
      |free| == STRUCTURES && Valid(Img())
    }

    /** The empty table. */
    constructor ()
      ensures Ok() && FreeBytes(Img()) == 0 && taken == 0
    {
      mem, structures, owner, base, taken := [], Nil, [], [], 0;
      free := [Nil, Nil, Nil, Nil, Nil, Nil, Nil, Nil, Nil];
      lists := [[], [], [], [], [], [], [], [], [], []];
      new;
      assert forall a: nat :: a < LISTS ==> lists[a] == [];
      assert forall n: nat :: n <= STRUCTURES ==> BytesIn(lists, n) == 0 by { NothingFree(lists); }
    }

    /** push on a list of free untypeds; the list grows by the bytes of the untyped. */
    method PushFree(a: nat, x: nat)
      requires Ok() && a < STRUCTURES && x < |mem| && owner[x] == OUT && mem[x].sizeBits == a + MIN_BITS
      modifies this
      ensures Ok() && Img() == Pushed(old(Img()), a, x) && taken == old(taken) && free[a] == To(x)
      ensures FreeBytes(Img()) == FreeBytes(old(Img())) + Pow2(a + MIN_BITS)
    {
      ghost var h := Img();
      PushValid(h, a, x);
      PushBytes(h, a, x);
      mem := mem[x := mem[x].(next := free[a])];
      free := free[a := To(x)];
      lists, owner := lists[a := [x] + lists[a]], owner[x := a];
      assert free + [structures] == h.heads[a := To(x)];
    }

    method PushStructure(x: nat)
      requires Ok() && x < |mem| && owner[x] == NONE
      modifies this
      ensures Ok() && Img() == Pushed(old(Img()), STRUCTURES, x) && taken == old(taken)
      ensures FreeBytes(Img()) == FreeBytes(old(Img()))
    {
      ghost var h := Img();
      PushValid(h, STRUCTURES, x);
      PushBytes(h, STRUCTURES, x);
      mem := mem[x := mem[x].(next := structures)];
      structures := To(x);
      lists, owner := lists[STRUCTURES := [x] + lists[STRUCTURES]], owner[x := STRUCTURES];
      assert free + [structures] == h.heads[STRUCTURES := To(x)];
    }

    /** pop of a free untyped, which is handed out. */
    method PopFree(a: nat) returns (x: nat)
      requires Ok() && a < STRUCTURES && free[a] != Nil
      modifies this
      ensures Ok() && taken == old(taken) && mem == old(mem) && old(lists[a]) != [] && x == old(lists[a])[0] < |mem|
      ensures Img() == Popped(old(Img()), a) && old(owner)[x] == a && mem[x].sizeBits == a + MIN_BITS
      ensures FreeBytes(old(Img())) == FreeBytes(Img()) + Pow2(a + MIN_BITS)
    {
      ghost var h := Img();
      assert ListOk(h, a) && h.heads[a] == free[a];
      PopValid(h, a);
      PopBytes(h, a);
      x := free[a].node;
      free := free[a := mem[x].next];
      lists, owner := lists[a := lists[a][1..]], owner[x := OUT];
      assert free + [structures] == h.heads[a := mem[x].next];
    }

    method PopStructure() returns (x: nat)
      requires Ok() && lists[STRUCTURES] != []
      modifies this
      ensures Ok() && taken == old(taken) && mem == old(mem)
      ensures old(lists[STRUCTURES]) != [] && x == old(lists[STRUCTURES])[0] < |mem|
      ensures Img() == Popped(old(Img()), STRUCTURES) && old(owner)[x] == STRUCTURES
      ensures FreeBytes(old(Img())) == FreeBytes(Img())
    {
      ghost var h := Img();
      assert ListOk(h, STRUCTURES) && h.heads[STRUCTURES] == structures;
      PopValid(h, STRUCTURES);
      PopBytes(h, STRUCTURES);
      x := structures.node;
      structures := mem[x].next;
      lists, owner := lists[STRUCTURES := lists[STRUCTURES][1..]], owner[x := NONE];
      assert free + [structures] == h.heads[STRUCTURES := mem[x].next];
    }

    /** alloc_4k_untyped */
    method Alloc4k() returns (ok: bool, x: nat)
      requires Ok()
      modifies this
      ensures Ok() && taken == old(taken) && OthersKept(old(Img()), Img(), {})
      ensures ok ==> x < |mem| && owner[x] == OUT && mem[x].sizeBits == PAGE_BITS && lists[STRUCTURES] == old(lists[STRUCTURES])
      ensures ok ==> x < |old(mem)| && old(owner)[x] != OUT
      ensures ok <==> old(lists[PAGES]) != []
      ensures ok ==> x == old(lists[PAGES])[0] && Img() == Popped(old(Img()), PAGES)
      ensures ok ==> lists == old(lists)[PAGES := old(lists[PAGES])[1..]] && mem == old(mem)
      ensures FreeBytes(old(Img())) == FreeBytes(Img()) + if ok then Pow2(PAGE_BITS) else 0
      ensures !ok ==> Img() == old(Img())
    {
      assert ListOk(Img(), PAGES) && Img().heads[PAGES] == free[PAGES];
      ok, x := free[PAGE_BITS - MIN_BITS] != Nil, 0;
      if ok {
        x := PopFree(PAGE_BITS - MIN_BITS);
      }
    }

    /** free */
    method Free(x: nat)
      requires Ok() && x < |mem| && owner[x] == OUT && MIN_BITS <= mem[x].sizeBits <= PAGE_BITS
      modifies this
      ensures Ok() && taken == old(taken) && OthersKept(old(Img()), Img(), {x})
      ensures Img() == Pushed(old(Img()), old(mem[x].sizeBits) - MIN_BITS, x)
      ensures FreeBytes(Img()) == FreeBytes(old(Img())) + Pow2(old(mem[x].sizeBits))
    {
      PushFree(mem[x].sizeBits - MIN_BITS, x);
    }

    /** The structures of a new page. */
    method AddStructures()
      requires Ok()
      modifies this
      ensures Ok() && taken == old(taken) && Stocked(old(Img()), Img(), UTS_PER_PAGE)
    {
      ghost var h := Img();
      ExtendedValid(h, UTS_PER_PAGE);
      var first := |mem|;
      mem := mem + seq(UTS_PER_PAGE, _ => Node(0, false, 0, Nil));
      owner, base := owner + seq(UTS_PER_PAGE, _ => NONE), base + seq(UTS_PER_PAGE, _ => 0);
      ghost var e := Img();
      assert e == Extended(h, UTS_PER_PAGE);
      for i := 0 to UTS_PER_PAGE
        invariant Ok() && taken == old(taken) && |mem| == first + UTS_PER_PAGE && Stocked(h, Img(), i)
        invariant forall x :: first + i <= x < |mem| ==> owner[x] == NONE
      {
        PushStructure(first + i);
      }
    }

    /** retype_map_pt, and map the frame again if it went well. */
    method MapAgain(k: Kernel) returns (r: Answer)
      requires k.Valid()
      modifies k`served
      ensures k.Valid() && r == AfterTable(k.outcome, old(k.served)).answer
      ensures k.served == AfterTable(k.outcome, old(k.served)).next
    {
      r := k.Call();   // retype into a page table
      if r == Success {
        r := k.Call();   // map the page table
      }
      if r == Success {
        r := k.Call();   // map the frame
      }
    }

    /** A page that is kept, whatever follows. */
    method TakePage(ghost used: set<nat>) returns (ok: bool)
      requires Ok()
      modifies this
      ensures Ok() && Consumed(old(Img()), old(taken), used, Img(), taken, used, 0)
      ensures ok == (old(lists[PAGES]) != []) && taken == old(taken) + (if ok then 1 else 0)
      ensures |lists[PAGES]| + (if ok then 1 else 0) == |old(lists[PAGES])|
    {
      var x;
      ok, x := Alloc4k();
      PowPage();
      if ok {
        taken := taken + 1;
      }
    }

    /** A page and a slot for one more page table; a page that gets no slot is lost. */
    method TakeTable(k: Kernel) returns (ok: bool, ghost slots: nat)
      requires Ok() && k.Valid()
      modifies this, k
      ensures Ok() && k.Valid() && k.stuck == old(k.stuck)
      ensures Consumed(old(Img()), old(taken), old(k.used), Img(), taken, k.used, slots)
      ensures old(lists[PAGES]) == [] ==> !ok && taken == old(taken) && slots == 0 && k.served == old(k.served)
      ensures old(lists[PAGES]) != [] ==>
                && taken == old(taken) + 1 && |lists[PAGES]| == |old(lists[PAGES])| - 1 && k.served == old(k.served) + 1
                && ok == (k.outcome(old(k.served)) == Success) && slots == if ok then 1 else 0
    {
      slots := 0;
      var slot;
      ok := TakePage(k.used);
      if ok {
        ok, slot := k.AllocSlot();
        slots := if ok then 1 else 0;
      }
    }

    /** A turn of the loop of map_frame. */
    method AddTable(k: Kernel, ghost goal: Mapping, ghost left: nat, ghost h: Heap, ghost t: nat, ghost used: set<nat>,
                    ghost slots: nat)
      returns (stop: bool, r: Answer, ghost all: nat)
      requires Ok() && k.Valid() && Consumed(h, t, used, Img(), taken, k.used, slots)
      requires left > 0 && OnTrack(goal, taken - t, slots, k.outcome, k.served, |lists[PAGES]|, left, FailedLookup)
      modifies this, k
      ensures Ok() && k.Valid() && k.stuck == old(k.stuck)
      ensures Consumed(h, t, used, Img(), taken, k.used, all)
      ensures if stop then goal == Mapping(false, taken - t, all, k.served)
              else OnTrack(goal, taken - t, all, k.outcome, k.served, |lists[PAGES]|, left - 1, r)
    {
      ghost var m, u, v := Img(), taken, k.used;
      NextTable(goal, taken - t, slots, k.outcome, k.served, |lists[PAGES]|, left);
      ghost var more: nat;
      var ok;
      ok, more := TakeTable(k);
      ConsumedMore(h, t, used, m, u, v, slots, Img(), taken, k.used, more);
      stop, r, all := !ok, FailedLookup, slots + more;
      if ok {
        r := MapAgain(k);
      }
    }

    /**
     * map_frame: up to three page tables are added while the mapping answers that one is missing.
     * Their pages and slots are never given back, whether the frame is mapped in the end or not.
     */
    method MapFrame(k: Kernel) returns (ok: bool)
      requires Ok() && k.Valid()
      modifies this, k
      ensures Ok() && k.Valid() && k.stuck == old(k.stuck)
      ensures var m := MapOutcome(k.outcome, old(k.served), |old(lists[PAGES])|);
              && ok == m.ok && taken == old(taken) + m.pages && k.served == m.next
              && Consumed(old(Img()), old(taken), old(k.used), Img(), taken, k.used, m.slots)
    {
      ghost var goal := MapOutcome(k.outcome, k.served, |lists[PAGES]|);
      MapStarts(k.outcome, k.served, |lists[PAGES]|);
      ConsumedNothing(Img(), taken, k.used);
      var err := k.Call();   // map the frame
      ok := AddTables(k, err, goal, Img(), taken, k.used);
    }

    /** The loop of map_frame. */
    method AddTables(k: Kernel, first: Answer, ghost goal: Mapping, ghost h: Heap, ghost t: nat, ghost used: set<nat>)
      returns (ok: bool)
      requires Ok() && k.Valid() && Consumed(h, t, used, Img(), taken, k.used, 0) && t == taken
      requires OnTrack(goal, 0, 0, k.outcome, k.served, |lists[PAGES]|, MAPPING_SLOTS, first)
      modifies this, k
      ensures Ok() && k.Valid() && k.stuck == old(k.stuck)
      ensures Consumed(h, t, used, Img(), taken, k.used, goal.slots)
      ensures ok == goal.ok && taken == t + goal.pages && k.served == goal.next
    {
      var err, i: nat := first, 0;
      ghost var slots, left: nat := 0, MAPPING_SLOTS;
      while i < MAPPING_SLOTS && err == FailedLookup
        invariant Ok() && k.Valid() && k.stuck == old(k.stuck) && i + left == MAPPING_SLOTS
        invariant Consumed(h, t, used, Img(), taken, k.used, slots)
        invariant OnTrack(goal, taken - t, slots, k.outcome, k.served, |lists[PAGES]|, left, err)
      {
        var stop;
        stop, err, slots := AddTable(k, goal, left, h, t, used, slots);
        if stop {
          return false;
        }
        i, left := i + 1, left - 1;
      }
      ok := err == Success;
    }

    /** ensure_new_structures: at least two spare structures, from a page of memory if need be. */
    method EnsureNewStructures(k: Kernel) returns (ok: bool)
      requires Ok() && k.Valid()
      modifies this, k
      ensures Ok() && k.Valid() && k.stuck == old(k.stuck) && OthersKept(old(Img()), Img(), {})
      ensures ok ==> |lists[STRUCTURES]| >= 2
      ensures old(taken) <= taken <= old(taken) + 1 + MAPPING_SLOTS && (taken == old(taken) ==> k.used == old(k.used))
      ensures FreeBytes(Img()) + PageBytes(taken - old(taken)) == FreeBytes(old(Img()))
      ensures taken > old(taken) <==> |old(lists[STRUCTURES])| < 2 && old(lists[PAGES]) != []
      ensures old(k.used) <= k.used
      ensures Refilled(EnsureOutcome(k.outcome, old(k.served), |old(lists[PAGES])|, |old(lists[STRUCTURES])|),
                       old(lists), old(taken), ok, lists, taken, k.served)
    {
      StructuresLinked();
      ok := true;
      if structures == Nil || mem[structures.node].next == Nil {
        ok := NewStructures(k);
      }
    }

    /** A slot for a page of structures, the retype and the mapping; nothing of it is given back on a failure. */
    method StructuresFrame(k: Kernel) returns (ok: bool)
      requires Ok() && k.Valid()
      modifies this, k
      ensures Ok() && k.Valid() && k.stuck == old(k.stuck)
      ensures var m := PageOutcome(k.outcome, old(k.served), |old(lists[PAGES])|);
              && ok == m.ok && taken == old(taken) + m.pages && m.pages <= MAPPING_SLOTS && k.served == m.next
              && Consumed(old(Img()), old(taken), old(k.used), Img(), taken, k.used, m.slots)
    {
      var slot;
      ok, slot := k.AllocSlot();
      if ok {
        var r := k.Call();   // retype into a frame
        if r != Success {
          return false;
        }
        MapBounds(k.outcome, k.served, |lists[PAGES]|);
        ok := MapFrame(k);
      }
    }

    /** A page of structures. */
    method NewStructures(k: Kernel) returns (ok: bool)
      requires Ok() && k.Valid()
      modifies this, k
      ensures Ok() && k.Valid() && k.stuck == old(k.stuck) && OthersKept(old(Img()), Img(), {})
      ensures ok ==> |lists[STRUCTURES]| == |old(lists[STRUCTURES])| + 128
      ensures old(taken) <= taken <= old(taken) + 1 + MAPPING_SLOTS && (taken == old(taken) ==> k.used == old(k.used))
      ensures FreeBytes(Img()) + PageBytes(taken - old(taken)) == FreeBytes(old(Img()))
      ensures taken > old(taken) <==> old(lists[PAGES]) != []
      ensures (ok ==> taken > old(taken)) && old(k.used) <= k.used
      ensures Refilled(RefillOutcome(k.outcome, old(k.served), |old(lists[PAGES])|), old(lists), old(taken),
                       ok, lists, taken, k.served)
    {
      ghost var h, t, used := Img(), taken, k.used;
      ok := TakePage(used);
      if !ok {
        return;
      }
      ghost var m, u := Img(), taken;
      ghost var f := PageOutcome(k.outcome, k.served, |lists[PAGES]|);
      ok := StructuresFrame(k);
      ConsumedMore(h, t, used, m, u, used, 0, Img(), taken, k.used, f.slots);
      m := Img();
      if ok {
        AddStructures();
      }
      StockedAfter(h, t, used, m, taken, k.used, f.slots, Img(), if ok then UTS_PER_PAGE else 0);
    }

    /** A list is empty exactly if its head is. */
    lemma {:induction false} FreeLinked(a: nat)
      requires Ok() && a < STRUCTURES
      ensures |lists| == LISTS && (free[a] == Nil <==> lists[a] == [])
    {
      assert ListOk(Img(), a) && Img().heads[a] == free[a];
    }

    /** The test of ensure_new_structures tells whether fewer than two are left. */
    lemma {:induction false} StructuresLinked()
      requires Ok()
      ensures structures == Nil <==> lists[STRUCTURES] == []
      ensures structures != Nil ==> structures.node < |mem| && (mem[structures.node].next == Nil <==> |lists[STRUCTURES]| == 1)
    {
      var s := lists[STRUCTURES];
      assert ListOk(Img(), STRUCTURES) && Img().heads[STRUCTURES] == structures;
      if s != [] {
        assert Chain(mem, mem[s[0]].next, s[1..]);
      }
    }

    /** cap and size_bits of a spare structure. */
    method SetCap(x: nat, cap: nat, sizeBits: nat)
      requires Ok() && x < |mem| && owner[x] == NONE
      modifies this`mem
      ensures Ok() && Img() == WithCap(old(Img()), x, cap, sizeBits)
    {
      ghost var h := Img();
      WithCapValid(h, x, cap, sizeBits);
      mem := mem[x := mem[x].(cap := cap, sizeBits := sizeBits)];
      assert Img() == WithCap(h, x, cap, sizeBits);
    }

    /** The kernel has split `larger`: its halves belong to x and y. */
    ghost method Halve(larger: nat, x: nat, y: nat, sizeBits: nat)
      requires Ok() && larger < |mem| && x < |mem| && y < |mem| && x != y
      requires owner[larger] == OUT && owner[x] == NONE && owner[y] == NONE
      requires mem[larger].sizeBits == sizeBits + 1 && mem[x].sizeBits == sizeBits == mem[y].sizeBits
      modifies this`owner, this`base
      ensures Ok() && Img() == Halved(old(Img()), larger, x, y, sizeBits)
    {
      HalvedValid(Img(), larger, x, y, sizeBits);
      ghost var h := Img();
      owner := owner[larger := NONE][x := OUT][y := OUT];
      base := base[x := base[larger]][y := h.base[larger] + Pow2(sizeBits)];
      assert Img() == Halved(h, larger, x, y, sizeBits);
    }

    /** A spare structure with a slot, for one half. */
    method TakeHalf(k: Kernel, sizeBits: nat) returns (ok: bool, x: nat, slot: nat)
      requires Ok() && k.Valid() && lists[STRUCTURES] != []
      modifies this, k
      ensures Ok() && k.Valid() && k.stuck == old(k.stuck) && taken == old(taken)
      ensures HalfTaken(ok, old(Img()), old(k.used), Img(), k.used, x, slot, sizeBits)
      ensures k.served == old(k.served) + 1 && (ok <==> k.outcome(old(k.served)) == Success)
    {
      x := PopStructure();
      ok, slot := k.AllocSlot();
      if ok {
        SetCap(x, slot, sizeBits);
      }
    }

    /** After a failed split: the larger untyped and the structures taken for the halves go back. */
    method GiveBack(larger: nat, x: nat, y: nat, both: bool)
      requires Ok() && larger < |mem| && owner[larger] == OUT && MIN_BITS <= mem[larger].sizeBits <= PAGE_BITS
      requires x < |mem| && owner[x] == NONE && (both ==> y < |mem| && owner[y] == NONE && x != y)
      modifies this
      ensures Ok() && taken == old(taken) && OthersKept(old(Img()), Img(), {larger})
      ensures FreeBytes(Img()) == FreeBytes(old(Img())) + Pow2(old(mem[larger].sizeBits))
      ensures var a := old(mem[larger].sizeBits) - MIN_BITS;
              lists == old(lists)[a := [larger] + old(lists)[a]][STRUCTURES := (if both then [y, x] else [x]) + old(lists)[STRUCTURES]]
    {
      ghost var l, a := lists, mem[larger].sizeBits - MIN_BITS;
      Free(larger);
      assert lists == l[a := [larger] + l[a]] by { assert Img().lists == lists; }
      PushBoth(x, y, both);
    }

    /** The structures of a failed split. */
    method PushBoth(x: nat, y: nat, both: bool)
      requires Ok() && x < |mem| && owner[x] == NONE && (both ==> y < |mem| && owner[y] == NONE && x != y)
      modifies this
      ensures Ok() && taken == old(taken) && OthersKept(old(Img()), Img(), {}) && FreeBytes(Img()) == FreeBytes(old(Img()))
      ensures lists == old(lists)[STRUCTURES := (if both then [y, x] else [x]) + old(lists)[STRUCTURES]]
    {
      ghost var l, s := lists, lists[STRUCTURES];
      PushStructure(x);
      assert lists == l[STRUCTURES := [x] + s] by { assert Img().lists == lists; }
      if both {
        assert [y] + ([x] + s) == [y, x] + s;
        PushStructure(y);
        assert lists == l[STRUCTURES := [y, x] + s] by { assert Img().lists == lists; }
      }
    }

    /** The kernel calls of a split: two retypes, the first undone if the second fails. */
    method Retype(k: Kernel, slot1: nat, slot2: nat) returns (ok: bool, keep: bool)
      requires k.Valid() && slot1 in k.used && slot2 in k.used && slot1 != slot2
      modifies k
      ensures k.Valid() && (ok ==> k.used == old(k.used) && k.stuck == old(k.stuck))
      ensures !ok ==> (keep <==> k.stuck != old(k.stuck)) && (!keep ==> k.used == old(k.used) - {slot1, slot2})
      ensures ok <==> k.outcome(old(k.served)) == k.outcome(old(k.served) + 1) == Success
      ensures ok ==> k.served == old(k.served) + 2
    {
      keep := false;
      var r := k.Call();
      ok := r == Success;
      if ok {
        r := k.Call();
        ok := r == Success;
        if !ok {
          var deleted := k.Delete();
          keep := !deleted;
        }
      }
      if !ok && !keep {
        k.FreeSlot(slot1);
        k.FreeSlot(slot2);
      }
    }

    /** The second half of a split, once the first has its structure and slot. */
    method SplitInTwo(k: Kernel, larger: nat, x: nat, slot1: nat, sizeBits: nat, ghost h: Heap, ghost used: set<nat>)
      returns (ok: bool)
      requires Ok() && k.Valid() && MIN_BITS <= sizeBits < PAGE_BITS && lists[STRUCTURES] != []
      requires larger < |mem| && owner[larger] == OUT && mem[larger].sizeBits == sizeBits + 1
      requires HalfTaken(true, h, used, Img(), k.used, x, slot1, sizeBits)
      modifies this, k
      ensures Ok() && k.Valid() && taken == old(taken)
      ensures SplitEnds(ok, h, used, old(k.stuck), Img(), k.used, k.stuck, larger, sizeBits - MIN_BITS)
      ensures var t := old(k.served);
              && (ok <==> k.outcome(t) == k.outcome(t + 1) == k.outcome(t + 2) == Success) && (ok ==> k.served == t + 3)
    {
      ghost var m, u := Img(), k.used;
      var y, slot2;
      ok, y, slot2 := TakeHalf(k, sizeBits);
      ghost var n := Img();
      BothTaken(ok, h, used, m, u, n, k.used, x, y, slot1, slot2, sizeBits, larger);
      if ok {
        ok := RetypeHalves(k, larger, x, y, slot1, slot2, sizeBits, h, used);
      } else {
        k.FreeSlot(slot1);
        BothBack(larger, x, y, true, h, used, k.used);
      }
    }

    /** The retypes of a split, once both halves have structures and slots. */
    method RetypeHalves(k: Kernel, larger: nat, x: nat, y: nat, slot1: nat, slot2: nat, sizeBits: nat,
                        ghost h: Heap, ghost used: set<nat>)
      returns (ok: bool)
      requires Ok() && k.Valid() && MIN_BITS <= sizeBits < PAGE_BITS && BothReady(h, Img(), x, y)
      requires larger < |mem| && owner[larger] == OUT && mem[larger].sizeBits == sizeBits + 1
      requires mem[x].sizeBits == sizeBits == mem[y].sizeBits && mem[y].cap == slot2
      requires k.used == used + {slot1, slot2} && slot1 !in used && slot2 !in used && slot1 != slot2
      modifies this, k
      ensures Ok() && k.Valid() && taken == old(taken)
      ensures SplitEnds(ok, h, used, old(k.stuck), Img(), k.used, k.stuck, larger, sizeBits - MIN_BITS)
      ensures var t := old(k.served);
              && (ok <==> k.outcome(t) == k.outcome(t + 1) == Success) && (ok ==> k.served == t + 2)
    {
      assert used + {slot1, slot2} - {slot1, slot2} == used;
      var keep;
      ok, keep := Retype(k, slot1, slot2);
      if ok {
        FreeHalves(larger, x, y, sizeBits, h, used, k.used);
      } else {
        BothBack(larger, x, y, !keep, h, used, k.used);
      }
    }

    /** A failed split, once both structures are taken. */
    method BothBack(larger: nat, x: nat, y: nat, both: bool, ghost h: Heap, ghost used: set<nat>, ghost v: set<nat>)
      requires Ok() && larger < |mem| && owner[larger] == OUT && MIN_BITS < mem[larger].sizeBits <= PAGE_BITS
      requires BothReady(h, Img(), x, y)
      modifies this
      ensures Ok() && taken == old(taken)
      ensures Divided(false, h, used, Img(), v, larger, old(mem[larger].sizeBits) - MIN_BITS - 1)
      ensures FreeBytes(Img()) == FreeBytes(h) + Pow2(old(mem[larger].sizeBits))
      ensures both ==> |lists[STRUCTURES]| == |h.lists[STRUCTURES]|
    {
      ghost var n, a := Img(), mem[larger].sizeBits - MIN_BITS;
      GiveBack(larger, x, y, both);
      WholeDone(h, n, Img(), larger, a, if both then [y, x] else [x]);
    }

    /** The kernel has split `larger`; both halves are free. */
    method FreeHalves(larger: nat, x: nat, y: nat, sizeBits: nat, ghost h: Heap, ghost used: set<nat>, ghost v: set<nat>)
      requires Ok() && MIN_BITS <= sizeBits < PAGE_BITS && BothReady(h, Img(), x, y)
      requires larger < |mem| && owner[larger] == OUT
      requires mem[larger].sizeBits == sizeBits + 1 && mem[x].sizeBits == sizeBits == mem[y].sizeBits
      requires mem[y].cap in v && mem[y].cap !in used && used <= v
      modifies this
      ensures Ok() && taken == old(taken)
      ensures Divided(true, h, used, Img(), v, larger, sizeBits - MIN_BITS)
      ensures FreeBytes(Img()) == FreeBytes(h) + Pow2(sizeBits + 1)
      ensures lists[PAGES] == h.lists[PAGES] && |lists[STRUCTURES]| + 2 == |h.lists[STRUCTURES]|
    {
      ghost var n := Img();
      TwoFree(larger, x, y, sizeBits);
      HalvesDone(h, used, n, Img(), v, larger, sizeBits - MIN_BITS, x, y);
    }

    method TwoFree(larger: nat, x: nat, y: nat, sizeBits: nat)
      requires Ok() && MIN_BITS <= sizeBits < PAGE_BITS
      requires larger < |mem| && x < |mem| && y < |mem| && x != y
      requires owner[larger] == OUT && owner[x] == NONE && owner[y] == NONE
      requires mem[larger].sizeBits == sizeBits + 1 && mem[x].sizeBits == sizeBits == mem[y].sizeBits
      modifies this
      ensures Ok() && OthersKept(old(Img()), Img(), {larger}) && taken == old(taken)
      ensures FreeBytes(Img()) == FreeBytes(old(Img())) + Pow2(sizeBits + 1)
      ensures |mem| == |old(mem)| && mem[y].cap == old(mem[y].cap)
      ensures lists == old(lists)[sizeBits - MIN_BITS := [y, x] + old(lists)[sizeBits - MIN_BITS]]
    {
      Halve(larger, x, y, sizeBits);
      ghost var l, s := Img().lists, lists[sizeBits - MIN_BITS];
      PushFree(sizeBits - MIN_BITS, x);
      assert lists == l[sizeBits - MIN_BITS := [x] + s] by { assert Img().lists == lists; }
      assert [y] + ([x] + s) == [y, x] + s;
      PushFree(sizeBits - MIN_BITS, y);
      assert lists == l[sizeBits - MIN_BITS := [y, x] + s] by { assert Img().lists == lists; }
    }

    /** Splitting an untyped of the next size; it goes back whole if anything fails. */
    method Split(k: Kernel, larger: nat, sizeBits: nat) returns (ok: bool)
      requires Ok() && k.Valid() && MIN_BITS <= sizeBits < PAGE_BITS
      requires larger < |mem| && owner[larger] == OUT && mem[larger].sizeBits == sizeBits + 1
      modifies this, k
      ensures Ok() && k.Valid() && old(taken) <= taken
      ensures FreeBytes(Img()) + PageBytes(taken - old(taken)) == FreeBytes(old(Img())) + Pow2(sizeBits + 1)
      ensures !ok && taken == old(taken) && k.stuck == old(k.stuck) ==> k.used == old(k.used)
      ensures |lists| == LISTS && RunLeads(SplitRun(k.outcome, old(k.served), |old(lists[PAGES])|, |old(lists[STRUCTURES])|),
                                           ok, lists, k.served)
      ensures Divided(ok, old(Img()), old(k.used), Img(), k.used, larger, sizeBits - MIN_BITS)
      ensures !ok && k.stuck == old(k.stuck) ==> |lists[STRUCTURES]| >= |old(lists[STRUCTURES])|
    {
      ghost var h, used, s := Img(), k.used, k.served;
      ok := EnsureNewStructures(k);
      ghost var m, ready, u := Img(), ok, k.served;
      if ok {
        ok := SplitMore(k, larger, sizeBits, h, used);
      } else {
        FreeWhole(larger, h, used, k.used);
      }
      SplitRuns(ready, ok, k.outcome, s, h.lists, old(taken), m.lists, taken, u, lists, k.served);
    }

    /** The block goes back, as the refill failed. */
    method FreeWhole(larger: nat, ghost h: Heap, ghost used: set<nat>, ghost v: set<nat>)
      requires Ok() && larger < |mem| && owner[larger] == OUT && MIN_BITS < mem[larger].sizeBits <= PAGE_BITS
      requires Shaped(h) && OthersKept(h, Img(), {})
      requires lists == h.lists[PAGES := lists[PAGES]][STRUCTURES := lists[STRUCTURES]]
      modifies this
      ensures Ok() && taken == old(taken) && lists[STRUCTURES] == old(lists[STRUCTURES])
      ensures Divided(false, h, used, Img(), v, larger, old(mem[larger].sizeBits) - MIN_BITS - 1)
      ensures FreeBytes(Img()) == FreeBytes(old(Img())) + Pow2(old(mem[larger].sizeBits))
    {
      ghost var m, a := Img(), mem[larger].sizeBits - MIN_BITS;
      Free(larger);
      WholeAgain(h, used, m, v, larger, a);
    }

    /** The split after a refill. */
    method SplitMore(k: Kernel, larger: nat, sizeBits: nat, ghost h: Heap, ghost used: set<nat>) returns (ok: bool)
      requires Ok() && k.Valid() && MIN_BITS <= sizeBits < PAGE_BITS && |lists[STRUCTURES]| >= 2
      requires larger < |mem| && owner[larger] == OUT && mem[larger].sizeBits == sizeBits + 1
      requires Shaped(h) && OthersKept(h, Img(), {}) && used <= k.used
      requires lists == h.lists[PAGES := lists[PAGES]][STRUCTURES := lists[STRUCTURES]]
      modifies this, k
      ensures Ok() && k.Valid() && old(taken) == taken
      ensures Divided(ok, h, used, Img(), k.used, larger, sizeBits - MIN_BITS)
      ensures FreeBytes(Img()) == FreeBytes(old(Img())) + Pow2(sizeBits + 1)
      ensures if ok then lists[PAGES] == old(lists[PAGES]) && |lists[STRUCTURES]| + 2 == |old(lists[STRUCTURES])|
              else k.stuck == old(k.stuck) ==> k.used == old(k.used) && |lists[STRUCTURES]| == |old(lists[STRUCTURES])|
      ensures var t := old(k.served);
              && (ok <==> k.outcome(t) == k.outcome(t + 1) == k.outcome(t + 2) == k.outcome(t + 3) == Success)
              && (ok ==> k.served == t + 4)
    {
      ghost var m, v := Img(), k.used;
      ok := SplitBlock(k, larger, sizeBits);
      SplitAfter(ok, h, used, m, v, Img(), k.used, larger, sizeBits - MIN_BITS);
    }

    /** The split, with two structures at hand. */
    method SplitBlock(k: Kernel, larger: nat, sizeBits: nat) returns (ok: bool)
      requires Ok() && k.Valid() && MIN_BITS <= sizeBits < PAGE_BITS && |lists[STRUCTURES]| >= 2
      requires larger < |mem| && owner[larger] == OUT && mem[larger].sizeBits == sizeBits + 1
      modifies this, k
      ensures Ok() && k.Valid() && old(taken) == taken
      ensures SplitEnds(ok, old(Img()), old(k.used), old(k.stuck), Img(), k.used, k.stuck, larger, sizeBits - MIN_BITS)
      ensures var t := old(k.served);
              && (ok <==> k.outcome(t) == k.outcome(t + 1) == k.outcome(t + 2) == k.outcome(t + 3) == Success)
              && (ok ==> k.served == t + 4)
    {
      ghost var h, used := Img(), k.used;
      var x, slot;
      ok, x, slot := TakeHalf(k, sizeBits);
      ghost var m := Img();
      if ok {
        ok := SplitInTwo(k, larger, x, slot, sizeBits, h, used);
      } else {
        GiveBack(larger, x, 0, false);
        WholeDone(h, m, Img(), larger, sizeBits + 1 - MIN_BITS, [x]);
      }
    }

    /**
     * alloc.  The bytes of the free lists change by exactly what is handed out and what was taken
     * for structures and page tables: a failure that took no page leaves them as they were.
     */
    method Alloc(k: Kernel, sizeBits: nat) returns (res: AllocResult)
      requires Ok() && k.Valid()
      modifies this, k
      ensures Ok() && k.Valid() && OthersKept(old(Img()), Img(), {}) && old(taken) <= taken
      ensures res == InvalidArgument <==> sizeBits > PAGE_BITS || sizeBits < MIN_BITS
      ensures res == InvalidArgument ==> Img() == old(Img()) && taken == old(taken)
      ensures FreeBytes(Img()) + PageBytes(taken - old(taken)) + Given(res, sizeBits) == FreeBytes(old(Img()))
      ensures res.Allocated? ==> HandedOut(old(Img()), Img(), res.ut, sizeBits)
      ensures |old(lists)| == |lists| == LISTS
      ensures MIN_BITS <= sizeBits <= PAGE_BITS ==>
                var a := sizeBits - MIN_BITS;
                && RunLeads(AllocRun(k.outcome, old(k.served), old(lists), a), res.Allocated?, lists, k.served)
                && (old(lists)[a] != [] ==>
                      && res == Allocated(old(lists)[a][0]) && lists == old(lists)[a := old(lists)[a][1..]]
                      && mem == old(mem) && taken == old(taken) && k.used == old(k.used))
                && (old(lists)[a] == [] && res.Allocated? ==>
                      mem[res.ut].cap in k.used && mem[res.ut].cap !in old(k.used) && old(k.used) <= k.used)
      decreases if sizeBits <= PAGE_BITS then PAGE_BITS - sizeBits else 0, 0
    {
      if sizeBits > PAGE_BITS || sizeBits < MIN_BITS {
        return InvalidArgument;
      }
      if sizeBits == PAGE_BITS {
        var ok, x := Alloc4k();
        return if ok then Allocated(x) else NotEnoughMemory;
      }
      ghost var h := Img();
      FreeLinked(sizeBits - MIN_BITS);
      if free[sizeBits - MIN_BITS] == Nil {
        var ok := MakeFree(k, sizeBits);
        if !ok {
          return NotEnoughMemory;
        }
      } else {
        KeptSame(h);
      }
      var x := TakeFree(sizeBits, h);
      res := Allocated(x);
    }

    /** An untyped of the next size, split. */
    method MakeFree(k: Kernel, sizeBits: nat) returns (ok: bool)
      requires Ok() && k.Valid() && MIN_BITS <= sizeBits < PAGE_BITS
      modifies this, k
      ensures Ok() && k.Valid() && OthersKept(old(Img()), Img(), {}) && old(taken) <= taken
      ensures FreeBytes(Img()) + PageBytes(taken - old(taken)) == FreeBytes(old(Img()))
      ensures |old(lists)| == |lists| == LISTS
      ensures old(lists)[sizeBits - MIN_BITS] == [] ==>
                RunLeads(AllocRun(k.outcome, old(k.served), old(lists), sizeBits - MIN_BITS), ok, lists, k.served)
      ensures ok ==> lists[sizeBits - MIN_BITS] != []
                     && FreshCap(mem, lists[sizeBits - MIN_BITS], old(k.used), k.used) && old(k.used) <= k.used
      decreases PAGE_BITS - sizeBits - 1, 1
    {
      ghost var h, s, a := Img(), k.served, sizeBits - MIN_BITS;
      var larger := Alloc(k, sizeBits + 1);
      ok := larger.Allocated?;
      ghost var m, t := Img(), k.served;
      if ok {
        ok := Split(k, larger.ut, sizeBits);
        KeptTransitive(h, m, Img(), larger.ut);
      }
      OneMoreSplit(k.outcome, s, h.lists, a, larger.Allocated?, m.lists, t, ok, lists, k.served);
    }

    /** The pop at the end of alloc. */
    method TakeFree(sizeBits: nat, ghost h: Heap) returns (x: nat)
      requires Ok() && MIN_BITS <= sizeBits < PAGE_BITS && |lists| == LISTS && lists[sizeBits - MIN_BITS] != []
      requires Valid(h) && OthersKept(h, Img(), {})
      modifies this
      ensures Ok() && taken == old(taken) && OthersKept(h, Img(), {}) && HandedOut(h, Img(), x, sizeBits)
      ensures FreeBytes(old(Img())) == FreeBytes(Img()) + Pow2(sizeBits)
      ensures var a := sizeBits - MIN_BITS;
              |old(lists)| == LISTS && old(lists)[a] != [] && x == old(lists)[a][0] && lists == old(lists)[a := old(lists)[a][1..]]
      ensures mem == old(mem)
    {
      ghost var m := Img();
      FreeLinked(sizeBits - MIN_BITS);
      x := PopFree(sizeBits - MIN_BITS);
      KeptPopped(h, m, sizeBits - MIN_BITS);
    }

    /** One page of memory at address paddr, whose untyped is in slot cap. */
    method AddPage(cap: nat, paddr: nat, ghost hi: nat)
      requires Ok() && Clear(Img(), paddr, hi) && paddr + PAGE_SIZE <= hi
      modifies this
      ensures Ok() && taken == old(taken) && Clear(Img(), paddr + PAGE_SIZE, hi)
      ensures Img() == Pushed(WithPage(old(Img()), cap, paddr), PAGES, |old(mem)|)
      ensures FreeBytes(Img()) == FreeBytes(old(Img())) + PAGE_SIZE
    {
      ghost var h := Img();
      var x := |mem|;
      PowPage();
      PageValid(h, cap, paddr, hi);
      mem := mem + [Node(cap, true, PAGE_BITS, Nil)];
      owner, base := owner + [OUT], base + [paddr];
      assert Img() == WithPage(h, cap, paddr);
      PushFree(PAGE_BITS - MIN_BITS, x);
    }

    /** add_untyped_range, for memory that is not a device: the pages of the range are free, the last first. */
    method AddUntypedRange(paddr: nat, cptr: nat, pages: nat)
      requires Ok() && Clear(Img(), paddr, paddr + PageBytes(pages))
      modifies this
      ensures Ok() && taken == old(taken) && FreeBytes(Img()) == FreeBytes(old(Img())) + PageBytes(pages)
      ensures PagesAdded(old(Img()), Img(), paddr, cptr, pages)
    {
      ghost var h := Img();
      NoPageYet(h, paddr, cptr);
      for i := 0 to pages
        invariant Ok() && taken == old(taken) && FreeBytes(Img()) == FreeBytes(h) + PageBytes(i)
        invariant Clear(Img(), paddr + PageBytes(i), paddr + PageBytes(pages))
        invariant PagesAdded(h, Img(), paddr, cptr, i)
      {
        ghost var m := Img();
        AddPage(cptr + i, paddr + PageBytes(i), paddr + PageBytes(pages));
        OneMorePage(h, m, Img(), paddr, cptr, i);
      }
    }
  }

  /** n, n + 1, ..., n + k - 1 in reverse. */
  function Descending(n: nat, k: nat): (s: seq<nat>)
    ensures |s| == k && forall i :: 0 <= i < k ==> s[i] == n + k - 1 - i
  {
    seq(k, i requires 0 <= i < k => n + k - 1 - i)
  }

  /** k new nodes, which own the pages from paddr on and are free; no other node and no other list changed. */
  ghost predicate PagesAdded(h: Heap, e: Heap, paddr: nat, cptr: nat, k: nat) {
    && Shaped(h) && Shaped(e) && |e.mem| == |h.mem| + k
    && h.mem <= e.mem && h.owner <= e.owner && h.base <= e.base
    && e.lists == h.lists[PAGES := Descending(|h.mem|, k) + h.lists[PAGES]]
    && forall i: nat :: i < k ==> IsPage(e, |h.mem| + i, paddr + PageBytes(i), cptr + i)
  }

  ghost predicate IsPage(h: Heap, x: nat, paddr: nat, cap: nat)
    requires Shaped(h) && x < |h.mem|
  {
    h.owner[x] == PAGES && h.base[x] == paddr && h.mem[x].cap == cap && h.mem[x].valid && h.mem[x].sizeBits == PAGE_BITS
  }

  lemma {:induction false} NoPageYet(h: Heap, paddr: nat, cptr: nat)
    requires Shaped(h)
    ensures PagesAdded(h, h, paddr, cptr, 0)
  {
    assert Descending(|h.mem|, 0) + h.lists[PAGES] == h.lists[PAGES];
  }

  lemma {:induction false} OneMorePage(h: Heap, m: Heap, e: Heap, paddr: nat, cptr: nat, k: nat)
    requires PagesAdded(h, m, paddr, cptr, k)
    requires e == Pushed(WithPage(m, cptr + k, paddr + PageBytes(k)), PAGES, |m.mem|)
    ensures PagesAdded(h, e, paddr, cptr, k + 1)
  {
    assert [|m.mem|] + (Descending(|h.mem|, k) + h.lists[PAGES]) == Descending(|h.mem|, k + 1) + h.lists[PAGES];
    forall i: nat | i < k + 1
      ensures IsPage(e, |h.mem| + i, paddr + PageBytes(i), cptr + i)
    {
      assert i < k ==> IsPage(m, |h.mem| + i, paddr + PageBytes(i), cptr + i);
    }
  }

  /** No live untyped lies in [lo, hi). */
  ghost predicate Clear(h: Heap, lo: nat, hi: nat)
    requires Shaped(h)
  {
    forall x: nat :: x < |h.mem| && Live(h, x) ==> h.base[x] + Pow2(h.mem[x].sizeBits) <= lo || hi <= h.base[x]
  }

  function WithPage(h: Heap, cap: nat, paddr: nat): Heap {
    Heap(h.mem + [Node(cap, true, PAGE_BITS, Nil)], h.heads, h.lists, h.owner + [OUT], h.base + [paddr])
  }

  lemma {:induction false} PageValid(h: Heap, cap: nat, paddr: nat, hi: nat)
    requires Valid(h) && Clear(h, paddr, hi) && paddr + PAGE_SIZE <= hi
    ensures var e := WithPage(h, cap, paddr); Valid(e) && Clear(e, paddr + PAGE_SIZE, hi)
  {
    var e := WithPage(h, cap, paddr);
    PowPage();
    forall a: nat | a < LISTS
      ensures ListOk(e, a)
    {
      ListsFrame(h, e, a);
    }
    forall v: nat, w: nat | v < |e.mem| && w < |e.mem|
      ensures Separate(e, v, w)
    {
      assert v < |h.mem| ==> Live(e, v) == Live(h, v);
      assert w < |h.mem| ==> Live(e, w) == Live(h, w);
      assert v < |h.mem| && w < |h.mem| ==> Separate(h, v, w);
    }
    forall x: nat | x < |e.mem| && Live(e, x)
      ensures e.base[x] + Pow2(e.mem[x].sizeBits) <= paddr + PAGE_SIZE || hi <= e.base[x]
    {
      assert x < |h.mem| ==> Live(h, x);
    }
  }

  lemma {:induction false} KeptSame(h: Heap)
    requires Shaped(h)
    ensures OthersKept(h, h, {})
  {
  }

  /** The outcome is that of the run, and on success what is left is what the run leaves. */
  ghost predicate RunLeads(r: Run, ok: bool, lists: seq<seq<nat>>, next: nat)
    requires |lists| == LISTS
  {
    ok == r.ok && (ok ==> next == r.next && |lists[PAGES]| == r.pages && |lists[STRUCTURES]| == r.st)
  }

  datatype AllocResult = Allocated(ut: nat) | NotEnoughMemory | InvalidArgument

  function Given(res: AllocResult, sizeBits: nat): nat { if res.Allocated? then Pow2(sizeBits) else 0 }

  /** x is an untyped of the right size that was not handed out before. */
  ghost predicate HandedOut(h: Heap, e: Heap, x: nat, sizeBits: nat)
    requires Shaped(h) && Shaped(e)
  {
    && x < |e.mem| && e.owner[x] == OUT && e.mem[x].sizeBits == sizeBits
    && (x < |h.mem| ==> h.owner[x] != OUT)
  }

  lemma {:induction false} KeptTransitive(h: Heap, m: Heap, e: Heap, larger: nat)
    requires Shaped(h) && Shaped(m) && Shaped(e) && OthersKept(h, m, {}) && OthersKept(m, e, {larger})
    requires larger < |h.mem| ==> h.owner[larger] != OUT
    ensures OthersKept(h, e, {})
  {
  }

  lemma {:induction false} KeptPopped(h: Heap, m: Heap, a: nat)
    requires Valid(h) && Valid(m) && OthersKept(h, m, {}) && a < STRUCTURES && m.lists[a] != []
    requires m.lists[a][0] < |m.mem| && m.owner[m.lists[a][0]] == a
    ensures OthersKept(h, Popped(m, a), {}) && (m.lists[a][0] < |h.mem| ==> h.owner[m.lists[a][0]] != OUT)
  {
  }

  lemma {:induction false} PowPage()
    ensures Pow2(PAGE_BITS) == PAGE_SIZE
  {
    assert Pow2(4) == 16;
    assert Pow2(8) == 256;
  }

  lemma {:induction false} NothingFree(lists: seq<seq<nat>>)
    requires |lists| == LISTS && forall a: nat :: a < LISTS ==> lists[a] == []
    ensures forall n: nat :: n <= STRUCTURES ==> BytesIn(lists, n) == 0
  {
    forall n: nat | n <= STRUCTURES
      ensures BytesIn(lists, n) == 0
    {
      NothingIn(lists, n);
    }
  }

  lemma {:induction false} NothingIn(lists: seq<seq<nat>>, n: nat)
    requires n <= |lists| == LISTS && forall a: nat :: a < LISTS ==> lists[a] == []
    ensures BytesIn(lists, n) == 0
  {
    if n > 0 {
      NothingIn(lists, n - 1);
    }
  }
}
