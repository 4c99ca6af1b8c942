/** The two-level slot allocator of the root server's capability space. */
module Slots {
  import opened Bitfield

  const CNODE_SLOTS: nat := 256        // 2^(CNODE_SIZE_BITS - seL4_SlotBits)
  const BOT_LVL_PER_NODE: nat := 97    // (PAGE_SIZE_4K - 3 * WORD_SIZE) / size_of::<BotLvlT>() = (4096 - 3 * 64) / 40
  const SLOT_SIZE: nat := 32           // 2^seL4_SlotBits

  // Parts of a slot number.
  function TopLvlIndex(cptr: nat): nat { cptr / CNODE_SLOTS }

  function BotLvlIndex(cptr: nat): nat { cptr % CNODE_SLOTS }

  function NodeIndex(cptr: nat): nat { cptr / CNODE_SLOTS / BOT_LVL_PER_NODE }

  function CnodeIndex(cptr: nat): nat { cptr / CNODE_SLOTS % BOT_LVL_PER_NODE }

  /** Different CNodes are found at different places. */
  lemma {:induction false} PlacesDiffer(c: nat, d: nat)
    ensures NodeIndex(c) == NodeIndex(d) && CnodeIndex(c) == CnodeIndex(d) <==> TopLvlIndex(c) == TopLvlIndex(d)
    ensures c == 256 * (97 * NodeIndex(c) + CnodeIndex(c)) + BotLvlIndex(c) && CnodeIndex(c) < 97 && BotLvlIndex(c) < 256
  {
  }

  /** Number of the CNode at place (node, cnode). */
  function Place(node: nat, cnode: nat): nat { node * BOT_LVL_PER_NODE + cnode }

  /** The fields of all CNodes that are present, in order. */
  ghost predicate Shaped(top: seq<Word>, cnodes: seq<seq<Word>>) {
    |cnodes| <= WORD_BITS * |top| && forall t :: 0 <= t < |cnodes| ==> |cnodes[t]| == CNODE_SLOTS / WORD_BITS
  }

  /** The slot is given out. */
  ghost predicate Given(cnodes: seq<seq<Word>>, cptr: nat)
    requires TopLvlIndex(cptr) < |cnodes| && |cnodes[TopLvlIndex(cptr)]| == CNODE_SLOTS / WORD_BITS
  {
    Bit(cnodes[TopLvlIndex(cptr)], BotLvlIndex(cptr))
  }

  /** All slots of a CNode but the last are given out. */
  ghost predicate FullButLast(bf: seq<Word>)
    requires |bf| == CNODE_SLOTS / WORD_BITS
  {
    forall j: nat :: j < CNODE_SLOTS - 1 ==> Bit(bf, j)
  }

  /** The summary bit of a CNode is set exactly when its only free slot is the last one, which is never given out. */
  ghost predicate SummaryRight(top: seq<Word>, cnodes: seq<seq<Word>>, t: nat)
    requires Shaped(top, cnodes) && t < |cnodes|
  {
    !Bit(cnodes[t], CNODE_SLOTS - 1) && (Bit(top, t) <==> FullButLast(cnodes[t]))
  }

  ghost predicate WellFormed(top: seq<Word>, cnodes: seq<seq<Word>>) {
    Shaped(top, cnodes) && forall t: nat :: t < |cnodes| ==> SummaryRight(top, cnodes, t)
  }

  datatype SlotResult = Slot(cptr: nat) | NotEnoughMemory | InvalidCapability | LevelMissing

  /** cptr is the least slot that is free and not the last of its CNode. */
  ghost predicate LeastFree(cnodes: seq<seq<Word>>, cptr: nat)
    requires forall t :: 0 <= t < |cnodes| ==> |cnodes[t]| == CNODE_SLOTS / WORD_BITS
  {
    && TopLvlIndex(cptr) < |cnodes| && BotLvlIndex(cptr) < CNODE_SLOTS - 1 && !Given(cnodes, cptr)
    && forall d: nat :: d < cptr && BotLvlIndex(d) < CNODE_SLOTS - 1 ==> Earlier(cnodes, d)
  }

  ghost predicate Earlier(cnodes: seq<seq<Word>>, d: nat)
    requires forall t :: 0 <= t < |cnodes| ==> |cnodes[t]| == CNODE_SLOTS / WORD_BITS
  {
    TopLvlIndex(d) < |cnodes| && Given(cnodes, d)
  }

  /** The first clear summary bit and the first clear bit below it give the least free slot. */
  lemma {:induction false} FirstIsLeast(top: seq<Word>, cnodes: seq<seq<Word>>, t: nat, j: nat)
    requires WellFormed(top, cnodes) && t < |cnodes| && j < CNODE_SLOTS - 1
    requires !Bit(top, t) && forall u: nat :: u < t ==> Bit(top, u)
    requires !Bit(cnodes[t], j) && forall k: nat :: k < j ==> Bit(cnodes[t], k)
    ensures LeastFree(cnodes, t * CNODE_SLOTS + j)
  {
    var c := t * CNODE_SLOTS + j;
    assert TopLvlIndex(c) == t && BotLvlIndex(c) == j;
    forall d: nat | d < c && BotLvlIndex(d) < CNODE_SLOTS - 1
      ensures Earlier(cnodes, d)
    {
      var u := TopLvlIndex(d);
      if u < t {
        assert SummaryRight(top, cnodes, u);
      }
    }
  }

  /** No bit of the word is set. */
  ghost predicate Zero(w: Word) {
    forall b :: 0 <= b < WORD_BITS ==> !w[b]
  }

  ghost predicate Clear(bf: seq<Word>) {
    |bf| == CNODE_SLOTS / WORD_BITS && forall k :: 0 <= k < |bf| ==> Zero(bf[k])
  }

  lemma {:induction false} NothingGiven(top: seq<Word>, cnodes: seq<seq<Word>>)
    requires Shaped(top, cnodes) && (forall t :: 0 <= t < |cnodes| ==> Clear(cnodes[t]))
    requires forall k :: 0 <= k < |top| ==> Zero(top[k])
    ensures WellFormed(top, cnodes)
    ensures forall t: nat, j: nat :: t < |cnodes| && j < CNODE_SLOTS ==> !Bit(cnodes[t], j)
  {
    forall t: nat | t < |cnodes|
      ensures SummaryRight(top, cnodes, t)
    {
      assert !Bit(cnodes[t], 0);
    }
  }

  /** Slot j of CNode t given out, and the summary bit brought up to date. */
  lemma {:induction false} GiveKeepsWellFormed(top: seq<Word>, cnodes: seq<seq<Word>>, t: nat, j: nat, top': seq<Word>)
    requires WellFormed(top, cnodes) && t < |cnodes| && j < CNODE_SLOTS - 1
    requires top' == if FullButLast(WithBit(cnodes[t], j, true)) then WithBit(top, t, true) else top
    requires !Bit(top, t)
    ensures WellFormed(top', cnodes[t := WithBit(cnodes[t], j, true)])
  {
    var e := cnodes[t := WithBit(cnodes[t], j, true)];
    OnlyThatBit(cnodes[t], j, true, CNODE_SLOTS - 1);
    forall u: nat | u < |cnodes|
      ensures SummaryRight(top', e, u)
    {
      assert SummaryRight(top, cnodes, u);
      OnlyThatBit(top, t, true, u);
    }
  }

  /** A slot taken back, and the summary bit of its CNode cleared. */
  lemma {:induction false} TakeBackKeepsWellFormed(top: seq<Word>, cnodes: seq<seq<Word>>, t: nat, j: nat)
    requires WellFormed(top, cnodes) && t < |cnodes| && j < CNODE_SLOTS - 1
    ensures WellFormed(WithBit(top, t, false), cnodes[t := WithBit(cnodes[t], j, false)])
  {
    var e := cnodes[t := WithBit(cnodes[t], j, false)];
    OnlyThatBit(cnodes[t], j, false, CNODE_SLOTS - 1);
    OnlyThatBit(cnodes[t], j, false, j);
    forall u: nat | u < |cnodes|
      ensures SummaryRight(WithBit(top, t, false), e, u)
    {
      assert SummaryRight(top, cnodes, u);
      OnlyThatBit(top, t, false, u);
    }
  }

  /** The last slot is never given out; taking it back clears the summary bit of a full CNode. */
  lemma {:induction false} LastTakenBack(top: seq<Word>, cnodes: seq<seq<Word>>, t: nat)
    requires WellFormed(top, cnodes) && t < |cnodes|
    ensures WellFormed(WithBit(top, t, false), cnodes[t := WithBit(cnodes[t], CNODE_SLOTS - 1, false)])
       <==> !FullButLast(cnodes[t])
  {
    var w, j := WithBit(top, t, false), CNODE_SLOTS - 1;
    var e := cnodes[t := WithBit(cnodes[t], j, false)];
    forall k: nat | k < CNODE_SLOTS
      ensures Bit(e[t], k) == Bit(cnodes[t], k)
    {
      assert SummaryRight(top, cnodes, t);
      OnlyThatBit(cnodes[t], j, false, k);
    }
    OnlyThatBit(top, t, false, t);
    assert SummaryRight(w, e, t) <==> !FullButLast(cnodes[t]);
    forall u: nat | u < |cnodes| && u != t
      ensures SummaryRight(w, e, u)
    {
      assert SummaryRight(top, cnodes, u);
      OnlyThatBit(top, t, false, u);
    }
  }

  /** Summary bits of CNodes that are not present do not matter. */
  lemma {:induction false} ClearedAbove(top: seq<Word>, cnodes: seq<seq<Word>>, t: nat)
    requires WellFormed(top, cnodes) && |cnodes| <= t < WORD_BITS * |top|
    ensures WellFormed(WithBit(top, t, false), cnodes)
  {
    forall u: nat | u < |cnodes|
      ensures SummaryRight(WithBit(top, t, false), cnodes, u)
    {
      assert SummaryRight(top, cnodes, u);
      OnlyThatBit(top, t, false, u);
    }
  }

  class CSpace {
    const top: array<Word>                    // top_bf
    const topSlots: nat                       // CNODE_SLOTS(top_lvl_size_bits)
    const nodes: seq<seq<array<Word>>>        // fields of the CNodes, node by node
    ghost const present: nat                  // CNodes that are present
    ghost const cells: set<array<Word>>

    /** A space with n CNodes in its first node, no slot given out. */
    constructor (words: nat, slots: nat, n: nat)
      requires n <= BOT_LVL_PER_NODE && n <= slots <= WORD_BITS * words
      ensures Valid() && present == n && topSlots == slots
      ensures forall t: nat, j: nat :: t < present && j < CNODE_SLOTS ==> !Bit(Fields()[t], j)
      ensures fresh(top) && forall c :: c in cells ==> fresh(c)
    {
      var fields: seq<array<Word>> := [];
      ghost var all: set<array<Word>> := {};
      var zero: Word := seq(WORD_BITS, _ => false);
      var t := new Word[words](_ => zero);
      for i := 0 to n
        invariant |fields| == i && forall k: nat :: k < i ==> fields[k] in all && Clear(fields[k][..])
        invariant forall c :: c in all ==> fresh(c) && c != t
        invariant forall k :: 0 <= k < t.Length ==> Zero(t[k])
        invariant forall k: nat, l: nat :: k < i && l < i && k != l ==> fields[k] != fields[l]
      {
        var f := new Word[CNODE_SLOTS / WORD_BITS](_ => zero);
        fields, all := fields + [f], all + {f};
      }
      top, topSlots, nodes := t, slots, [fields];
      present, cells := n, all;
      new;
      NothingGiven(top[..], Fields());
    }

    /** The t-th CNode is there. */
    predicate Present(t: nat) {
      t / BOT_LVL_PER_NODE < |nodes| && t % BOT_LVL_PER_NODE < |nodes[t / BOT_LVL_PER_NODE]|
    }

    function Field(t: nat): array<Word>
      requires Present(t)
    {
      nodes[t / BOT_LVL_PER_NODE][t % BOT_LVL_PER_NODE]
    }

    ghost predicate FieldOk(t: nat)
      requires Present(t)
    {
      Field(t) in cells && Field(t) != top && Field(t).Length == CNODE_SLOTS / WORD_BITS
    }

    ghost predicate InCells(t: nat) {
      Present(t) && Field(t) in cells
    }

    ghost predicate FieldsDiffer(t: nat, u: nat)
      requires Present(t) && Present(u)
    {
      t != u ==> Field(t) != Field(u)
    }

    /** The CNodes are numbered without gaps and have fields of their own. */
    ghost predicate Laid() {
      && topSlots <= WORD_BITS * top.Length && present <= topSlots
      && (forall t: nat :: Present(t) <==> t < present)
      && (forall t: nat :: t < present ==> FieldOk(t))
      && (forall t: nat, u: nat :: t < present && u < present ==> FieldsDiffer(t, u))
    }

    lemma {:induction false} AllInCells()
      requires Laid()
      ensures forall t: nat :: t < present ==> InCells(t)
    {
      forall t: nat | t < present
        ensures InCells(t)
      {
        assert Present(t) && FieldOk(t);
      }
    }

    ghost function Fields(): (f: seq<seq<Word>>)
      requires Laid()
      reads cells
      ensures |f| == present && forall t: nat :: t < present ==> f[t] == Field(t)[..]
    {
      AllInCells();
      seq(present, t requires 0 <= t && InCells(t) reads cells => Field(t)[..])
    }

    ghost predicate Valid()
      reads top, cells
    {
      Laid() && WellFormed(top[..], Fields())
    }

    /** alloc_slot */
    method AllocSlot() returns (r: SlotResult)
      requires Valid()
      modifies top, cells
      ensures Valid()
      ensures r.Slot? ==> LeastFree(old(Fields()), r.cptr)
      ensures r.Slot? ==> Fields() == Marked(old(Fields()), r.cptr, true)
      ensures !r.Slot? ==> Fields() == old(Fields()) && top[..] == old(top[..])
      ensures !r.Slot? ==> forall d: nat :: TopLvlIndex(d) < present && BotLvlIndex(d) < CNODE_SLOTS - 1 ==> Earlier(Fields(), d)
      ensures r == LevelMissing ==> present < topSlots
    {
      var found, t := BfFirstFree(top);
      if !found || t >= topSlots {
        AllGiven();
        return if !found then NotEnoughMemory else InvalidCapability;
      }
      if !Present(t) {
        AllGiven();
        return LevelMissing;   // ensure_levels is not implemented
      }
      ghost var f := Fields();
      var j := TakeBit(t);
      FirstIsLeast(old(top[..]), f, t, j);
      r := Slot(t * CNODE_SLOTS + j);
    }

    /** If no CNode has its summary bit clear, no slot but the last ones is left. */
    lemma {:induction false} AllGiven()
      requires Valid() && forall t: nat :: t < present ==> Bit(top[..], t)
      ensures forall d: nat :: TopLvlIndex(d) < present && BotLvlIndex(d) < CNODE_SLOTS - 1 ==> Earlier(Fields(), d)
    {
      forall d: nat | TopLvlIndex(d) < present && BotLvlIndex(d) < CNODE_SLOTS - 1
        ensures Earlier(Fields(), d)
      {
        assert SummaryRight(top[..], Fields(), TopLvlIndex(d));
      }
    }

    /** One bit of the field of CNode t. */
    method SetBelow(t: nat, j: nat, v: bool)
      requires Laid() && t < present && j < CNODE_SLOTS
      modifies cells
      ensures top[..] == old(top[..])
      ensures |Fields()[t]| == |old(Fields())[t]| == CNODE_SLOTS / WORD_BITS
      ensures Fields() == old(Fields())[t := WithBit(old(Fields())[t], j, v)]
    {
      ghost var f := Fields();
      assert Present(t) && FieldOk(t);
      var bf := Field(t);
      if v {
        BfSetBit(bf, j);
      } else {
        BfClrBit(bf, j);
      }
      forall u: nat | u < present
        ensures Fields()[u] == f[t := bf[..]][u]
      {
        assert Present(u) && FieldOk(u) && FieldsDiffer(t, u);
      }
      TopApart();
    }

    lemma {:induction false} TopApart()
      requires Laid()
      ensures forall t: nat :: t < present ==> Present(t) && Field(t) != top
    {
      forall t: nat | t < present
        ensures Present(t) && Field(t) != top
      {
        assert Present(t) && FieldOk(t);
      }
    }

    /** The first free slot of CNode t. */
    method FirstBelow(t: nat) returns (j: nat)
      requires Laid() && t < present && |Fields()[t]| == CNODE_SLOTS / WORD_BITS && !Bit(Fields()[t], CNODE_SLOTS - 1)
      ensures j < CNODE_SLOTS && !Bit(Fields()[t], j) && forall k: nat :: k < j ==> Bit(Fields()[t], k)
    {
      assert Present(t) && FieldOk(t);
      var bf := Field(t);
      ghost var s := bf[..];
      assert Fields()[t] == s;
      assert !Bit(s, CNODE_SLOTS - 1) && WORD_BITS * bf.Length == CNODE_SLOTS;
      var found;
      found, j := BfFirstFree(bf);
      assert bf[..] == s && found;
    }

    /** The first free slot of CNode t is given out; the summary bit is set if only the last is left. */
    method TakeBit(t: nat) returns (j: nat)
      requires Valid() && t < present && !Bit(top[..], t)
      modifies top, cells
      ensures Valid() && j < CNODE_SLOTS - 1
      ensures !Bit(old(Fields())[t], j) && forall k: nat :: k < j ==> Bit(old(Fields())[t], k)
      ensures Fields() == old(Fields())[t := WithBit(old(Fields())[t], j, true)]
    {
      ghost var f, before := Fields(), top[..];
      assert SummaryRight(before, f, t);
      j := FirstBelow(t);
      SetBelow(t, j, true);
      OnlyThatBit(f[t], j, true, CNODE_SLOTS - 1);
      var k := FirstBelow(t);
      SetSummary(t, k >= CNODE_SLOTS - 1);
      GiveKeepsWellFormed(before, f, t, j, top[..]);
    }

    /** The summary bit, if it is to be set. */
    method SetSummary(t: nat, full: bool)
      requires Laid() && t < present
      modifies top
      ensures top[..] == if full then WithBit(old(top[..]), t, true) else old(top[..])
      ensures Fields() == old(Fields())
    {
      TopApart();
      if full {
        BfSetBit(top, t);
      }
    }

    method ClearSummary(t: nat)
      requires Laid() && t < WORD_BITS * top.Length
      modifies top
      ensures top[..] == WithBit(old(top[..]), t, false) && Fields() == old(Fields())
    {
      TopApart();
      BfClrBit(top, t);
    }

    /** The slots of the CNodes that are present are in bounds. */
    lemma {:induction false} InSpace(cptr: nat)
      requires Laid() && TopLvlIndex(cptr) < present
      ensures InBounds(cptr) && TopLvlIndex(cptr) < WORD_BITS * top.Length
    {
    }

    /**
     * The comparison of free_slot.  It adds the sizes of both levels in bytes and takes the size of
     * a slot off once, so the bound is 32 times the number of slots.
     */
    predicate InBounds(cptr: nat): (b: bool)
      ensures b <==> cptr <= 32 * 256 * topSlots
    {
      cptr <= SLOT_SIZE * CNODE_SLOTS * topSlots
    }

    /**
     * free_slot, of any slot number whose summary bit exists; slot 0 stays.  The summaries stay
     * right exactly unless the last slot of a CNode is freed whose other slots are all given out.
     */
    method FreeSlot(cptr: nat)
      requires Valid() && (InBounds(cptr) ==> TopLvlIndex(cptr) < WORD_BITS * top.Length)
      modifies top, cells
      ensures var t, acts := TopLvlIndex(cptr), cptr != 0 && InBounds(cptr);
              && top[..] == (if acts then WithBit(old(top[..]), t, false) else old(top[..]))
              && Fields() == (if acts && t < present then Marked(old(Fields()), cptr, false) else old(Fields()))
              && (Valid() <==> !(acts && t < present && BotLvlIndex(cptr) == CNODE_SLOTS - 1 && FullButLast(old(Fields())[t])))
    {
      if cptr == 0 || !InBounds(cptr) {
        return;
      }
      ghost var f, before := Fields(), top[..];
      var t, j := TopLvlIndex(cptr), BotLvlIndex(cptr);
      ClearSummary(t);
      if Present(t) {
        SetBelow(t, j, false);
        if j < CNODE_SLOTS - 1 {
          TakeBackKeepsWellFormed(before, f, t, j);
        } else {
          LastTakenBack(before, f, t);
        }
      } else {
        ClearedAbove(before, f, t);
      }
    }
  }

  /** A slot that was freed is available: the next allocation succeeds with that slot or an earlier one. */
  method FreeThenAlloc(cs: CSpace, cptr: nat) returns (r: SlotResult)
    requires cs.Valid() && cptr > 0 && TopLvlIndex(cptr) < cs.present && BotLvlIndex(cptr) < CNODE_SLOTS - 1
    requires Given(cs.Fields(), cptr)
    modifies cs.top, cs.cells
    ensures cs.Valid() && r.Slot? && r.cptr <= cptr
  {
    ghost var f := cs.Fields();
    cs.InSpace(cptr);
    cs.FreeSlot(cptr);
    OnlyThatBit(f[TopLvlIndex(cptr)], BotLvlIndex(cptr), false, BotLvlIndex(cptr));
    assert !Earlier(cs.Fields(), cptr);
    r := cs.AllocSlot();
  }

  ghost function Marked(cnodes: seq<seq<Word>>, cptr: nat, v: bool): seq<seq<Word>>
    requires TopLvlIndex(cptr) < |cnodes| && |cnodes[TopLvlIndex(cptr)]| == CNODE_SLOTS / WORD_BITS
  {
    cnodes[TopLvlIndex(cptr) := WithBit(cnodes[TopLvlIndex(cptr)], BotLvlIndex(cptr), v)]
  }
}
