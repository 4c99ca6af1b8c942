/**
 * The frame table of a memory object: four levels of 512 entries, as a map from page numbers to
 * frames.  Tables are numbered; an entry refers to a table below it by number.
 */
module FrameMap {
  import opened Arith
  import opened FrameTable
  import Untypeds

  const OBJ_LVL_MAX: nat := 512
  const PAGE_SIZE_4K: nat := 4096
  const PAGES: nat := 0x10_0000_0000   // 2^36

  datatype ObjectFrame = ObjectFrame(cap: nat, frameRef: nat)

  /** Option<ObjectFrameTableEntry> */
  datatype Entry = Empty | Leaf(frame: ObjectFrame) | Sub(table: nat)

  /** Pages below one entry of a table at a level. */
  function EntrySpan(l: nat): (n: nat)
    requires l < 4
    ensures n > 0
  {
    if l == 0 then 0x800_0000 else if l == 1 then 0x4_0000 else if l == 2 then 512 else 1
  }

  /** Index into a table of level l on the way to a page. */
  function IndexOf(page: nat, l: nat): (i: nat)
    requires l < 4
    ensures i < OBJ_LVL_MAX
  {
    page / EntrySpan(l) % OBJ_LVL_MAX
  }

  /** The index computed from the byte offset: (offset >> shift) & 511. */
  function IndexAt(offset: nat, shift: nat): nat
    requires shift in {39, 30, 21, 12}
  {
    offset / (if shift == 39 then 0x80_0000_0000 else if shift == 30 then 0x4000_0000
              else if shift == 21 then 0x20_0000 else 0x1000) % OBJ_LVL_MAX
  }

  /** Bits of the offset above 48 play no part. */
  lemma {:induction false} IndexOfOffset(offset: nat, l: nat)
    requires l < 4
    ensures IndexAt(offset, 39 - 9 * l) == IndexOf(offset / PAGE_SIZE_4K % PAGES, l)
  {
    var page := offset / PAGE_SIZE_4K;
    DivDiv(offset, PAGE_SIZE_4K, EntrySpan(l));
    assert offset / (PAGE_SIZE_4K * EntrySpan(l)) == page / EntrySpan(l);
    match l
    case 0 => AliasIndex(page, 0x800_0000, 512);
    case 1 => AliasIndex(page, 0x4_0000, 0x4_0000);
    case 2 => AliasIndex(page, 512, 0x800_0000);
    case 3 => AliasIndex(page, 1, PAGES);
  }

  lemma {:induction false} AliasIndex(page: nat, e: nat, m: nat)
    requires e > 0 && m > 0 && m % 512 == 0
    ensures page % (e * m) / e % 512 == page / e % 512
  {
    var q := page / (e * m);
    var r := page % (e * m);
    DivDiv(page, e, m);
    assert r == page % e + e * (page / e % m);
    DivModUnique(e, page / e % m, page % e, r);
    assert page / e == page / e / m * m + page / e % m;
    ModMultiple(page / e / m, m, page / e % m);
  }

  lemma {:induction false} ModMultiple(a: nat, m: nat, r: nat)
    requires m > 0 && m % 512 == 0
    ensures (a * m + r) % 512 == r % 512
  {
    var k := m / 512;
    assert m == 512 * k;
    assert a * m == 512 * (a * k);
    DivModUnique(512, a * k + r / 512, r % 512, a * m + r);
  }

  // The tree ------------------------------------------------------------------------------------

  /** The tables, with the level of each and the first page it covers. */
  datatype Trie = Trie(tables: seq<seq<Entry>>, level: seq<nat>, base: seq<nat>)

  /** First page below entry i of a table of level l, from the first page of the table. */
  function Offset(i: nat, l: nat): nat
    requires l < 4
  {
    if l == 0 then i * 0x800_0000 else if l == 1 then i * 0x4_0000 else if l == 2 then i * 512 else i
  }

  /** Pages a table of level l covers. */
  function Span(l: nat): nat
    requires l < 4
  {
    if l == 0 then PAGES else EntrySpan(l - 1)
  }

  ghost predicate Shaped(m: Trie) {
    |m.level| == |m.base| == |m.tables| > 0
  }

  /** A leaf is on the last level; a table below covers the pages of its entry. */
  ghost predicate EntryOk(m: Trie, t: nat, i: nat)
    requires Shaped(m) && t < |m.tables| && m.level[t] < 4 && i < |m.tables[t]|
  {
    match m.tables[t][i]
    case Empty => true
    case Leaf(_) => m.level[t] == 3
    case Sub(u) =>
      u < |m.tables| && m.level[t] < 3 && m.level[u] == m.level[t] + 1 && m.base[u] == m.base[t] + Offset(i, m.level[t])
  }

  ghost predicate TableOk(m: Trie, t: nat)
    requires Shaped(m) && t < |m.tables|
  {
    && m.level[t] < 4 && |m.tables[t]| == OBJ_LVL_MAX && m.base[t] % Span(m.level[t]) == 0
    && forall i: nat :: i < OBJ_LVL_MAX ==> EntryOk(m, t, i)
  }

  ghost predicate Valid(m: Trie) {
    && Shaped(m) && m.level[0] == 0 && m.base[0] == 0
    && forall t: nat :: t < |m.tables| ==> TableOk(m, t)
  }

  ghost predicate Covers(m: Trie, t: nat, page: nat)
    requires Shaped(m) && t < |m.tables| && m.level[t] < 4
  {
    m.base[t] <= page < m.base[t] + Span(m.level[t])
  }

  lemma {:induction false} PlaceFor(base: nat, e: nat, page: nat, i: nat)
    requires e > 0 && base % (512 * e) == 0 && base <= page < base + 512 * e
    ensures page / e % 512 == (page - base) / e < 512
    ensures base + i * e <= page < base + i * e + e <==> (page - base) / e == i
  {
    var b, r := base / (512 * e), page - base;
    var q := r / e;
    assert base == b * (512 * e) == (b * 512) * e;
    assert (b * 512 + q) * e == (b * 512) * e + q * e;
    DivModUnique(e, b * 512 + q, r % e, page);
    Below(r, e, 512);
    DivModUnique(512, b, q, b * 512 + q);
    Between(r, e, i);
  }

  lemma {:induction false} Below(r: nat, e: nat, n: nat)
    requires e > 0 && r < n * e
    ensures r / e < n
  {
    if r / e >= n {
      MulMono(n, r / e, e);
    }
  }

  lemma {:induction false} Between(r: nat, e: nat, i: nat)
    requires e > 0
    ensures i * e <= r < i * e + e <==> r / e == i
  {
    if i * e <= r < i * e + e {
      DivModUnique(e, i, r - i * e, r);
    }
  }

  /** A page lies below the entry its index names, and below no other. */
  lemma {:induction false} IndexIsPlace(base: nat, l: nat, page: nat, i: nat)
    requires l < 4 && base % Span(l) == 0 && base <= page < base + Span(l)
    ensures base + Offset(i, l) <= page < base + Offset(i, l) + EntrySpan(l) <==> IndexOf(page, l) == i
  {
    PlaceFor(base, EntrySpan(l), page, i);
  }

  lemma {:induction false} ChildAligned(base: nat, l: nat, i: nat)
    requires l < 3 && base % Span(l) == 0 && i < OBJ_LVL_MAX
    ensures (base + Offset(i, l)) % Span(l + 1) == 0
  {
    var q := base / Span(l);
    match l
    case 0 => DivModUnique(0x800_0000, 512 * q + i, 0, base + i * 0x800_0000);
    case 1 => DivModUnique(0x4_0000, 512 * q + i, 0, base + i * 0x4_0000);
    case 2 => DivModUnique(512, 512 * q + i, 0, base + i * 512);
  }

  /** The frame for a page, from table t on. */
  ghost function Walk(m: Trie, t: nat, page: nat): Option<ObjectFrame>
    requires Valid(m) && t < |m.tables| && TableOk(m, t)
    decreases 4 - m.level[t]
  {
    var i := IndexOf(page, m.level[t]);
    assert EntryOk(m, t, i);
    match m.tables[t][i]
    case Empty => None
    case Leaf(f) => Some(f)
    case Sub(u) => assert TableOk(m, u); Walk(m, u, page)
  }

  /** The map from page numbers to frames. */
  ghost function FrameAt(m: Trie, page: nat): Option<ObjectFrame>
    requires Valid(m)
  {
    assert TableOk(m, 0);
    Walk(m, 0, page)
  }

  // Insertion -----------------------------------------------------------------------------------

  /** A new table below the empty entry i of table t. */
  ghost function WithTable(m: Trie, t: nat, i: nat): Trie
    requires Shaped(m) && t < |m.tables| && m.level[t] < 4 && i < |m.tables[t]|
  {
    Trie(m.tables[t := m.tables[t][i := Sub(|m.tables|)]] + [seq(OBJ_LVL_MAX, _ => Empty)],
         m.level + [m.level[t] + 1], m.base + [m.base[t] + Offset(i, m.level[t])])
  }

  ghost function WithLeaf(m: Trie, t: nat, i: nat, f: ObjectFrame): Trie
    requires Shaped(m) && t < |m.tables| && i < |m.tables[t]|
  {
    m.(tables := m.tables[t := m.tables[t][i := Leaf(f)]])
  }

  lemma {:induction false} WithTableValid(m: Trie, t: nat, i: nat)
    requires Valid(m) && t < |m.tables| && TableOk(m, t) && m.level[t] < 3 && i < OBJ_LVL_MAX
    ensures Valid(WithTable(m, t, i))
  {
    var e := WithTable(m, t, i);
    ChildAligned(m.base[t], m.level[t], i);
    forall x: nat | x < |e.tables|
      ensures TableOk(e, x)
    {
      if x < |m.tables| {
        assert TableOk(m, x);
        forall j: nat | j < OBJ_LVL_MAX
          ensures EntryOk(e, x, j)
        {
          assert EntryOk(m, x, j);
        }
      }
    }
  }

  lemma {:induction false} WithLeafValid(m: Trie, t: nat, i: nat, f: ObjectFrame)
    requires Valid(m) && t < |m.tables| && TableOk(m, t) && m.level[t] == 3 && i < OBJ_LVL_MAX
    ensures Valid(WithLeaf(m, t, i, f))
  {
    var e := WithLeaf(m, t, i, f);
    forall x: nat | x < |e.tables|
      ensures TableOk(e, x)
    {
      assert TableOk(m, x);
      forall j: nat | j < OBJ_LVL_MAX
        ensures EntryOk(e, x, j)
      {
        assert EntryOk(m, x, j);
      }
    }
  }

  /** A new table holds nothing, so no page changes. */
  lemma {:induction false} WithTableSame(m: Trie, t: nat, i: nat, x: nat, page: nat)
    requires Valid(m) && t < |m.tables| && TableOk(m, t) && m.level[t] < 3 && i < OBJ_LVL_MAX && m.tables[t][i] == Empty
    requires x < |m.tables| && TableOk(m, x)
    ensures Valid(WithTable(m, t, i)) && TableOk(WithTable(m, t, i), x)
    ensures Walk(WithTable(m, t, i), x, page) == Walk(m, x, page)
    decreases 4 - m.level[x]
  {
    var e := WithTable(m, t, i);
    WithTableValid(m, t, i);
    assert TableOk(e, x) && TableOk(e, |m.tables|);
    var j := IndexOf(page, m.level[x]);
    assert EntryOk(m, x, j) && EntryOk(e, x, j);
    if m.tables[x][j].Sub? {
      assert TableOk(m, m.tables[x][j].table);
      WithTableSame(m, t, i, m.tables[x][j].table, page);
    }
  }

  /** The walk to the page from table x leads through table t. */
  ghost predicate Leads(m: Trie, x: nat, t: nat, page: nat)
    requires Valid(m) && x < |m.tables| && TableOk(m, x)
    decreases 4 - m.level[x]
  {
    || x == t
    || (var i := IndexOf(page, m.level[x]);
        assert EntryOk(m, x, i);
        m.tables[x][i].Sub? && (assert TableOk(m, m.tables[x][i].table); Leads(m, m.tables[x][i].table, t, page)))
  }

  lemma {:induction false} LeadsOn(m: Trie, x: nat, t: nat, page: nat)
    requires Valid(m) && x < |m.tables| && TableOk(m, x) && t < |m.tables| && TableOk(m, t) && Leads(m, x, t, page)
    ensures Walk(m, x, page) == Walk(m, t, page)
    ensures var i := IndexOf(page, m.level[t]);
            EntryOk(m, t, i) && (m.tables[t][i].Sub? ==> Leads(m, x, m.tables[t][i].table, page))
    decreases 4 - m.level[x]
  {
    var i := IndexOf(page, m.level[x]);
    assert EntryOk(m, x, i) && EntryOk(m, t, IndexOf(page, m.level[t]));
    if x != t {
      assert TableOk(m, m.tables[x][i].table);
      LeadsOn(m, m.tables[x][i].table, t, page);
    } else if m.tables[t][i].Sub? {
      assert TableOk(m, m.tables[t][i].table);
    }
  }

  lemma {:induction false} LeadsCovers(m: Trie, x: nat, t: nat, page: nat)
    requires Valid(m) && x < |m.tables| && TableOk(m, x) && t < |m.tables| && TableOk(m, t) && Leads(m, x, t, page)
    requires Covers(m, x, page)
    ensures Covers(m, t, page)
    decreases 4 - m.level[x]
  {
    var i := IndexOf(page, m.level[x]);
    assert EntryOk(m, x, i);
    if x != t {
      assert TableOk(m, m.tables[x][i].table);
      IndexIsPlace(m.base[x], m.level[x], page, i);
      LeadsCovers(m, m.tables[x][i].table, t, page);
    }
  }

  /** A new table does not bend the way to any table that was there. */
  lemma {:induction false} WithTableLeads(m: Trie, t: nat, i: nat, x: nat, u: nat, page: nat)
    requires Valid(m) && t < |m.tables| && TableOk(m, t) && m.level[t] < 3 && i < OBJ_LVL_MAX && m.tables[t][i] == Empty
    requires x < |m.tables| && TableOk(m, x) && Leads(m, x, u, page)
    ensures Valid(WithTable(m, t, i)) && TableOk(WithTable(m, t, i), x) && Leads(WithTable(m, t, i), x, u, page)
    decreases 4 - m.level[x]
  {
    var e := WithTable(m, t, i);
    WithTableValid(m, t, i);
    assert TableOk(e, x);
    if x != u {
      var j := IndexOf(page, m.level[x]);
      assert EntryOk(m, x, j) && EntryOk(e, x, j);
      assert TableOk(m, m.tables[x][j].table);
      WithTableLeads(m, t, i, m.tables[x][j].table, u, page);
    }
  }

  /** Other pages do not see a new leaf. */
  lemma {:induction false} WithLeafElsewhere(m: Trie, t: nat, i: nat, f: ObjectFrame, x: nat, page: nat)
    requires Valid(m) && t < |m.tables| && TableOk(m, t) && m.level[t] == 3 && i < OBJ_LVL_MAX
    requires x < |m.tables| && TableOk(m, x) && Covers(m, x, page) && page != m.base[t] + i
    ensures Valid(WithLeaf(m, t, i, f)) && TableOk(WithLeaf(m, t, i, f), x)
    ensures Walk(WithLeaf(m, t, i, f), x, page) == Walk(m, x, page)
    decreases 4 - m.level[x]
  {
    var e := WithLeaf(m, t, i, f);
    WithLeafValid(m, t, i, f);
    assert TableOk(e, x);
    var j := IndexOf(page, m.level[x]);
    assert EntryOk(m, x, j) && EntryOk(e, x, j);
    IndexIsPlace(m.base[x], m.level[x], page, j);
    if m.tables[x][j].Sub? {
      assert TableOk(m, m.tables[x][j].table);
      WithLeafElsewhere(m, t, i, f, m.tables[x][j].table, page);
    }
  }

  /** The page of the leaf does. */
  lemma {:induction false} WithLeafHere(m: Trie, t: nat, f: ObjectFrame, x: nat, page: nat)
    requires Valid(m) && t < |m.tables| && TableOk(m, t) && m.level[t] == 3 && Covers(m, t, page)
    requires x < |m.tables| && TableOk(m, x) && Leads(m, x, t, page) && m.tables[t][IndexOf(page, 3)] == Empty
    ensures var e := WithLeaf(m, t, IndexOf(page, 3), f);
            Valid(e) && TableOk(e, x) && Walk(e, x, page) == Some(f)
    decreases 4 - m.level[x]
  {
    var e := WithLeaf(m, t, IndexOf(page, 3), f);
    WithLeafValid(m, t, IndexOf(page, 3), f);
    assert TableOk(e, x);
    var j := IndexOf(page, m.level[x]);
    assert EntryOk(m, x, j) && EntryOk(e, x, j);
    if x != t {
      assert TableOk(m, m.tables[x][j].table);
      WithLeafHere(m, t, f, m.tables[x][j].table, page);
    }
  }

  // Cleanup -------------------------------------------------------------------------------------

  /** A page and the frame it has. */
  datatype Visit = Visit(page: nat, frameRef: nat)

  /** The pages with a frame below table t from entry i on, in the order in which cleanup meets them. */
  ghost function Visits(m: Trie, t: nat, i: nat): seq<Visit>
    requires Valid(m) && t < |m.tables| && TableOk(m, t) && i <= OBJ_LVL_MAX
    decreases 4 - m.level[t], OBJ_LVL_MAX - i, 1
  {
    if i == OBJ_LVL_MAX then [] else EntryVisits(m, t, i) + Visits(m, t, i + 1)
  }

  ghost function EntryVisits(m: Trie, t: nat, i: nat): seq<Visit>
    requires Valid(m) && t < |m.tables| && TableOk(m, t) && i < OBJ_LVL_MAX
    decreases 4 - m.level[t], OBJ_LVL_MAX - i, 0
  {
    assert EntryOk(m, t, i);
    match m.tables[t][i]
    case Empty => []
    case Leaf(f) => [Visit(m.base[t] + i, f.frameRef)]
    case Sub(u) => assert TableOk(m, u); Visits(m, u, 0)
  }

  ghost predicate Increasing(s: seq<Visit>, lo: nat, hi: nat) {
    && (forall k :: 0 <= k < |s| ==> lo <= s[k].page < hi)
    && (forall j, k :: 0 <= j < k < |s| ==> s[j].page < s[k].page)
  }

  lemma {:induction false} IncreasingJoin(a: seq<Visit>, b: seq<Visit>, lo: nat, mid: nat, hi: nat)
    requires Increasing(a, lo, mid) && Increasing(b, mid, hi) && lo <= mid <= hi
    ensures Increasing(a + b, lo, hi)
  {
  }

  lemma {:induction false} Spans(l: nat, i: nat)
    requires l < 4 && i < OBJ_LVL_MAX
    ensures Offset(i + 1, l) == Offset(i, l) + EntrySpan(l) && Offset(i + 1, l) <= Span(l)
    ensures Offset(OBJ_LVL_MAX, l) == Span(l) && Offset(0, l) == 0 && (l < 3 ==> Span(l + 1) == EntrySpan(l))
    ensures l == 3 ==> Offset(i, l) == i && EntrySpan(l) == 1
  {
  }

  /** Cleanup meets the pages in increasing order, so none of them twice. */
  lemma {:induction false} VisitsIncrease(m: Trie, t: nat, i: nat)
    requires Valid(m) && t < |m.tables| && TableOk(m, t) && i <= OBJ_LVL_MAX
    ensures Increasing(Visits(m, t, i), m.base[t] + Offset(i, m.level[t]), m.base[t] + Span(m.level[t]))
    decreases 4 - m.level[t], OBJ_LVL_MAX - i
  {
    var l := m.level[t];
    if i < OBJ_LVL_MAX {
      assert EntryOk(m, t, i);
      Spans(l, i);
      VisitsIncrease(m, t, i + 1);
      if m.tables[t][i].Sub? {
        assert TableOk(m, m.tables[t][i].table);
        Spans(l + 1, 0);
        VisitsIncrease(m, m.tables[t][i].table, 0);
      }
      IncreasingJoin(EntryVisits(m, t, i), Visits(m, t, i + 1), m.base[t] + Offset(i, l),
                     m.base[t] + Offset(i + 1, l), m.base[t] + Span(l));
    } else {
      Spans(l, 0);
    }
  }

  /** It meets exactly the pages that have a frame. */
  lemma {:induction false} VisitsAreMapped(m: Trie, t: nat, i: nat, v: Visit)
    requires Valid(m) && t < |m.tables| && TableOk(m, t) && i <= OBJ_LVL_MAX
    ensures v in Visits(m, t, i) <==>
              && m.base[t] + Offset(i, m.level[t]) <= v.page < m.base[t] + Span(m.level[t])
              && Walk(m, t, v.page).Some? && Walk(m, t, v.page).value.frameRef == v.frameRef
    decreases 4 - m.level[t], OBJ_LVL_MAX - i, 1
  {
    var l := m.level[t];
    if i < OBJ_LVL_MAX {
      Spans(l, i);
      EntryIsMapped(m, t, i, v);
      VisitsAreMapped(m, t, i + 1, v);
    } else {
      Spans(l, 0);
    }
  }

  lemma {:induction false} EntryIsMapped(m: Trie, t: nat, i: nat, v: Visit)
    requires Valid(m) && t < |m.tables| && TableOk(m, t) && i < OBJ_LVL_MAX
    ensures v in EntryVisits(m, t, i) <==>
              && m.base[t] + Offset(i, m.level[t]) <= v.page < m.base[t] + Offset(i + 1, m.level[t])
              && Walk(m, t, v.page).Some? && Walk(m, t, v.page).value.frameRef == v.frameRef
    decreases 4 - m.level[t], OBJ_LVL_MAX - i, 0
  {
    var l := m.level[t];
    assert EntryOk(m, t, i);
    Spans(l, i);
    if m.base[t] + Offset(i, l) <= v.page < m.base[t] + Offset(i + 1, l) {
      IndexIsPlace(m.base[t], l, v.page, i);
    }
    if m.tables[t][i].Sub? {
      assert TableOk(m, m.tables[t][i].table);
      Spans(l + 1, 0);
      VisitsAreMapped(m, m.tables[t][i].table, 0, v);
    }
  }

  // The object ----------------------------------------------------------------------------------

  datatype InsertResult = Inserted | DeleteFirst

  class MemoryObject {
    var tables: seq<seq<Entry>>   // frames and the tables below
    ghost var level: seq<nat>
    ghost var base: seq<nat>

    ghost function Img(): Trie
      reads this
    {
      Trie(tables, level, base)
    }

    ghost predicate Ok()
      reads this
    {
      Valid(Img())
    }

    /** new */
    constructor ()
      ensures Ok() && forall page: nat :: page < PAGES ==> FrameAt(Img(), page) == None
    {
      tables, level, base := [seq(OBJ_LVL_MAX, _ => Empty)], [0], [0];
    }

    /** lookup_frame */
    method Lookup(offset: nat) returns (r: Option<ObjectFrame>)
      requires Ok()
      ensures r == FrameAt(Img(), offset / PAGE_SIZE_4K % PAGES)
    {
      ghost var page := offset / PAGE_SIZE_4K % PAGES;
      var shift, lvl, cur := 39, 0, 0;
      assert TableOk(Img(), 0);
      while lvl < 4
        invariant lvl < 4 && shift == 39 - 9 * lvl && cur < |tables|
        invariant TableOk(Img(), cur) && level[cur] == lvl && Walk(Img(), cur, page) == FrameAt(Img(), page)
        decreases 4 - lvl
      {
        IndexOfOffset(offset, lvl);
        var idx := IndexAt(offset, shift);
        assert EntryOk(Img(), cur, idx);
        match tables[cur][idx] {
          case Empty => return None;
          case Leaf(f) => return Some(f);
          case Sub(u) =>
            assert TableOk(Img(), u);
            cur := u;
        }
        lvl, shift := lvl + 1, shift - 9;
      }
      r := None;
    }

    /** An empty table below the empty entry i of table t. */
    method AddTable(t: nat, i: nat, ghost page: nat)
      requires Ok() && t < |tables| && TableOk(Img(), t) && level[t] < 3 && i < OBJ_LVL_MAX && tables[t][i] == Empty
      requires i == IndexOf(page, level[t]) && TableOk(Img(), 0) && Leads(Img(), 0, t, page)
      modifies this
      ensures Ok() && Img() == WithTable(old(Img()), t, i)
      ensures TableOk(Img(), 0) && TableOk(Img(), t) && Leads(Img(), 0, t, page)
      ensures forall q: nat :: FrameAt(Img(), q) == FrameAt(old(Img()), q)
    {
      ghost var m := Img();
      WithTableValid(m, t, i);
      WithTableLeads(m, t, i, 0, t, page);
      forall q: nat
        ensures FrameAt(WithTable(m, t, i), q) == FrameAt(m, q)
      {
        WithTableSame(m, t, i, 0, q);
      }
      level, base := level + [level[t] + 1], base + [base[t] + Offset(i, level[t])];
      tables := tables[t := tables[t][i := Sub(|tables|)]] + [seq(OBJ_LVL_MAX, _ => Empty)];
      assert Img() == WithTable(m, t, i);
      assert TableOk(Img(), t);
    }

    /** The frame stored in the empty entry for the page. */
    method SetLeaf(t: nat, i: nat, f: ObjectFrame, ghost page: nat)
      requires Ok() && t < |tables| && TableOk(Img(), t) && level[t] == 3 && page < PAGES
      requires i == IndexOf(page, 3) && tables[t][i] == Empty && TableOk(Img(), 0) && Leads(Img(), 0, t, page)
      modifies this`tables
      ensures Ok() && FrameAt(Img(), page) == Some(f)
      ensures forall q: nat :: q < PAGES && q != page ==> FrameAt(Img(), q) == FrameAt(old(Img()), q)
    {
      ghost var m := Img();
      LeadsCovers(m, 0, t, page);
      IndexIsPlace(m.base[t], 3, page, i);
      WithLeafValid(m, t, i, f);
      WithLeafHere(m, t, f, 0, page);
      forall q: nat | q < PAGES && q != page
        ensures FrameAt(WithLeaf(m, t, i, f), q) == FrameAt(m, q)
      {
        WithLeafElsewhere(m, t, i, f, 0, q);
      }
      tables := tables[t := tables[t][i := Leaf(f)]];
      assert Img() == WithLeaf(m, t, i, f);
    }

    /** One level down; an empty entry gets a table first. */
    method Descend(t: nat, i: nat, ghost page: nat) returns (u: nat)
      requires Ok() && t < |tables| && TableOk(Img(), t) && level[t] < 3 && i == IndexOf(page, level[t])
      requires TableOk(Img(), 0) && Leads(Img(), 0, t, page)
      modifies this
      ensures Ok() && u < |tables| && TableOk(Img(), u) && level[u] == old(level[t]) + 1
      ensures TableOk(Img(), 0) && Leads(Img(), 0, u, page)
      ensures forall q: nat :: FrameAt(Img(), q) == FrameAt(old(Img()), q)
    {
      assert EntryOk(Img(), t, i);
      if tables[t][i] == Empty {
        AddTable(t, i, page);
      }
      assert EntryOk(Img(), t, i);
      LeadsOn(Img(), 0, t, page);
      u := tables[t][i].table;
      assert TableOk(Img(), u);
    }

    /** insert_frame_at: the page gets the frame and no other changes; an occupied page is refused. */
    method Insert(offset: nat, f: ObjectFrame) returns (r: InsertResult)
      requires Ok()
      modifies this
      ensures Ok()
      ensures var page := offset / PAGE_SIZE_4K % PAGES;
              && (r == DeleteFirst <==> FrameAt(old(Img()), page).Some?)
              && FrameAt(Img(), page) == (if r == DeleteFirst then FrameAt(old(Img()), page) else Some(f))
              && forall q: nat :: q < PAGES && q != page ==> FrameAt(Img(), q) == FrameAt(old(Img()), q)
    {
      ghost var page, m := offset / PAGE_SIZE_4K % PAGES, Img();
      var shift: nat, lvl: nat, cur: nat := 39, 0, 0;
      assert TableOk(Img(), 0);
      while lvl < 3
        invariant Ok() && lvl <= 3 && shift == 39 - 9 * lvl && cur < |tables| && TableOk(Img(), cur) && level[cur] == lvl
        invariant TableOk(Img(), 0) && Leads(Img(), 0, cur, page)
        invariant forall q: nat :: FrameAt(Img(), q) == FrameAt(m, q)
      {
        IndexOfOffset(offset, lvl);
        cur := Descend(cur, IndexAt(offset, shift), page);
        lvl, shift := lvl + 1, shift - 9;
      }
      IndexOfOffset(offset, 3);
      var idx := IndexAt(offset, shift);
      LeadsOn(Img(), 0, cur, page);
      assert EntryOk(Img(), cur, idx);
      if tables[cur][idx] == Empty {
        SetLeaf(cur, idx, f, page);
        return Inserted;
      }
      r := DeleteFirst;
    }
  }

  function RefsOf(s: seq<Visit>): (r: seq<nat>)
    ensures |r| == |s| && forall k :: 0 <= k < |s| ==> r[k] == s[k].frameRef
  {
    seq(|s|, k requires 0 <= k < |s| => s[k].frameRef)
  }

  function Reversed(s: seq<nat>): seq<nat> {
    if s == [] then [] else Reversed(s[1..]) + [s[0]]
  }

  lemma {:induction false} ReversedJoin(a: seq<nat>, b: seq<nat>)
    ensures Reversed(a + b) == Reversed(b) + Reversed(a)
  {
    if a == [] {
      assert a + b == b;
    } else {
      assert (a + b)[1..] == a[1..] + b;
      ReversedJoin(a[1..], b);
    }
  }

  /** From g to the table now the frames s were freed, one after the other. */
  ghost predicate FreedAll(frees: seq<nat>, allocs: multiset<nat>, frees': seq<nat>, allocs': multiset<nat>, s: seq<nat>) {
    && multiset(s) <= allocs && allocs' == allocs - multiset(s)
    && frees' == Reversed(s) + frees
  }

  lemma {:induction false} TakenTwice(a: multiset<nat>, s: multiset<nat>, r: multiset<nat>)
    requires s <= a && r <= a - s
    ensures s + r <= a && a - s - r == a - (s + r)
  {
  }

  lemma {:induction false} FreedMore(f0: seq<nat>, a0: multiset<nat>, f1: seq<nat>, a1: multiset<nat>, s: seq<nat>,
                                     f2: seq<nat>, a2: multiset<nat>, r: seq<nat>)
    requires FreedAll(f0, a0, f1, a1, s) && FreedAll(f1, a1, f2, a2, r)
    ensures FreedAll(f0, a0, f2, a2, s + r)
  {
    ReversedJoin(s, r);
    TakenTwice(a0, multiset(s), multiset(r));
    assert multiset(s + r) == multiset(s) + multiset(r);
    Associates(Reversed(r), Reversed(s), f0);
  }

  lemma {:induction false} Associates(a: seq<nat>, b: seq<nat>, c: seq<nat>)
    ensures a + (b + c) == (a + b) + c
  {
  }

  /** In the middle of a table: the frames of `done` were freed, those of `rest` are still to be. */
  ghost predicate Cleaning(f0: seq<nat>, a0: multiset<nat>, f1: seq<nat>, a1: multiset<nat>,
                           done: seq<Visit>, rest: seq<Visit>, all: seq<Visit>) {
    FreedAll(f0, a0, f1, a1, RefsOf(done)) && done + rest == all && multiset(RefsOf(rest)) <= a1
  }

  lemma {:induction false} CleaningStarts(f0: seq<nat>, a0: multiset<nat>, all: seq<Visit>)
    requires multiset(RefsOf(all)) <= a0
    ensures Cleaning(f0, a0, f0, a0, [], all, all)
  {
    assert RefsOf([]) == [];
    assert [] + all == all;
  }

  lemma {:induction false} CleaningNext(f0: seq<nat>, a0: multiset<nat>, f1: seq<nat>, a1: multiset<nat>,
                                        f2: seq<nat>, a2: multiset<nat>, done: seq<Visit>, v: seq<Visit>,
                                        rest: seq<Visit>, all: seq<Visit>)
    requires Cleaning(f0, a0, f1, a1, done, v + rest, all) && FreedAll(f1, a1, f2, a2, RefsOf(v))
    ensures Cleaning(f0, a0, f2, a2, done + v, rest, all)
  {
    SplitRefs(v, rest);
    SplitRefs(done, v);
    FreedMore(f0, a0, f1, a1, RefsOf(done), f2, a2, RefsOf(v));
    Leftover(a1, multiset(RefsOf(v)), multiset(RefsOf(rest)));
    AssociatesVisits(done, v, rest);
  }

  lemma {:induction false} Leftover(a: multiset<nat>, s: multiset<nat>, r: multiset<nat>)
    requires s + r <= a
    ensures s <= a && r <= a - s
  {
  }

  lemma {:induction false} AssociatesVisits(a: seq<Visit>, b: seq<Visit>, c: seq<Visit>)
    ensures a + (b + c) == (a + b) + c
  {
  }

  /** One frame of the table freed. */
  method FreeOne(ft: Table, x: nat)
    requires ft.Valid() && x in ft.allocRefs
    modifies ft
    ensures ft.Valid()
    ensures FreedAll(old(ft.freeRefs), multiset(old(ft.allocRefs)), ft.freeRefs, multiset(ft.allocRefs), [x])
  {
    ghost var s := ft.allocRefs;
    ghost var i :| 0 <= i < |s| && s[i] == x;
    assert s == s[..i] + [s[i]] + s[i + 1..];
    ft.FreeFrame(x, i);
    assert Reversed([x]) == [x];
  }

  /** cleanup_obj_table_inner: every frame below table t goes back to the free list, each once. */
  method CleanupTable(o: MemoryObject, ft: Table, t: nat)
    requires o.Ok() && t < |o.tables| && TableOk(o.Img(), t) && ft.Valid()
    requires multiset(RefsOf(Visits(o.Img(), t, 0))) <= multiset(ft.allocRefs)
    modifies ft
    ensures ft.Valid()
    ensures FreedAll(old(ft.freeRefs), multiset(old(ft.allocRefs)), ft.freeRefs, multiset(ft.allocRefs),
                     RefsOf(Visits(o.Img(), t, 0)))
    decreases 4 - o.level[t], 3
  {
    ghost var f0, a0, all := ft.freeRefs, multiset(ft.allocRefs), Visits(o.Img(), t, 0);
    CleaningStarts(f0, a0, all);
    ghost var done := CleanupEntries(o, ft, t, f0, a0, all);
    CleaningEnds(f0, a0, ft.freeRefs, multiset(ft.allocRefs), done, all);
  }

  /** The loop over the entries of a table. */
  method CleanupEntries(o: MemoryObject, ft: Table, t: nat, ghost f0: seq<nat>, ghost a0: multiset<nat>,
                        ghost all: seq<Visit>) returns (ghost done: seq<Visit>)
    requires o.Ok() && t < |o.tables| && TableOk(o.Img(), t) && ft.Valid()
    requires Cleaning(f0, a0, ft.freeRefs, multiset(ft.allocRefs), [], Visits(o.Img(), t, 0), all)
    modifies ft
    ensures ft.Valid()
    ensures Cleaning(f0, a0, ft.freeRefs, multiset(ft.allocRefs), done, [], all)
    decreases 4 - o.level[t], 2
  {
    done := [];
    for i := 0 to OBJ_LVL_MAX
      invariant ft.Valid()
      invariant Cleaning(f0, a0, ft.freeRefs, multiset(ft.allocRefs), done, Visits(o.Img(), t, i), all)
    {
      done := CleanupNext(o, ft, t, i, f0, a0, done, all);
    }
  }

  lemma {:induction false} CleaningEnds(f0: seq<nat>, a0: multiset<nat>, f1: seq<nat>, a1: multiset<nat>,
                                        done: seq<Visit>, all: seq<Visit>)
    requires Cleaning(f0, a0, f1, a1, done, [], all)
    ensures FreedAll(f0, a0, f1, a1, RefsOf(all))
  {
    assert done + [] == done;
  }

  /** One round of the loop over a table. */
  method CleanupNext(o: MemoryObject, ft: Table, t: nat, i: nat, ghost f0: seq<nat>, ghost a0: multiset<nat>,
                     ghost done: seq<Visit>, ghost all: seq<Visit>) returns (ghost done': seq<Visit>)
    requires o.Ok() && t < |o.tables| && TableOk(o.Img(), t) && ft.Valid() && i < OBJ_LVL_MAX
    requires Cleaning(f0, a0, ft.freeRefs, multiset(ft.allocRefs), done, Visits(o.Img(), t, i), all)
    modifies ft
    ensures ft.Valid()
    ensures Cleaning(f0, a0, ft.freeRefs, multiset(ft.allocRefs), done', Visits(o.Img(), t, i + 1), all)
    decreases 4 - o.level[t], 1
  {
    ghost var f1, a1 := ft.freeRefs, multiset(ft.allocRefs);
    ghost var v, rest := EntryVisits(o.Img(), t, i), Visits(o.Img(), t, i + 1);
    SplitRefs(v, rest);
    CleanupEntry(o, ft, t, i);
    CleaningNext(f0, a0, f1, a1, ft.freeRefs, multiset(ft.allocRefs), done, v, rest, all);
    done' := done + v;
  }

  lemma {:induction false} SplitRefs(a: seq<Visit>, b: seq<Visit>)
    ensures RefsOf(a + b) == RefsOf(a) + RefsOf(b)
    ensures multiset(RefsOf(a + b)) == multiset(RefsOf(a)) + multiset(RefsOf(b))
  {
    assert RefsOf(a + b) == RefsOf(a) + RefsOf(b);
  }

  /** One entry of a table. */
  method CleanupEntry(o: MemoryObject, ft: Table, t: nat, i: nat)
    requires o.Ok() && t < |o.tables| && TableOk(o.Img(), t) && ft.Valid() && i < OBJ_LVL_MAX
    requires multiset(RefsOf(EntryVisits(o.Img(), t, i))) <= multiset(ft.allocRefs)
    modifies ft
    ensures ft.Valid()
    ensures FreedAll(old(ft.freeRefs), multiset(old(ft.allocRefs)), ft.freeRefs, multiset(ft.allocRefs),
                     RefsOf(EntryVisits(o.Img(), t, i)))
    decreases 4 - o.level[t], 0
  {
    assert EntryOk(o.Img(), t, i);
    match o.tables[t][i] {
      case Empty =>
        assert RefsOf([]) == [];
      case Leaf(f) =>
        assert RefsOf(EntryVisits(o.Img(), t, i)) == [f.frameRef];
        assert f.frameRef in multiset([f.frameRef]);
        FreeOne(ft, f.frameRef);
      case Sub(u) =>
        assert TableOk(o.Img(), u);
        CleanupTable(o, ft, u);
    }
  }

  /** cleanup_frame_table: distinct frames of the table, one per page, all return to the free list. */
  method CleanupObject(o: MemoryObject, ft: Table)
    requires o.Ok() && ft.Valid() && OwnsFrames(o.Img(), ft.allocRefs)
    modifies ft
    ensures ft.Valid()
    ensures forall page: nat :: page < PAGES && FrameAt(o.Img(), page).Some? ==>
              FrameAt(o.Img(), page).value.frameRef in ft.freeRefs && FrameAt(o.Img(), page).value.frameRef !in ft.allocRefs
    ensures |ft.freeRefs| - |old(ft.freeRefs)| == |old(ft.allocRefs)| - |ft.allocRefs|
  {
    ghost var m := o.Img();
    assert TableOk(m, 0);
    ghost var v := Visits(m, 0, 0);
    OwnedOnce(m, v, ft.allocRefs);
    OnceEachList(ft.allocRefs);
    CleanupTable(o, ft, 0);
    AllFreed(m, v, old(ft.freeRefs), old(ft.allocRefs), ft.freeRefs, ft.allocRefs);
  }

  /** Every page of the object has a frame of its own, allocated from the table. */
  ghost predicate OwnsFrames(m: Trie, allocs: seq<nat>)
    requires Valid(m)
  {
    && (forall p: nat :: p < PAGES && FrameAt(m, p).Some? ==> FrameAt(m, p).value.frameRef in allocs)
    && forall p: nat, q: nat :: p < PAGES && q < PAGES && FrameAt(m, p).Some? && FrameAt(m, q).Some? && p != q ==>
         FrameAt(m, p).value.frameRef != FrameAt(m, q).value.frameRef
  }

  lemma {:induction false} VisitIsOwned(m: Trie, v: seq<Visit>, allocs: seq<nat>, k: nat)
    requires Valid(m) && OwnsFrames(m, allocs) && TableOk(m, 0) && v == Visits(m, 0, 0) && k < |v|
    ensures v[k].page < PAGES && FrameAt(m, v[k].page).Some? && FrameAt(m, v[k].page).value.frameRef == v[k].frameRef
    ensures v[k].frameRef in allocs
  {
    assert v[k] in v;
    Spans(0, 0);
    VisitsAreMapped(m, 0, 0, v[k]);
  }

  /** Each page is met once, so each of its frames is. */
  lemma {:induction false} OwnedOnce(m: Trie, v: seq<Visit>, allocs: seq<nat>)
    requires Valid(m) && OwnsFrames(m, allocs) && TableOk(m, 0) && v == Visits(m, 0, 0)
    ensures multiset(RefsOf(v)) <= multiset(allocs) && forall x :: x in RefsOf(v) ==> multiset(RefsOf(v))[x] == 1
  {
    VisitsIncrease(m, 0, 0);
    var r := RefsOf(v);
    forall j, k | 0 <= j < k < |r|
      ensures r[j] != r[k]
    {
      VisitIsOwned(m, v, allocs, j);
      VisitIsOwned(m, v, allocs, k);
    }
    forall k | 0 <= k < |r|
      ensures r[k] in allocs
    {
      VisitIsOwned(m, v, allocs, k);
    }
    OnceEach(r);
    forall x
      ensures multiset(r)[x] <= multiset(allocs)[x]
    {
      if x in r {
        assert x in allocs;
      }
    }
  }

  lemma {:induction false} OnceEach(r: seq<nat>)
    requires forall j, k :: 0 <= j < k < |r| ==> r[j] != r[k]
    ensures forall x :: x in r ==> multiset(r)[x] == 1
  {
    if r != [] {
      var n := |r| - 1;
      OnceEach(r[..n]);
      assert r == r[..n] + [r[n]];
      forall x | x in r
        ensures multiset(r)[x] == 1
      {
        assert r[n] !in r[..n];
      }
    }
  }

  lemma {:induction false} ReversedHas(s: seq<nat>, x: nat)
    ensures |Reversed(s)| == |s| && (x in Reversed(s) <==> x in s)
  {
    if s != [] {
      ReversedHas(s[1..], x);
      assert s == [s[0]] + s[1..];
    }
  }

  lemma {:induction false} OnceEachList(s: seq<nat>)
    requires NoTwice(s)
    ensures forall x :: multiset(s)[x] <= 1
  {
    forall j: nat, k: nat | j < k < |s|
      ensures s[j] != s[k]
    {
      assert Untypeds.Differ(s, j, k);
    }
    OnceEach(s);
  }

  lemma {:induction false} AllFreed(m: Trie, v: seq<Visit>, f0: seq<nat>, a0: seq<nat>, f1: seq<nat>, a1: seq<nat>)
    requires Valid(m) && TableOk(m, 0) && v == Visits(m, 0, 0) && (forall x :: multiset(a0)[x] <= 1)
    requires FreedAll(f0, multiset(a0), f1, multiset(a1), RefsOf(v))
    ensures forall page: nat :: page < PAGES && FrameAt(m, page).Some? ==>
              FrameAt(m, page).value.frameRef in f1 && FrameAt(m, page).value.frameRef !in a1
    ensures |f1| - |f0| == |a0| - |a1|
  {
    ReversedHas(RefsOf(v), 0);
    forall page: nat | page < PAGES && FrameAt(m, page).Some?
      ensures FrameAt(m, page).value.frameRef in f1 && FrameAt(m, page).value.frameRef !in a1
    {
      var x := FrameAt(m, page).value.frameRef;
      VisitsAreMapped(m, 0, 0, Visit(page, x));
      var k :| 0 <= k < |v| && v[k] == Visit(page, x);
      assert RefsOf(v)[k] == x;
      ReversedHas(RefsOf(v), x);
      assert multiset(RefsOf(v))[x] >= 1;
      assert multiset(a1)[x] == 0;
    }
    assert |multiset(a1)| == |multiset(a0)| - |multiset(RefsOf(v))|;
  }
}
