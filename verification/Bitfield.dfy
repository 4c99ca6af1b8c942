/** Bit fields of 64-bit words; a word is the sequence of its bits, the lowest first. */
module Bitfield {

  const WORD_BITS: nat := 64

  type Word = w: seq<bool> | |w| == 64 witness seq(64, _ => false)

  function WordIndex(bit: nat): nat { bit / WORD_BITS }

  function BitIndex(bit: nat): nat { bit % WORD_BITS }

  /** Bit i of the field. */
  predicate Bit(bf: seq<Word>, i: nat)
    requires i < WORD_BITS * |bf|
  {
    bf[WordIndex(i)][BitIndex(i)]
  }

  /** The field with bit i set to v. */
  function WithBit(bf: seq<Word>, i: nat, v: bool): seq<Word>
    requires i < WORD_BITS * |bf|
  {
    bf[WordIndex(i) := bf[WordIndex(i)][BitIndex(i) := v]]
  }

  lemma {:induction false} OnlyThatBit(bf: seq<Word>, i: nat, v: bool, j: nat)
    requires i < WORD_BITS * |bf| && j < WORD_BITS * |bf|
    ensures Bit(WithBit(bf, i, v), j) == if j == i then v else Bit(bf, j)
  {
    assert WordIndex(i) == WordIndex(j) && BitIndex(i) == BitIndex(j) ==> i == j;
  }

  /** bf_set_bit */
  method BfSetBit(bf: array<Word>, i: nat)
    requires i < WORD_BITS * bf.Length
    modifies bf
    ensures bf[..] == WithBit(old(bf[..]), i, true)
  {
    bf[WordIndex(i)] := bf[WordIndex(i)][BitIndex(i) := true];
  }

  /** bf_clr_bit */
  method BfClrBit(bf: array<Word>, i: nat)
    requires i < WORD_BITS * bf.Length
    modifies bf
    ensures bf[..] == WithBit(old(bf[..]), i, false)
  {
    bf[WordIndex(i)] := bf[WordIndex(i)][BitIndex(i) := false];
  }

  /** u64::MAX */
  predicate AllSet(w: Word) {
    forall k :: 0 <= k < WORD_BITS ==> w[k]
  }

  /** Trailing zeros of the inverted word: its first clear bit. */
  method FirstClear(w: Word) returns (k: nat)
    requires !AllSet(w)
    ensures k < WORD_BITS && !w[k] && forall j :: 0 <= j < k ==> w[j]
  {
    k := 0;
    while w[k]
      invariant k < WORD_BITS && forall j :: 0 <= j < k ==> w[j]
      decreases WORD_BITS - k
    {
      k := k + 1;
    }
  }

  /** bf_first_free: the first clear bit, found word by word; none if every bit is set. */
  method BfFirstFree(bf: array<Word>) returns (found: bool, bit: nat)
    ensures found <==> exists j: nat :: j < WORD_BITS * bf.Length && !Bit(bf[..], j)
    ensures found ==> bit < WORD_BITS * bf.Length && !Bit(bf[..], bit)
    ensures forall j: nat :: j < WORD_BITS * bf.Length && (found ==> j < bit) ==> Bit(bf[..], j)
  {
    var i := 0;
    while i < bf.Length && AllSet(bf[i])
      invariant i <= bf.Length && forall j: nat :: j < WORD_BITS * i ==> Bit(bf[..], j)
    {
      i := i + 1;
    }
    if i == bf.Length {
      return false, 0;
    }
    var k := FirstClear(bf[i]);
    found, bit := true, i * WORD_BITS + k;
    assert WordIndex(bit) == i && BitIndex(bit) == k;
    assert !Bit(bf[..], bit);
    forall j: nat | j < bit
      ensures Bit(bf[..], j)
    {
      assert j >= WORD_BITS * i ==> WordIndex(j) == i && BitIndex(j) == j - WORD_BITS * i;
    }
  }
}
