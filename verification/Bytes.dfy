/** Bytes, sectors and the 32-bit arithmetic of the C sources. */
module Bytes {

  /** BYTE. */
  type byte = x: int | 0 <= x < 256

  /** The bytes of one sector. */
  type Sector = seq<byte>

  const TWO32: int := 0x1_0000_0000

  /** The value of an unsigned 32-bit subtraction, wrap-around included. */
  function Sub32(a: int, b: int): nat {
    (a - b) % TWO32
  }

  /** An unsigned 32-bit sum. */
  function Sum32(a: nat, b: nat): (c: nat)
    ensures a + b < TWO32 ==> c == a + b
  {
    (a + b) % TWO32
  }

  /** Conversion of an unsigned 32-bit value to int32_t. */
  function Int32(x: int): int {
    var u := x % TWO32;
    if u < 0x8000_0000 then u else u - TWO32
  }

  lemma {:induction false} Int32Identity(x: int)
    requires -0x8000_0000 <= x < 0x8000_0000
    ensures Int32(x) == x
  {
  }

  /** The single unsigned comparison by which the C code tests for a range. */
  lemma {:induction false} Sub32Range(x: nat, lo: nat, n: nat)
    requires x < TWO32 && lo + n < TWO32
    ensures Sub32(x, lo) < n <==> lo <= x < lo + n
  {
  }
}
