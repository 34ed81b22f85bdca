/**
 * Byte-order and half-word swaps of fixed-width unsigned integers (bswaps.h).
 * The C types UINT16_TYPE, UINT32_TYPE and UINT64_TYPE are checked at compile time to be
 * exactly 2, 4 and 8 bytes wide, so they are bv16, bv32 and bv64 here: no truncation arises.
 * The model follows the portable shift-and-mask expressions.
 */
module Bswaps {
  import opened Seqs

  /** The bytes of a 16-bit word, least significant first. */
  function Bytes2(x: bv16): (s: seq<bv8>)
  {
    [(x & 0xFF) as bv8, (x >> 8) as bv8]
  }

  /** The bytes of a 32-bit word, least significant first. */
  function Bytes4(x: bv32): (s: seq<bv8>)
  {
    [(x & 0xFF) as bv8, ((x >> 8) & 0xFF) as bv8, ((x >> 16) & 0xFF) as bv8, (x >> 24) as bv8]
  }

  /** The bytes of a 64-bit word, least significant first. */
  function Bytes8(x: bv64): (s: seq<bv8>)
  {
    [(x & 0xFF) as bv8, ((x >> 8) & 0xFF) as bv8, ((x >> 16) & 0xFF) as bv8, ((x >> 24) & 0xFF) as bv8,
     ((x >> 32) & 0xFF) as bv8, ((x >> 40) & 0xFF) as bv8, ((x >> 48) & 0xFF) as bv8, (x >> 56) as bv8]
  }

  /** A word is determined by its bytes, so the byte-level contracts below fix each result. */
  lemma BytesDetermineWord(x: bv64, y: bv64)
    requires Bytes8(x) == Bytes8(y)
    ensures x == y
  {
    assert Bytes8(x)[0] == Bytes8(y)[0] && Bytes8(x)[1] == Bytes8(y)[1];
    assert Bytes8(x)[2] == Bytes8(y)[2] && Bytes8(x)[3] == Bytes8(y)[3];
    assert Bytes8(x)[4] == Bytes8(y)[4] && Bytes8(x)[5] == Bytes8(y)[5];
    assert Bytes8(x)[6] == Bytes8(y)[6] && Bytes8(x)[7] == Bytes8(y)[7];
  }

  /** bswap2: exchange the two bytes of a 16-bit value. */
  function BSwap2(x: bv16): (r: bv16)
    ensures Bytes2(r) == Reverse(Bytes2(x))
  {
    ((x & 0xFF00) >> 8) | ((x & 0x00FF) << 8)
  }

  /** bswap4: reverse the byte order of a 32-bit value. */
  function BSwap4(x: bv32): (r: bv32)
    ensures Bytes4(r) == Reverse(Bytes4(x))
  {
    ((x & 0xFF00_0000) >> 24) |
    ((x & 0x00FF_0000) >> 8) |
    ((x & 0x0000_FF00) << 8) |
    ((x & 0x0000_00FF) << 24)
  }

  /** Reversal of a sequence of eight, written out. */
  lemma Reverse8<T>(s: seq<T>)
    requires |s| == 8
    ensures Reverse(s) == [s[7], s[6], s[5], s[4], s[3], s[2], s[1], s[0]]
  {
  }

  /** bswap8: reverse the byte order of a 64-bit value. */
  function BSwap8(x: bv64): (r: bv64)
    ensures Bytes8(r) == Reverse(Bytes8(x))
  {
    Reverse8(Bytes8(x));
    ((x & 0xFF00_0000_0000_0000) >> 56) |
    ((x & 0x00FF_0000_0000_0000) >> 40) |
    ((x & 0x0000_FF00_0000_0000) >> 24) |
    ((x & 0x0000_00FF_0000_0000) >> 8) |
    ((x & 0x0000_0000_FF00_0000) << 8) |
    ((x & 0x0000_0000_00FF_0000) << 24) |
    ((x & 0x0000_0000_0000_FF00) << 40) |
    ((x & 0x0000_0000_0000_00FF) << 56)
  }

  /** The 16-bit halves of a 32-bit word, low half first. */
  function Halves4(x: bv32): (s: seq<bv16>)
  {
    [(x & 0xFFFF) as bv16, (x >> 16) as bv16]
  }

  /** The 32-bit halves of a 64-bit word, low half first. */
  function Halves8(x: bv64): (s: seq<bv32>)
  {
    [(x & 0xFFFF_FFFF) as bv32, (x >> 32) as bv32]
  }

  /** hswap2: the halves of a 16-bit value are its two bytes, so this is bswap2. */
  function HSwap2(x: bv16): (r: bv16)
    ensures Bytes2(r) == Reverse(Bytes2(x))
  {
    BSwap2(x)
  }

  /** hswap4: exchange the 16-bit halves of a 32-bit value. */
  function HSwap4(x: bv32): (r: bv32)
    ensures Halves4(r) == Reverse(Halves4(x))
  {
    ((x & 0xFFFF_0000) >> 16) | ((x & 0x0000_FFFF) << 16)
  }

  /** hswap8: exchange the 32-bit halves of a 64-bit value. */
  function HSwap8(x: bv64): (r: bv64)
    ensures Halves8(r) == Reverse(Halves8(x))
  {
    ((x & 0xFFFF_FFFF_0000_0000) >> 32) | ((x & 0x0000_0000_FFFF_FFFF) << 32)
  }

  /** Swapping the bytes of a 64-bit value twice gives it back, derived from the byte-level contract. */
  lemma BSwap8Involution(x: bv64)
    ensures BSwap8(BSwap8(x)) == x
  {
    ReverseReverse(Bytes8(x));
    BytesDetermineWord(BSwap8(BSwap8(x)), x);
  }

  /** Swapping the bytes of a 32-bit value twice gives it back. */
  lemma BSwap4Involution(x: bv32)
    ensures BSwap4(BSwap4(x)) == x
  {
  }

  /** Swapping the bytes of a 16-bit value twice gives it back. */
  lemma BSwap2Involution(x: bv16)
    ensures BSwap2(BSwap2(x)) == x
  {
  }

  /** Exchanging the halves twice gives the value back. */
  lemma HSwapInvolutions(x: bv32, y: bv64)
    ensures HSwap4(HSwap4(x)) == x
    ensures HSwap8(HSwap8(y)) == y
  {
  }
}
