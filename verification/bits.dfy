/** Byte and word helpers: the byte swaps the C code takes from its host
    headers, and loading a 32-bit word from guest memory on a little- or
    big-endian host. */
module Bits {

  type byte = bv8

  /** Byte `i` (0 = least significant) of a word.  The index is a bit-vector
      so that the shift amount is never converted from an integer. */
  function ByteOf(w: bv32, i: bv32): byte
    requires i < 4
  {
    ((w >> (8 * i)) & 0xff) as byte
  }

  /** bswap16: exchange the two bytes of a halfword. */
  function Bswap16(h: bv16): (r: bv16)
    ensures r & 0xff == h >> 8
    ensures r >> 8 == h & 0xff
  {
    (h << 8) | (h >> 8)
  }

  /** bswap32: reverse the four bytes of a word (Bswap32Bytes). */
  function Bswap32(w: bv32): bv32 {
    ((w & 0xff) << 24) | ((w & 0xff00) << 8) | ((w >> 8) & 0xff00) | (w >> 24)
  }

  lemma Bswap32Bytes(w: bv32)
    ensures ByteOf(Bswap32(w), 0) == ByteOf(w, 3) && ByteOf(Bswap32(w), 1) == ByteOf(w, 2)
    ensures ByteOf(Bswap32(w), 2) == ByteOf(w, 1) && ByteOf(Bswap32(w), 3) == ByteOf(w, 0)
  {
  }

  /** The FB_SWAP_32_WORDS step of framebuffer_swap: exchange the 16-bit
      halves of a word. */
  function SwapHalves(w: bv32): (r: bv32)
    ensures r & 0xffff == w >> 16
    ensures r >> 16 == w & 0xffff
  {
    ((w & 0x0000ffff) << 16) | ((w & 0xffff0000) >> 16)
  }

  lemma Bswap16Involutive(h: bv16)
    ensures Bswap16(Bswap16(h)) == h
  {
  }

  lemma Bswap32Involutive(w: bv32)
    ensures Bswap32(Bswap32(w)) == w
  {
  }

  lemma SwapHalvesInvolutive(w: bv32)
    ensures SwapHalves(SwapHalves(w)) == w
  {
  }

  /** The word whose bytes, least significant first, are b0 b1 b2 b3. */
  function Assemble(b0: byte, b1: byte, b2: byte, b3: byte): (w: bv32)
    ensures ByteOf(w, 0) == b0 && ByteOf(w, 1) == b1 && ByteOf(w, 2) == b2 && ByteOf(w, 3) == b3
  {
    (b0 as bv32) | ((b1 as bv32) << 8) | ((b2 as bv32) << 16) | ((b3 as bv32) << 24)
  }

  /** A word is assembled from its own four bytes. */
  lemma AssembleBytes(w: bv32)
    ensures Assemble(ByteOf(w, 0), ByteOf(w, 1), ByteOf(w, 2), ByteOf(w, 3)) == w
  {
  }

  /** `*(uint32_t *)p` on a host of the given byte order, p pointing at the
      four bytes `m`. */
  function LoadWord(bigEndianHost: bool, m: seq<byte>): (w: bv32)
    requires |m| == 4
    ensures var b := if bigEndianHost then [m[3], m[2], m[1], m[0]] else m;
      ByteOf(w, 0) == b[0] && ByteOf(w, 1) == b[1] && ByteOf(w, 2) == b[2] && ByteOf(w, 3) == b[3]
  {
    if bigEndianHost then Assemble(m[3], m[2], m[1], m[0])
    else Assemble(m[0], m[1], m[2], m[3])
  }

  /** `*(uint32_t *)p = w` on a host of the given byte order: the four bytes
      written at p. */
  function StoreWord(bigEndianHost: bool, w: bv32): (m: seq<byte>)
    ensures |m| == 4
    ensures LoadWord(bigEndianHost, m) == w
  {
    AssembleBytes(w);
    var b0, b1, b2, b3 := ByteOf(w, 0), ByteOf(w, 1), ByteOf(w, 2), ByteOf(w, 3);
    if bigEndianHost then [b3, b2, b1, b0] else [b0, b1, b2, b3]
  }

  /** The halfword whose low byte is lo and high byte is hi. */
  function AssembleHalf(lo: byte, hi: byte): (h: bv16)
    ensures (h & 0xff) as byte == lo && (h >> 8) as byte == hi
  {
    (lo as bv16) | ((hi as bv16) << 8)
  }

  lemma AssembleHalfBytes(h: bv16)
    ensures AssembleHalf((h & 0xff) as byte, (h >> 8) as byte) == h
  {
  }

  /** `*(uint16_t *)p` on a host of the given byte order. */
  function LoadHalf(bigEndianHost: bool, m: seq<byte>): (h: bv16)
    requires |m| == 2
    ensures (h & 0xff) as byte == (if bigEndianHost then m[1] else m[0])
    ensures (h >> 8) as byte == (if bigEndianHost then m[0] else m[1])
  {
    if bigEndianHost then AssembleHalf(m[1], m[0]) else AssembleHalf(m[0], m[1])
  }

  /** `*(uint16_t *)p = h` on a host of the given byte order. */
  function StoreHalf(bigEndianHost: bool, h: bv16): (m: seq<byte>)
    ensures |m| == 2
    ensures LoadHalf(bigEndianHost, m) == h
  {
    AssembleHalfBytes(h);
    var lo, hi := (h & 0xff) as byte, (h >> 8) as byte;
    if bigEndianHost then [hi, lo] else [lo, hi]
  }

  /** A big-endian load sees the byte-swapped little-endian word: the two
      hosts differ exactly by bswap32. */
  lemma LoadWordHosts(m: seq<byte>)
    requires |m| == 4
    ensures LoadWord(true, m) == Bswap32(LoadWord(false, m))
  {
  }

  lemma StoreLoadWord(bigEndianHost: bool, m: seq<byte>)
    requires |m| == 4
    ensures StoreWord(bigEndianHost, LoadWord(bigEndianHost, m)) == m
  {
  }
}
