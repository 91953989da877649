/** Bytes and 32-bit words. */
module Bytes {

  type Byte = x: int | 0 <= x < 0x100

  // The little-endian 32-bit word at an offset; 0 where there is none.
  function WordAt(m: seq<Byte>, at: nat): nat {
    if at + 4 > |m| then 0
    else
      var b0: int, b1: int, b2: int, b3: int := m[at], m[at + 1], m[at + 2], m[at + 3];
      b0 + 0x100 * b1 + 0x1_0000 * b2 + 0x100_0000 * b3
  }
}
