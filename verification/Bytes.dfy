/** Bytes, and 32-bit words as four bytes, the lowest first. */
module Bytes {
  type Byte = x: int | 0 <= x < 256

  type Word = x: int | 0 <= x < 0x1_0000_0000

  function Pack(w: Word): (p: seq<Byte>)
    ensures |p| == 4
  {
    [w % 0x100, w / 0x100 % 0x100, w / 0x1_0000 % 0x100, w / 0x100_0000]
  }

  function Unpack(a: Byte, b: Byte, c: Byte, d: Byte): Word {
    a as int + 0x100 * (b as int) + 0x1_0000 * (c as int) + 0x100_0000 * (d as int)
  }

  lemma PackUnpack(w: Word)
    ensures Unpack(Pack(w)[0], Pack(w)[1], Pack(w)[2], Pack(w)[3]) == w
  {
    PackWord(w);
  }

  lemma PackWord(w: int)
    requires 0 <= w < 0x1_0000_0000
    ensures w % 0x100 + 0x100 * (w / 0x100 % 0x100) + 0x1_0000 * (w / 0x1_0000 % 0x100)
              + 0x100_0000 * (w / 0x100_0000) == w
  {
  }
}
