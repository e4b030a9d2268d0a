/** Eight-bit values, as integers and as bit-vectors. */
module Bytes {

  type byte = x: int | 0 <= x < 256

  /** `n` bytes of erased EEPROM or flash. */
  function Erased(n: nat): (bs: seq<byte>)
    ensures |bs| == n
  {
    seq(n, _ => 0xff)
  }

  lemma DoubleBits(v: bv16)
    requires v < 0x80
    ensures (v << 1) as int == 2 * v as int
    ensures ((v << 1) | 1) as int == 2 * v as int + 1
  {
  }

  /** The binary expansion of a byte in the low half of a 16-bit register. */
  function Bits(b: byte): (v: bv16)
    ensures v as int == b
  {
    if b == 0 then 0
    else
      var half := Bits(b / 2);
      DoubleBits(half);
      if b % 2 == 0 then half << 1 else (half << 1) | 1
  }

  lemma BitsFit(b: byte)
    ensures Bits(b) < 0x100
  {
    hide Bits;
    NarrowBits(Bits(b));
  }

  lemma NarrowBits(v: bv16)
    requires v as int < 256
    ensures v < 0x100
  {
  }
}
