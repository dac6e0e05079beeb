/** Fixed-width numbers and the bytes they travel as. */
module Numbers {
  import opened Common

  type U16 = w: nat | w < 0x1_0000

  type U32 = w: nat | w < 0x1_0000_0000

  function Byte0(w: U32): Octet { w % 256 }
  function Byte1(w: U32): Octet { w / 256 % 256 }
  function Byte2(w: U32): Octet { w / 256 / 256 % 256 }
  function Byte3(w: U32): Octet { w / 256 / 256 / 256 }

  function LittleEndian(b0: Octet, b1: Octet, b2: Octet, b3: Octet): U32 {
    b0 + 256 * (b1 + 256 * (b2 + 256 * b3))
  }

  function BigEndian16(high: Octet, low: Octet): U16 { 256 * (high as int) + low }

  lemma LittleEndianRoundTrip(w: U32)
    ensures LittleEndian(Byte0(w), Byte1(w), Byte2(w), Byte3(w)) == w
  {
  }
}
