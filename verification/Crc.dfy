/** The cyclic redundancy checks: bytes in, value out. */
module Crc {
  import opened Common
  import opened LinearFold

  function Xor8(a: Byte, b: Byte): Byte { a ^ b }

  function Xor16(a: Word, b: Word): Word { a ^ b }

  /** An 8-bit value, zero-extended. */
  function Widen(b: Byte): Word { b as Word }

  // ---------- one division step ----------

  /** Whether the bit about to be shifted out of the register is set. */
  function Out8(crc: Byte, reflect: bool): bool {
    if reflect then crc & 0x01 != 0 else crc & 0x80 != 0
  }

  function Shift8(crc: Byte, reflect: bool): Byte {
    if reflect then crc >> 1 else crc << 1
  }

  function Step8(crc: Byte, p: Byte, reflect: bool): Byte {
    if Out8(crc, reflect) then Shift8(crc, reflect) ^ p else Shift8(crc, reflect)
  }

  function Out16(crc: Word, reflect: bool): bool {
    if reflect then crc & 0x0001 != 0 else crc & 0x8000 != 0
  }

  function Shift16(crc: Word, reflect: bool): Word {
    if reflect then crc >> 1 else crc << 1
  }

  function Step16(crc: Word, p: Word, reflect: bool): Word {
    if Out16(crc, reflect) then Shift16(crc, reflect) ^ p else Shift16(crc, reflect)
  }

  function Stepper8(p: Byte, reflect: bool): Byte -> Byte {
    (r: Byte) => Step8(r, p, reflect)
  }

  function Stepper16(p: Word, reflect: bool): Word -> Word {
    (r: Word) => Step16(r, p, reflect)
  }

  // ---------- reflection ----------

  /** Bit i of the result is bit 7 - i of the argument. */
  function Reflect8(v: Byte): Byte {
    ((v & 0x01) << 7) | ((v & 0x02) << 5) | ((v & 0x04) << 3) | ((v & 0x08) << 1) |
    ((v & 0x10) >> 1) | ((v & 0x20) >> 3) | ((v & 0x40) >> 5) | ((v & 0x80) >> 7)
  }

  /** Bit i of the result is bit 15 - i of the argument. */
  function Reflect16(v: Word): Word {
    ((Reflect8((v & 0xFF) as Byte) as Word) << 8) | (Reflect8((v >> 8) as Byte) as Word)
  }

  // ---------- whole messages ----------

  /** A data byte joins an 8-bit register directly. */
  function Joiner8(): (Byte, Byte) -> Byte {
    (crc: Byte, byte: Byte) => crc ^ byte
  }

  /** It joins a 16-bit register at the end the shifts consume first. */
  function Join16(crc: Word, byte: Byte, reflect: bool): Word {
    if reflect then crc ^ (byte as Word) else crc ^ ((byte as Word) << 8)
  }

  function Joiner16(reflect: bool): (Word, Byte) -> Word {
    (crc: Word, byte: Byte) => Join16(crc, byte, reflect)
  }

  /** The polynomial as the direction of travel uses it. */
  function Oriented8(polynomial: Byte, reflect: bool): Byte {
    if reflect then Reflect8(polynomial) else polynomial
  }

  function Oriented16(polynomial: Word, reflect: bool): Word {
    if reflect then Reflect16(polynomial) else polynomial
  }

  function Crc8(data: seq<Byte>, polynomial: Byte, init: Byte, xorOut: Byte, reflect: bool): Byte {
    Xor8(Register(Stepper8(Oriented8(polynomial, reflect), reflect), Joiner8(), init, data), xorOut)
  }

  /** Reflecting the input already reverses the register, so only a disagreement undoes it. */
  function Finish16(crc: Word, reflectIn: bool, reflectOut: bool): Word {
    if reflectOut != reflectIn then Reflect16(crc) else crc
  }

  function Crc16(data: seq<Byte>, polynomial: Word, init: Word, xorOut: Word,
                 reflectIn: bool, reflectOut: bool): Word {
    var register := Register(Stepper16(Oriented16(polynomial, reflectIn), reflectIn), Joiner16(reflectIn), init, data);
    Xor16(Finish16(register, reflectIn, reflectOut), xorOut)
  }

  /** Eight divisions of an 8-bit register: the inner loop. */
  method Divide8(start: Byte, p: Byte, reflect: bool) returns (crc: Byte)
    ensures crc == Iterate(Stepper8(p, reflect), start, 8)
  {
    hide Out8, Shift8;
    crc := start;
    for k := 0 to 8
      invariant crc == Iterate(Stepper8(p, reflect), start, k)
    {
      crc := if Out8(crc, reflect) then Shift8(crc, reflect) ^ p else Shift8(crc, reflect);
    }
  }

  method Crc8Parameterised(data: seq<Byte>, polynomial: Byte, init: Byte, xorOut: Byte, reflect: bool)
    returns (r: Byte)
    ensures r == Crc8(data, polynomial, init, xorOut, reflect)
  {
    var crc := init;
    var p := if reflect then Reflect8(polynomial) else polynomial;
    hide Reflect8, Stepper8, Joiner8;
    for i := 0 to |data|
      invariant crc == Register(Stepper8(p, reflect), Joiner8(), init, data[..i])
    {
      assert data[..i + 1][..i] == data[..i];
      crc := Divide8(Joiner8()(crc, data[i]), p, reflect);
    }
    assert data[..|data|] == data;
    r := Xor8(crc, xorOut);
  }

  method Divide16(start: Word, p: Word, reflect: bool) returns (crc: Word)
    ensures crc == Iterate(Stepper16(p, reflect), start, 8)
  {
    hide Out16, Shift16;
    crc := start;
    for k := 0 to 8
      invariant crc == Iterate(Stepper16(p, reflect), start, k)
    {
      crc := if Out16(crc, reflect) then Shift16(crc, reflect) ^ p else Shift16(crc, reflect);
    }
  }

  method Crc16Parameterised(data: seq<Byte>, polynomial: Word, init: Word, xorOut: Word,
                            reflectIn: bool, reflectOut: bool)
    returns (r: Word)
    ensures r == Crc16(data, polynomial, init, xorOut, reflectIn, reflectOut)
  {
    var crc := init;
    var p := if reflectIn then Reflect16(polynomial) else polynomial;
    hide Reflect16, Joiner16, Stepper16;
    for i := 0 to |data|
      invariant crc == Register(Stepper16(p, reflectIn), Joiner16(reflectIn), init, data[..i])
    {
      assert data[..i + 1][..i] == data[..i];
      crc := Divide16(Joiner16(reflectIn)(crc, data[i]), p, reflectIn);
    }
    assert data[..|data|] == data;
    if reflectOut != reflectIn {
      crc := Reflect16(crc);
    }
    r := Xor16(crc, xorOut);
  }
}
