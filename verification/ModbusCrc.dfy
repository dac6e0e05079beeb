/**
 CRC-16/Modbus: the table-driven form against the bitwise one, the trailing check,
 and what the check detects.
 */
module ModbusCrc {
  import opened Common
  import opened Crc
  import opened CrcAlgebra
  import opened LinearFold

  /** The Modbus polynomial 0x8005 as the reflected algorithm uses it. */
  const POLY_REFLECTED: Word := 0xA001

  function Divider(): Word -> Word {
    Stepper16(POLY_REFLECTED, true)
  }

  // ---------- the table ----------

  /** One byte's worth of polynomial division. */
  function TableEntry(byte: Byte): Word {
    Iterate(Divider(), byte as Word, 8)
  }

  function Table(): (table: seq<Word>)
    ensures |table| == 256
  {
    seq(256, i requires 0 <= i < 256 => TableEntry(i as Byte))
  }

  method DivideByte(byte: Byte) returns (crc: Word)
    ensures crc == TableEntry(byte)
  {
    crc := byte as Word;
    for bit := 0 to 8
      invariant crc == Iterate(Divider(), byte as Word, bit)
    {
      crc := if crc & 1 != 0 then (crc >> 1) ^ POLY_REFLECTED else crc >> 1;
    }
  }

  method BuildTable() returns (table: array<Word>)
    ensures fresh(table) && table[..] == Table()
  {
    hide TableEntry;
    table := new Word[256];
    for byte := 0 to 256
      invariant forall i :: 0 <= i < byte ==> table[i] == TableEntry(i as Byte)
    {
      table[byte] := DivideByte(byte as Byte);
    }
  }

  function LowByte(w: Word): Byte { (w & 0xFF) as Byte }

  function HighByte(w: Word): Word { w >> 8 }

  function TableStep(crc: Word, byte: Byte): Word {
    Xor16(HighByte(crc), Table()[LowByte(Join16(crc, byte, true)) as int])
  }

  /** The streaming checksum: a fold over the table. */
  function Checksum(data: seq<Byte>): Word {
    if data == [] then 0xFFFF
    else TableStep(Checksum(data[..|data| - 1]), data[|data| - 1])
  }

  // ---------- the fast form and the general one ----------

  function Doubled(w: Word): Word { w << 1 }

  function DoubledPlusOne(w: Word): Word { (w << 1) | 1 }

  function Lifted(h: Word, k: nat): Word {
    if k == 0 then h else Doubled(Lifted(h, k - 1))
  }

  /** The largest word of `n` bits. */
  function Ones(n: nat): Word
    requires n <= 16
  {
    if n == 0 then 0 else DoubledPlusOne(Ones(n - 1))
  }

  predicate AtMost(w: Word, limit: Word) { w <= limit }

  lemma TopBitClear(a: Word, b: Word)
    requires AtMost(a, b) && AtMost(b, 0x7FFF)
    ensures AtMost(a, 0x7FFF)
  {
  }

  lemma Doubling(w: Word, limit: Word)
    requires AtMost(w, limit) && AtMost(limit, 0x7FFF)
    ensures AtMost(Doubled(w), DoubledPlusOne(limit))
    ensures AtMost(DoubledPlusOne(w), DoubledPlusOne(limit))
  {
  }

  lemma OnesBound(n: nat)
    requires n <= 15
    ensures AtMost(Ones(n), 0x7FFF)
    ensures Ones(8) == 0xFF
  {
    assert Ones(1) == 0x1;
    assert Ones(2) == 0x3;
    assert Ones(3) == 0x7;
    assert Ones(4) == 0xF;
    assert Ones(5) == 0x1F;
    assert Ones(6) == 0x3F;
    assert Ones(7) == 0x7F;
    assert Ones(8) == 0xFF;
    assert Ones(9) == 0x1FF;
    assert Ones(10) == 0x3FF;
    assert Ones(11) == 0x7FF;
    assert Ones(12) == 0xFFF;
    assert Ones(13) == 0x1FFF;
    assert Ones(14) == 0x3FFF;
    assert Ones(15) == 0x7FFF;
  }

  lemma DoubledHalves(w: Word)
    requires AtMost(w, 0x7FFF)
    ensures Step16(Doubled(w), POLY_REFLECTED, true) == w
  {
  }

  lemma FitsDoubled(w: Word, n: nat)
    requires n <= 15 && AtMost(w, Ones(n))
    ensures AtMost(Doubled(w), Ones(n + 1)) && AtMost(DoubledPlusOne(w), Ones(n + 1))
  {
    OnesBound(n);
    Doubling(w, Ones(n));
    hide Doubled, DoubledPlusOne, AtMost;
  }

  lemma {:induction false} LiftedBound(h: Word, k: nat)
    requires AtMost(h, 0xFF) && k <= 8
    ensures AtMost(Lifted(h, k), Ones(8 + k))
  {
    hide Doubled, Ones, AtMost;
    if k == 0 {
      OnesBound(8);
    } else {
      LiftedBound(h, k - 1);
      FitsDoubled(Lifted(h, k - 1), 7 + k);
    }
  }

  lemma LiftedEnds(h: Word)
    ensures Lifted(h, 0) == h
    ensures Lifted(h, 8) == h << 8
  {
    hide Doubled;
    DoubledShifts(h);
    assert Lifted(h, 1) == h << 1;
    assert Lifted(h, 2) == h << 2;
    assert Lifted(h, 3) == h << 3;
    assert Lifted(h, 4) == h << 4;
    assert Lifted(h, 5) == h << 5;
    assert Lifted(h, 6) == h << 6;
    assert Lifted(h, 7) == h << 7;
  }

  lemma DoubledShifts(h: Word)
    ensures Doubled(h) == h << 1 && Doubled(h << 1) == h << 2 && Doubled(h << 2) == h << 3
    ensures Doubled(h << 3) == h << 4 && Doubled(h << 4) == h << 5 && Doubled(h << 5) == h << 6
    ensures Doubled(h << 6) == h << 7 && Doubled(h << 7) == h << 8
  {
  }

  lemma SplitJoin(crc: Word, byte: Byte)
    ensures Join16(crc, byte, true) == Xor16(HighByte(crc) << 8, LowByte(Join16(crc, byte, true)) as Word)
    ensures AtMost(HighByte(crc), 0xFF)
  {
  }

  /** A high byte alone is shifted down whole: only zeros leave the register. */
  lemma {:induction false} HighByteShifts(h: Word, n: nat)
    requires AtMost(h, 0xFF) && n <= 8
    ensures Iterate(Divider(), Lifted(h, 8), n) == Lifted(h, 8 - n)
  {
    hide Step16, Doubled, AtMost, Ones;
    if n > 0 {
      HighByteShifts(h, n - 1);
      LiftedBound(h, 8 - n);
      OnesBound(16 - n);
      TopBitClear(Lifted(h, 8 - n), Ones(16 - n));
      DoubledHalves(Lifted(h, 8 - n));
    }
  }

  lemma TableLookup(byte: Byte)
    ensures Table()[byte as int] == TableEntry(byte)
  {
    hide TableEntry;
  }

  lemma TableStepIsDivision(crc: Word, byte: Byte)
    ensures TableStep(crc, byte) == Iterate(Divider(), Join16(crc, byte, true), 8)
  {
    hide AdditiveMap, Divider, Iterate, Xor16, Lifted, HighByte, LowByte, Join16, Table, AtMost;
    var low := LowByte(Join16(crc, byte, true));
    SplitJoin(crc, byte);
    LiftedEnds(HighByte(crc));
    HighByteShifts(HighByte(crc), 8);
    TableLookup(low);
    Stepper16Additive(POLY_REFLECTED, true);
    DividerIs();
    IterateAdditive(Divider(), Xor16, Lifted(HighByte(crc), 8), low as Word, 8);
  }

  lemma DividerIs()
    ensures Divider() == Stepper16(POLY_REFLECTED, true)
  {
  }

  lemma {:induction false} TableMatchesGeneralForm(data: seq<Byte>)
    ensures Checksum(data) == Crc16(data, 0x8005, 0xFFFF, 0, true, true)
  {
    hide Stepper16, TableStep;
    assert Reflect16(0x8005) == POLY_REFLECTED;
    ChecksumIsRegister(data);
    Xor16Zero(Register(Divider(), Joiner16(true), 0xFFFF, data));
    hide Xor16;
  }

  lemma {:induction false} ChecksumIsRegister(data: seq<Byte>)
    ensures Checksum(data) == Register(Divider(), Joiner16(true), 0xFFFF, data)
  {
    hide Divider, TableStep, Join16;
    if data != [] {
      var n := |data| - 1;
      ChecksumIsRegister(data[..n]);
      TableStepIsDivision(Checksum(data[..n]), data[n]);
    }
  }

  // ---------- the trailing check ----------

  /** Whether the last two bytes are the checksum of the rest, low byte first. */
  predicate Valid(message: seq<Byte>) {
    |message| >= 4 &&
    var n := |message| - 2;
    Checksum(message[..n]) == BothBytes(message[n + 1], message[n])
  }
}
