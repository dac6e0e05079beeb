/** The published check values of the named checksums: what each makes of the nine characters "123456789". */
module CheckValues {
  import opened Common
  import opened LinearFold
  import opened Crc
  import opened Algorithms
  import opened CrcDivision
  import CrcSteps

  /** The characters from 1 to 9. */
  const CHECK: seq<Byte> := [0x31, 0x32, 0x33, 0x34, 0x35, 0x36, 0x37, 0x38, 0x39]

  /** The register after one more byte. */
  function Next8(r: Byte, b: Byte, p: Byte, reflect: bool): Byte {
    var s := Xor8(r, b);
    Twice8(Twice8(Twice8(Twice8(s, p, reflect), p, reflect), p, reflect), p, reflect)
  }

  function Twice8(r: Byte, p: Byte, reflect: bool): Byte { Step8(Step8(r, p, reflect), p, reflect) }

  lemma Next8Is(r: Byte, b: Byte, p: Byte, reflect: bool)
    ensures Next8(r, b, p, reflect) == Iterate(Stepper8(p, reflect), Joiner8()(r, b), 8)
  {
    JoinedXor8(r, b);
    hide Step8, Xor8, Joiner8;
    var step, s := Stepper8(p, reflect), Xor8(r, b);
    assert Iterate(step, s, 4) == Twice8(Twice8(s, p, reflect), p, reflect);
  }

  function Next16(r: Word, b: Byte, p: Word): Word {
    var s := Join16(r, b, false);
    Twice16(Twice16(Twice16(Twice16(s, p), p), p), p)
  }

  function Twice16(r: Word, p: Word): Word { Step16(Step16(r, p, false), p, false) }

  lemma Next16Is(r: Word, b: Byte, p: Word)
    ensures Next16(r, b, p) == Iterate(Stepper16(p, false), Joiner16(false)(r, b), 8)
  {
    hide Step16, Join16;
    var step, s := Stepper16(p, false), Join16(r, b, false);
    assert Iterate(step, s, 4) == Twice16(Twice16(s, p), p);
  }

  /** The registers after each of the first bytes. */
  predicate Chain8(data: seq<Byte>, values: seq<Byte>, p: Byte, reflect: bool) {
    |values| == |data| + 1 &&
    forall i :: 0 <= i < |data| ==> Next8(values[i], data[i], p, reflect) == values[i + 1]
  }

  lemma {:induction false} ChainRegister8(data: seq<Byte>, values: seq<Byte>, p: Byte, reflect: bool, n: nat)
    requires Chain8(data, values, p, reflect) && n <= |data|
    ensures Register(Stepper8(p, reflect), Joiner8(), values[0], data[..n]) == values[n]
    decreases n
  {
    hide Next8, Iterate;
    if n > 0 {
      ChainRegister8(data, values, p, reflect, n - 1);
      Next8Is(values[n - 1], data[n - 1], p, reflect);
      assert data[..n][..n - 1] == data[..n - 1];
    }
  }

  /** The value of a whole chain. */
  lemma ChainCrc8(data: seq<Byte>, values: seq<Byte>, polynomial: Byte, xorOut: Byte, reflect: bool)
    requires Chain8(data, values, Oriented8(polynomial, reflect), reflect)
    ensures Crc8(data, polynomial, values[0], xorOut, reflect) == Xor8(values[|data|], xorOut)
  {
    hide Next8, Oriented8;
    ChainRegister8(data, values, Oriented8(polynomial, reflect), reflect, |data|);
    assert data[..|data|] == data;
  }

  predicate Chain16(data: seq<Byte>, values: seq<Word>, p: Word) {
    |values| == |data| + 1 && forall i :: 0 <= i < |data| ==> Next16(values[i], data[i], p) == values[i + 1]
  }

  lemma {:induction false} ChainRegister16(data: seq<Byte>, values: seq<Word>, p: Word, n: nat)
    requires Chain16(data, values, p) && n <= |data|
    ensures Register(Stepper16(p, false), Joiner16(false), values[0], data[..n]) == values[n]
    decreases n
  {
    hide Next16, Iterate;
    if n > 0 {
      ChainRegister16(data, values, p, n - 1);
      Next16Is(values[n - 1], data[n - 1], p);
      assert data[..n][..n - 1] == data[..n - 1];
    }
  }

  const CRC8PLAIN_CHAIN: seq<Byte> := [0x00, 0x97, 0x72, 0xC0, 0xC2, 0xCB, 0xFD, 0x78, 0xC7, 0xF4]

  lemma Crc8PlainSteps()
    ensures Next8(0x00, 0x31, 0x07, false) == 0x97
    ensures Next8(0x97, 0x32, 0x07, false) == 0x72
    ensures Next8(0x72, 0x33, 0x07, false) == 0xC0
    ensures Next8(0xC0, 0x34, 0x07, false) == 0xC2
    ensures Next8(0xC2, 0x35, 0x07, false) == 0xCB
    ensures Next8(0xCB, 0x36, 0x07, false) == 0xFD
    ensures Next8(0xFD, 0x37, 0x07, false) == 0x78
    ensures Next8(0x78, 0x38, 0x07, false) == 0xC7
    ensures Next8(0xC7, 0x39, 0x07, false) == 0xF4
  {
  }

  lemma Crc8PlainChain()
    ensures Chain8(CHECK, CRC8PLAIN_CHAIN, 0x07, false)
  {
    Crc8PlainSteps();
    hide Next8;
  }

  lemma Crc8PlainCheck()
    ensures Crc8(CHECK, 0x07, 0x00, 0x00, false) == 0xF4
  {
    Crc8PlainChain();
    hide Chain8;
    ChainCrc8(CHECK, CRC8PLAIN_CHAIN, 0x07, 0x00, false);
  }

  const CRC8SAEJ1850_CHAIN: seq<Byte> := [0xFF, 0x93, 0xBC, 0x9D, 0x54, 0x89, 0xD7, 0xB2, 0xF4, 0xB4]

  lemma Crc8SaeJ1850Steps()
    ensures Next8(0xFF, 0x31, 0x1D, false) == 0x93
    ensures Next8(0x93, 0x32, 0x1D, false) == 0xBC
    ensures Next8(0xBC, 0x33, 0x1D, false) == 0x9D
    ensures Next8(0x9D, 0x34, 0x1D, false) == 0x54
    ensures Next8(0x54, 0x35, 0x1D, false) == 0x89
    ensures Next8(0x89, 0x36, 0x1D, false) == 0xD7
    ensures Next8(0xD7, 0x37, 0x1D, false) == 0xB2
    ensures Next8(0xB2, 0x38, 0x1D, false) == 0xF4
    ensures Next8(0xF4, 0x39, 0x1D, false) == 0xB4
  {
  }

  lemma Crc8SaeJ1850Chain()
    ensures Chain8(CHECK, CRC8SAEJ1850_CHAIN, 0x1D, false)
  {
    Crc8SaeJ1850Steps();
    hide Next8;
  }

  lemma Crc8SaeJ1850Check()
    ensures Crc8(CHECK, 0x1D, 0xFF, 0xFF, false) == 0x4B
  {
    Crc8SaeJ1850Chain();
    hide Chain8;
    ChainCrc8(CHECK, CRC8SAEJ1850_CHAIN, 0x1D, 0xFF, false);
  }

  const CRC8AUTOSAR_CHAIN: seq<Byte> := [0xFF, 0xB0, 0xBD, 0x56, 0xCB, 0x6D, 0x6E, 0x30, 0x57, 0x20]

  lemma Crc8AutosarSteps()
    ensures Next8(0xFF, 0x31, 0x2F, false) == 0xB0
    ensures Next8(0xB0, 0x32, 0x2F, false) == 0xBD
    ensures Next8(0xBD, 0x33, 0x2F, false) == 0x56
    ensures Next8(0x56, 0x34, 0x2F, false) == 0xCB
    ensures Next8(0xCB, 0x35, 0x2F, false) == 0x6D
    ensures Next8(0x6D, 0x36, 0x2F, false) == 0x6E
    ensures Next8(0x6E, 0x37, 0x2F, false) == 0x30
    ensures Next8(0x30, 0x38, 0x2F, false) == 0x57
    ensures Next8(0x57, 0x39, 0x2F, false) == 0x20
  {
  }

  lemma Crc8AutosarChain()
    ensures Chain8(CHECK, CRC8AUTOSAR_CHAIN, 0x2F, false)
  {
    Crc8AutosarSteps();
    hide Next8;
  }

  lemma Crc8AutosarCheck()
    ensures Crc8(CHECK, 0x2F, 0xFF, 0xFF, false) == 0xDF
  {
    Crc8AutosarChain();
    hide Chain8;
    ChainCrc8(CHECK, CRC8AUTOSAR_CHAIN, 0x2F, 0xFF, false);
  }

  const CRC8MAXIM_CHAIN: seq<Byte> := [0x00, 0xE0, 0xEB, 0x95, 0xF1, 0xAB, 0xEC, 0x77, 0x07, 0xA1]

  lemma Crc8MaximSteps()
    ensures Next8(0x00, 0x31, 0x8C, true) == 0xE0
    ensures Next8(0xE0, 0x32, 0x8C, true) == 0xEB
    ensures Next8(0xEB, 0x33, 0x8C, true) == 0x95
    ensures Next8(0x95, 0x34, 0x8C, true) == 0xF1
    ensures Next8(0xF1, 0x35, 0x8C, true) == 0xAB
    ensures Next8(0xAB, 0x36, 0x8C, true) == 0xEC
    ensures Next8(0xEC, 0x37, 0x8C, true) == 0x77
    ensures Next8(0x77, 0x38, 0x8C, true) == 0x07
    ensures Next8(0x07, 0x39, 0x8C, true) == 0xA1
  {
  }

  lemma Crc8MaximChain()
    ensures Chain8(CHECK, CRC8MAXIM_CHAIN, 0x8C, true)
  {
    Crc8MaximSteps();
    hide Next8;
  }

  lemma Crc8MaximCheck()
    ensures Crc8(CHECK, 0x31, 0x00, 0x00, true) == 0xA1
  {
    Crc8MaximChain();
    assert Oriented8(0x31, true) == 0x8C;
    hide Chain8;
    ChainCrc8(CHECK, CRC8MAXIM_CHAIN, 0x31, 0x00, true);
  }

  const CRC8CDMA2000_CHAIN: seq<Byte> := [0xFF, 0xB6, 0xCA, 0x17, 0x52, 0x5B, 0xEF, 0xE8, 0xF1, 0xDA]

  lemma Crc8Cdma2000Steps()
    ensures Next8(0xFF, 0x31, 0x9B, false) == 0xB6
    ensures Next8(0xB6, 0x32, 0x9B, false) == 0xCA
    ensures Next8(0xCA, 0x33, 0x9B, false) == 0x17
    ensures Next8(0x17, 0x34, 0x9B, false) == 0x52
    ensures Next8(0x52, 0x35, 0x9B, false) == 0x5B
    ensures Next8(0x5B, 0x36, 0x9B, false) == 0xEF
    ensures Next8(0xEF, 0x37, 0x9B, false) == 0xE8
    ensures Next8(0xE8, 0x38, 0x9B, false) == 0xF1
    ensures Next8(0xF1, 0x39, 0x9B, false) == 0xDA
  {
  }

  lemma Crc8Cdma2000Chain()
    ensures Chain8(CHECK, CRC8CDMA2000_CHAIN, 0x9B, false)
  {
    Crc8Cdma2000Steps();
    hide Next8;
  }

  lemma Crc8Cdma2000Check()
    ensures Crc8(CHECK, 0x9B, 0xFF, 0x00, false) == 0xDA
  {
    Crc8Cdma2000Chain();
    hide Chain8;
    ChainCrc8(CHECK, CRC8CDMA2000_CHAIN, 0x9B, 0x00, false);
  }

  const CRC8DVBS2_CHAIN: seq<Byte> := [0x00, 0x23, 0x87, 0xE7, 0x8A, 0x64, 0xB0, 0xBB, 0x45, 0xBC]

  lemma Crc8DvbS2Steps()
    ensures Next8(0x00, 0x31, 0xD5, false) == 0x23
    ensures Next8(0x23, 0x32, 0xD5, false) == 0x87
    ensures Next8(0x87, 0x33, 0xD5, false) == 0xE7
    ensures Next8(0xE7, 0x34, 0xD5, false) == 0x8A
    ensures Next8(0x8A, 0x35, 0xD5, false) == 0x64
    ensures Next8(0x64, 0x36, 0xD5, false) == 0xB0
    ensures Next8(0xB0, 0x37, 0xD5, false) == 0xBB
    ensures Next8(0xBB, 0x38, 0xD5, false) == 0x45
    ensures Next8(0x45, 0x39, 0xD5, false) == 0xBC
  {
  }

  lemma Crc8DvbS2Chain()
    ensures Chain8(CHECK, CRC8DVBS2_CHAIN, 0xD5, false)
  {
    Crc8DvbS2Steps();
    hide Next8;
  }

  lemma Crc8DvbS2Check()
    ensures Crc8(CHECK, 0xD5, 0x00, 0x00, false) == 0xBC
  {
    Crc8DvbS2Chain();
    hide Chain8;
    ChainCrc8(CHECK, CRC8DVBS2_CHAIN, 0xD5, 0x00, false);
  }

  const CCITT_CHAIN: seq<Word> :=
    [0xFFFF, 0xC782, 0x3DBA, 0x5BCE, 0x5349, 0x4560, 0x2EF4, 0x7718, 0xA12B, 0x29B1]

  lemma CcittSteps()
    ensures Next16(0xFFFF, 0x31, 0x1021) == 0xC782
    ensures Next16(0xC782, 0x32, 0x1021) == 0x3DBA
    ensures Next16(0x3DBA, 0x33, 0x1021) == 0x5BCE
    ensures Next16(0x5BCE, 0x34, 0x1021) == 0x5349
    ensures Next16(0x5349, 0x35, 0x1021) == 0x4560
    ensures Next16(0x4560, 0x36, 0x1021) == 0x2EF4
    ensures Next16(0x2EF4, 0x37, 0x1021) == 0x7718
    ensures Next16(0x7718, 0x38, 0x1021) == 0xA12B
    ensures Next16(0xA12B, 0x39, 0x1021) == 0x29B1
  {
  }

  lemma CcittChain()
    ensures Chain16(CHECK, CCITT_CHAIN, 0x1021)
  {
    CcittSteps();
    hide Next16;
  }

  lemma CcittCheck()
    ensures Crc16(CHECK, 0x1021, 0xFFFF, 0x0000, false, false) == 0x29B1
  {
    CcittChain();
    hide Chain16;
    ChainRegister16(CHECK, CCITT_CHAIN, 0x1021, 9);
    assert CHECK[..9] == CHECK;
  }

  const MODBUS_CHAIN: seq<Word> :=
    [0xFFFF, 0x947E, 0xF595, 0x7A75, 0x30BA, 0xA471, 0x32E4, 0x9D73, 0x37DD, 0x4B37]

  lemma ModbusSteps()
    ensures CrcSteps.Stepped(0xFFFF, 0x31) == 0x947E
    ensures CrcSteps.Stepped(0x947E, 0x32) == 0xF595
    ensures CrcSteps.Stepped(0xF595, 0x33) == 0x7A75
    ensures CrcSteps.Stepped(0x7A75, 0x34) == 0x30BA
    ensures CrcSteps.Stepped(0x30BA, 0x35) == 0xA471
    ensures CrcSteps.Stepped(0xA471, 0x36) == 0x32E4
    ensures CrcSteps.Stepped(0x32E4, 0x37) == 0x9D73
    ensures CrcSteps.Stepped(0x9D73, 0x38) == 0x37DD
    ensures CrcSteps.Stepped(0x37DD, 0x39) == 0x4B37
  {
  }

  lemma ModbusCheck()
    ensures ModbusCrc.Checksum(CHECK) == 0x4B37
  {
    ModbusSteps();
    hide CrcSteps.Stepped;
    assert CrcSteps.Steps(CHECK, MODBUS_CHAIN);
    hide CrcSteps.Steps;
    CrcSteps.StepsAre(CHECK, MODBUS_CHAIN, 9);
    assert CHECK[..9] == CHECK;
  }

  const FEW: seq<Byte> := [0x01, 0x02, 0x03]

  const NISSAN_CHAIN: seq<Byte> := [0x00, 0x85, 0x18, 0x5A]

  lemma NissanSteps()
    ensures Next8(0x00, 0x01, 0x85, false) == 0x85
    ensures Next8(0x85, 0x02, 0x85, false) == 0x18
    ensures Next8(0x18, 0x03, 0x85, false) == 0x5A
  {
  }

  lemma NissanCheck()
    ensures Crc8(FEW, 0x85, 0x00, 0x00, false) == 0x5A
  {
    NissanSteps();
    hide Next8;
    assert Chain8(FEW, NISSAN_CHAIN, 0x85, false);
    hide Chain8;
    ChainCrc8(FEW, NISSAN_CHAIN, 0x85, 0x00, false);
  }

  lemma FewSteps()
    ensures Xor8(0x00, 0x01) == 0x01 && Xor8(0x01, 0x02) == 0x03 && Xor8(0x03, 0x03) == 0x00
    ensures Plus(0x00, 0x01) == 0x01 && Plus(0x01, 0x02) == 0x03 && Plus(0x03, 0x03) == 0x06
  {
  }

  lemma FewSummed()
    ensures XorOf(FEW) == 0x00 && SumOf(FEW) == 0x06
  {
    assert FEW[..2] == [0x01, 0x02] && FEW[..2][..1] == [0x01] && [0x01 as Byte][..0] == [];
    FewSteps();
    hide Xor8, Plus;
    assert XorOf([0x01]) == 0x01 && SumOf([0x01]) == 0x01;
    assert XorOf([0x01, 0x02]) == 0x03 && SumOf([0x01, 0x02]) == 0x03;
  }

  /** The named checksums of the nine characters, and of three bytes, are the published ones. */
  lemma PublishedValues()
    ensures CalculateSimple(Crc8Plain, CHECK) == 0x00F4
    ensures CalculateSimple(Crc8SaeJ1850, CHECK) == 0x004B
    ensures CalculateSimple(Crc8Autosar, CHECK) == 0x00DF
    ensures CalculateSimple(Crc8Maxim, CHECK) == 0x00A1
    ensures CalculateSimple(Crc8Cdma2000, CHECK) == 0x00DA
    ensures CalculateSimple(Crc8DvbS2, CHECK) == 0x00BC
    ensures CalculateSimple(Crc16Modbus, CHECK) == 0x4B37
    ensures CalculateSimple(Crc16Ccitt, CHECK) == 0x29B1
    ensures CalculateSimple(Crc8Nissan, FEW) == 0x005A
    ensures CalculateSimple(ChecksumAlgorithm.Xor, FEW) == 0x0000 && CalculateSimple(Sum8, FEW) == 0x0006
  {
    hide Crc8, Crc16, ModbusCrc.Checksum, XorOf, SumOf, CHECK, FEW;
    Crc8PlainCheck();
    Crc8SaeJ1850Check();
    Crc8AutosarCheck();
    Crc8MaximCheck();
    Crc8Cdma2000Check();
    Crc8DvbS2Check();
    ModbusCheck();
    CcittCheck();
    NissanCheck();
    FewSummed();
  }
}
