/** The eleven named checksums, each from a byte sequence to a 16-bit value. */
module Algorithms {
  import opened Common
  import opened Crc
  import ModbusCrc

  datatype ChecksumAlgorithm =
    | Xor
    | Sum8
    | Crc8Plain
    | Crc8SaeJ1850
    | Crc8Autosar
    | Crc8Maxim
    | Crc8Cdma2000
    | Crc8DvbS2
    | Crc8Nissan
    | Crc16Modbus
    | Crc16Ccitt

  /** Wrapping addition and subtraction of bytes. */
  function Plus(a: Byte, b: Byte): Byte { a + b }

  function Minus(a: Byte, b: Byte): Byte { a - b }

  function XorOf(data: seq<Byte>): Byte {
    if data == [] then 0 else Xor8(XorOf(data[..|data| - 1]), data[|data| - 1])
  }

  /** The sum modulo 256. */
  function SumOf(data: seq<Byte>): Byte {
    if data == [] then 0 else Plus(SumOf(data[..|data| - 1]), data[|data| - 1])
  }

  function CalculateSimple(algorithm: ChecksumAlgorithm, data: seq<Byte>): Word {
    match algorithm
    case Xor => XorOf(data) as Word
    case Sum8 => SumOf(data) as Word
    case Crc8Plain => Crc8(data, 0x07, 0x00, 0x00, false) as Word
    case Crc8SaeJ1850 => Crc8(data, 0x1D, 0xFF, 0xFF, false) as Word
    case Crc8Autosar => Crc8(data, 0x2F, 0xFF, 0xFF, false) as Word
    case Crc8Maxim => Crc8(data, 0x31, 0x00, 0x00, true) as Word
    case Crc8Cdma2000 => Crc8(data, 0x9B, 0xFF, 0x00, false) as Word
    case Crc8DvbS2 => Crc8(data, 0xD5, 0x00, 0x00, false) as Word
    case Crc8Nissan => Crc8(data, 0x85, 0x00, 0x00, false) as Word
    case Crc16Modbus => ModbusCrc.Checksum(data)
    case Crc16Ccitt => Crc16(data, 0x1021, 0xFFFF, 0x0000, false, false)
  }
}
