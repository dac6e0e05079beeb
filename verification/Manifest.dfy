/** Modbus signals to register writes and back, and the planning of writes into transactions. */
module Manifest {
  import opened Common
  import opened Numbers
  import opened Bits
  import opened Decode
  import opened RtuProtocol

  datatype Meta = Meta(registerBase: nat, defaultByteOrder: Option<Endianness>, defaultWordOrder: Option<Endianness>)

  datatype Frame = Frame(bank: RegisterType, registerNumber: U16)

  datatype Signal = Signal(
    name: string, startBit: nat, bitLength: nat, signed: bool,
    byteOrder: Option<Endianness>, wordOrder: Option<Endianness>)

  /** One register's worth of a write: the value bits, and which bits this write owns. */
  datatype Write = Write(address: U16, value: U16, mask: U16)

  datatype Result<+T, +E> = Ok(value: T) | Err(error: E)

  datatype EncodeError =
    | NotWritable(name: string)
    | UnsupportedLayout(name: string, startBit: nat, bitLength: nat)

  function SaturatingAdd(a: U16, b: nat): U16 { if a + b < 0x1_0000 then a + b else 0xFFFF }

  /** The zero-based address on the wire; base 1 strips the bank's traditional prefix. */
  function ProtocolAddress(meta: Meta, frame: Frame): U16 {
    var prefix := frame.bank.BaseOnePrefix();
    if meta.registerBase != 1 then frame.registerNumber
    else if frame.registerNumber < prefix then 0
    else frame.registerNumber - prefix
  }

  function Effective(own: Option<Endianness>, default_: Option<Endianness>): Endianness {
    match own
    case Some(order) => order
    case None => match default_ case Some(order) => order case None => Big
  }

  function WordOrder(meta: Meta, signal: Signal): Endianness { Effective(signal.wordOrder, meta.defaultWordOrder) }

  function ByteOrder(meta: Meta, signal: Signal): Endianness { Effective(signal.byteOrder, meta.defaultByteOrder) }

  // ---------- encoding ----------

  predicate Aligned(signal: Signal) {
    signal.startBit % 16 == 0 && signal.bitLength % 16 == 0 && 16 <= signal.bitLength <= 64
  }

  predicate InOneRegister(signal: Signal) {
    1 <= signal.bitLength < 16 && signal.startBit / 16 == (signal.startBit + signal.bitLength - 1) / 16
  }

  /** The `i`-th most significant word of a value of `len` bits. */
  function WordOf(bits: nat, len: nat, i: nat): U16
    requires 16 * (i + 1) <= len
  {
    LowIsWord(ShiftRight(bits, len - 16 * (i + 1)));
    Low(ShiftRight(bits, len - 16 * (i + 1)), 16)
  }

  lemma LowIsWord(v: int)
    ensures Low(v, 16) < 0x1_0000
  {
    SixteenBits();
  }

  /** Most significant word first, or last first for a word-swapped device. */
  function Words(bits: nat, len: nat, order: Endianness): (words: seq<U16>)
    requires len % 16 == 0
    ensures |words| == len / 16
  {
    var n := len / 16;
    seq(n, i requires 0 <= i < n => WordOf(bits, len, if order.Big? then i else n - 1 - i))
  }

  function RegisterIndex(signal: Signal): U16 { signal.startBit / 16 % 0x1_0000 }

  /** The field's lowest bit within its register. */
  function FieldShift(signal: Signal): nat
    requires InOneRegister(signal)
  {
    16 - signal.startBit % 16 - signal.bitLength
  }

  function FieldMask(signal: Signal): U16
    requires InOneRegister(signal)
  {
    Truncated(ShiftLeft(Pow2(signal.bitLength) - 1, FieldShift(signal)))
  }

  function Truncated(v: int): U16 {
    LowIsWord(v);
    Low(v, 16)
  }

  /** A masked value stays within sixteen bits. */
  function Masked(v: U16, mask: U16): U16 {
    AndIsLess(v, mask);
    And(v, mask)
  }

  lemma {:induction false} AndIsLess(a: nat, b: nat)
    ensures And(a, b) <= a
    decreases a
  {
    if a > 0 {
      AndIsLess(a / 2, b / 2);
    }
  }

  function AlignedWrites(words: seq<U16>, base: U16, first: U16): (writes: seq<Write>)
    ensures |writes| == |words|
  {
    seq(|words|, i requires 0 <= i < |words| =>
      Write(SaturatingAdd(base, (first + i) % 0x1_0000), words[i], 0xFFFF))
  }

  /** The register writes of a raw integer, one for each register it occupies. */
  function EncodeRaw(meta: Meta, frame: Frame, signal: Signal, raw: int): Result<seq<Write>, EncodeError> {
    if !frame.bank.IsWritable() then Err(NotWritable(signal.name))
    else
      var bits := Low(raw, signal.bitLength);
      var base := ProtocolAddress(meta, frame);
      if Aligned(signal) then
        Ok(AlignedWrites(Words(bits, signal.bitLength, WordOrder(meta, signal)), base, RegisterIndex(signal)))
      else if InOneRegister(signal) then
        var mask := FieldMask(signal);
        var value := Masked(Truncated(ShiftLeft(bits, FieldShift(signal))), mask);
        Ok([Write(SaturatingAdd(base, RegisterIndex(signal)), value, mask)])
      else Err(UnsupportedLayout(signal.name, signal.startBit, signal.bitLength))
  }

  // ---------- decoding ----------

  function ToByte(v: int): Octet {
    assert Pow2(8) == 256;
    Low(v, 8)
  }

  function HighByte(w: U16): Octet { ToByte(ShiftRight(w, 8)) }

  function LowByte(w: U16): Octet { ToByte(w) }

  /** Most significant byte first in each register. */
  function RegistersToBytes(regs: seq<U16>): (bytes: seq<Octet>)
    ensures |bytes| == 2 * |regs|
  {
    seq(2 * |regs|, p requires 0 <= p < 2 * |regs| =>
      if p % 2 == 0 then HighByte(regs[p / 2]) else LowByte(regs[p / 2]))
  }

  method BytesOfRegisters(regs: seq<U16>) returns (bytes: seq<Octet>)
    ensures bytes == RegistersToBytes(regs)
  {
    hide HighByte, LowByte;
    bytes := [];
    var i := 0;
    while i < |regs|
      invariant 0 <= i <= |regs| && |bytes| == 2 * i
      invariant forall p :: 0 <= p < 2 * i ==> bytes[p] == RegistersToBytes(regs)[p]
    {
      bytes := bytes + [HighByte(regs[i]), LowByte(regs[i])];
      i := i + 1;
    }
  }

  /** The raw integer a frame's register block holds for a signal. */
  function DecodeRaw(meta: Meta, signal: Signal, regs: seq<U16>): int {
    var bytes := RegistersToBytes(regs);
    var swapped :=
      if WordOrder(meta, signal).Little? && signal.bitLength > 16 then
        SwapWords(bytes, signal.startBit, signal.bitLength)
      else bytes;
    Extract(swapped, signal.startBit, signal.bitLength, ByteOrder(meta, signal), signal.signed)
  }

  // ---------- registers and the writes that change them ----------

  /** Every register a bank can hold. */
  type File = f: seq<U16> | |f| == 0x1_0000 witness seq(0x1_0000, _ => 0)

  /** Read, keep the bits outside the mask, and take the others from the write. */
  function Patched(old_: U16, w: Write): U16 {
    PatchedIsWord(old_, w.value, w.mask);
    Or(Without(old_, w.mask), And(w.value, w.mask))
  }

  lemma PatchedIsWord(old_: U16, value: U16, mask: U16)
    ensures Or(Without(old_, mask), And(value, mask)) < 0x1_0000
  {
    var v := Or(Without(old_, mask), And(value, mask));
    forall k: nat ensures Bit(v, k) == Bit(Low(v, 16), k) {
      BitOfOr(Without(old_, mask), And(value, mask), k);
      BitOfWithout(old_, mask, k);
      BitOfAnd(value, mask, k);
      BitOfLow(v, 16, k);
      WordHasSixteenBits(old_, k);
      WordHasSixteenBits(value, k);
    }
    SameBits(v, Low(v, 16));
    LowIsWord(v);
  }

  lemma WordHasSixteenBits(w: U16, k: nat)
    ensures k >= 16 ==> Bit(w, k) == 0
  {
    SixteenBits();
    LowOfRange(w, 16);
    BitOfLow(w, 16, k);
  }

  function Apply(file: File, w: Write): File { file[w.address := Patched(file[w.address], w)] }

  function ApplyAll(file: File, writes: seq<Write>): File
    decreases |writes|
  {
    if writes == [] then file else ApplyAll(Apply(file, writes[0]), writes[1..])
  }
}
