/**
 Encoding writes a field's bits most significant first whatever byte order the signal
 declares. For which signals decoding with that byte order still undoes it.
 */
module ByteOrders {
  import opened Common
  import opened Numbers
  import opened Bits
  import opened Decode
  import opened RtuProtocol
  import opened Manifest
  import opened RegisterRoundTrip

  /** A field that lies in the middle of one byte reads the same from either end. */
  predicate Mirrored(signal: Signal) { 2 * (signal.startBit % 8) + signal.bitLength == 8 }

  /** What is written reads back, whatever the value and whatever was in the registers. */
  ghost predicate ReadsBack(meta: Meta, frame: Frame, signal: Signal, count: nat)
    requires InBlock(ProtocolAddress(meta, frame), signal, count)
  {
    forall file: File, raw :: Fits(signal, raw) ==> ReadsBackOne(meta, frame, signal, count, file, raw)
  }

  predicate ReadsBackOne(meta: Meta, frame: Frame, signal: Signal, count: nat, file: File, raw: int)
    requires InBlock(ProtocolAddress(meta, frame), signal, count)
  {
    var base := ProtocolAddress(meta, frame);
    EncodeRaw(meta, frame, signal, raw).Ok? &&
    DecodeRaw(meta, signal, ApplyAll(file, EncodeRaw(meta, frame, signal, raw).value)[base..base + count]) == raw
  }

  // ---------- reading from the low end ----------

  lemma {:induction false} ReversedAt(bits: seq<nat>, i: nat)
    requires i < |bits|
    ensures Reversed(bits)[i] == bits[|bits| - 1 - i]
  {
    if i > 0 {
      ReversedAt(bits[..|bits| - 1], i - 1);
    }
  }

  /** A field read from the low end is read bit by bit, bottom bit first, and then signed. */
  lemma ExtractLittleIs(bytes: seq<Octet>, startBit: nat, bitLength: nat, signed: bool, v: int)
    requires 0 < bitLength && startBit + bitLength <= 8 * |bytes|
    requires forall p :: startBit <= p < startBit + bitLength ==> BufferBit(bytes, Little, p) == Bit(v, p - startBit)
    ensures Extract(bytes, startBit, bitLength, Little, signed) == Signed(Low(v, bitLength), bitLength, signed)
  {
    hide Bit, Low, FromBits, BufferBit, Reversed;
    var field := Field(BufferBits(bytes, Little), startBit, bitLength);
    var turned := Reversed(field);
    forall i | 0 <= i < |turned| ensures turned[i] == Bit(v, |turned| - 1 - i) {
      ReversedAt(field, i);
      assert field[bitLength - 1 - i] == BufferBit(bytes, Little, startBit + (bitLength - 1 - i));
    }
    FromBitsIs(turned, v);
  }

  lemma SignedParity(value: int, bitLength: nat, signed: bool)
    requires bitLength > 0
    ensures Signed(value, bitLength, signed) % 2 == value % 2
  {
    hide Bit;
    var half := Pow2(bitLength - 1);
    assert Pow2(bitLength) == 2 * half;
    assert (value - 2 * half) % 2 == value % 2;
  }

  lemma LastBitParity(bits: seq<nat>)
    requires bits != [] && bits[|bits| - 1] <= 1
    ensures FromBits(bits) % 2 == bits[|bits| - 1]
  {
    LastOfTwice(FromBits(bits[..|bits| - 1]), bits[|bits| - 1]);
  }

  lemma LastOfTwice(v: int, bit: nat)
    requires bit <= 1
    ensures (2 * v + bit) % 2 == bit
  {
  }

  /** The lowest bit of what is read is the first bit of the field. */
  lemma LittleParity(bytes: seq<Octet>, startBit: nat, bitLength: nat, signed: bool)
    requires 0 < bitLength && startBit + bitLength <= 8 * |bytes|
    ensures Extract(bytes, startBit, bitLength, Little, signed) % 2 == BufferBit(bytes, Little, startBit)
  {
    hide BufferBit, Reversed, FromBits, Signed;
    var field := Field(BufferBits(bytes, Little), startBit, bitLength);
    var turned := Reversed(field);
    ReversedAt(field, bitLength - 1);
    assert field[0] == BufferBit(bytes, Little, startBit);
    BitIsSmall(bytes, startBit);
    LastBitParity(turned);
    SignedParity(FromBits(turned), bitLength, signed);
  }

  lemma BitIsSmall(bytes: seq<Octet>, p: nat)
    requires p < 8 * |bytes|
    ensures BufferBit(bytes, Little, p) <= 1
  {
  }

  /** The low-end bit at `p` is the high-end bit mirrored within its byte. */
  lemma MirroredBit(regs: seq<U16>, p: nat)
    requires p < 16 * |regs|
    ensures var q := 8 * (p / 8) + 7 - p % 8;
            0 <= q < 16 * |regs| && BufferBit(RegistersToBytes(regs), Little, p) == RegisterBit(regs, q)
  {
    hide Bit, RegistersToBytes, RegisterBit;
    var q := 8 * (p / 8) + 7 - p % 8;
    assert q / 8 == p / 8 && 7 - q % 8 == p % 8;
    BufferBitOfRegisters(regs, q);
  }

  // ---------- a mirrored field reads back ----------

  lemma MirroredIsField(signal: Signal)
    requires Supported(signal) && Mirrored(signal)
    ensures InOneRegister(signal) && !Aligned(signal)
  {
  }

  lemma MirroredPosition(signal: Signal, p: nat)
    requires Mirrored(signal) && signal.startBit <= p < signal.startBit + signal.bitLength
    ensures var q := 8 * (p / 8) + 7 - p % 8;
            && signal.startBit <= q < signal.startBit + signal.bitLength
            && signal.bitLength - 1 - (q - signal.startBit) == p - signal.startBit
  {
  }

  /** The bits of a register after a field's write, wherever they lie in the field. */
  lemma FieldBit(signal: Signal, regs: seq<U16>, old_: U16, address: U16, bits: nat, q: nat)
    requires InOneRegister(signal) && signal.startBit + signal.bitLength <= 16 * |regs| && q < 16 * |regs|
    requires q / 16 == signal.startBit / 16
    requires regs[signal.startBit / 16] == Patched(old_, FieldWrite(address, signal, bits))
    ensures RegisterBit(regs, q) ==
            if signal.startBit <= q < signal.startBit + signal.bitLength
            then Bit(bits, signal.bitLength - 1 - (q - signal.startBit)) else Bit(old_, 15 - q % 16)
  {
    hide Bit, Patched, FieldWrite, FieldShift;
    FieldPosition(signal, q);
    FieldPatchedBit(old_, address, signal, bits, 15 - q % 16);
  }

  lemma MirroredDecodes(meta: Meta, signal: Signal, regs: seq<U16>, old_: U16, address: U16, bits: nat)
    requires InOneRegister(signal) && Mirrored(signal) && ByteOrder(meta, signal).Little?
    requires signal.startBit + signal.bitLength <= 16 * |regs|
    requires regs[signal.startBit / 16] == Patched(old_, FieldWrite(address, signal, bits))
    ensures DecodeRaw(meta, signal, regs) == Signed(Low(bits, signal.bitLength), signal.bitLength, signal.signed)
  {
    hide Bit, Patched, FieldWrite, Extract, RegistersToBytes, RegisterBit, Low, SwapWords, Signed, BufferBit;
    var bytes := RegistersToBytes(regs);
    forall p | signal.startBit <= p < signal.startBit + signal.bitLength
      ensures BufferBit(bytes, Little, p) == Bit(bits, p - signal.startBit)
    {
      MirroredPosition(signal, p);
      MirroredBit(regs, p);
      var q := 8 * (p / 8) + 7 - p % 8;
      assert q / 16 == signal.startBit / 16 by {
        FieldPosition(signal, q);
      }
      FieldBit(signal, regs, old_, address, bits, q);
    }
    ExtractLittleIs(bytes, signal.startBit, signal.bitLength, signal.signed, bits);
  }

  lemma MirroredReadsBack(meta: Meta, frame: Frame, signal: Signal, count: nat, file: File, raw: int)
    requires frame.bank.IsWritable() && InOneRegister(signal) && Mirrored(signal) && ByteOrder(meta, signal).Little?
    requires InBlock(ProtocolAddress(meta, frame), signal, count) && Fits(signal, raw)
    ensures ReadsBackOne(meta, frame, signal, count, file, raw)
  {
    hide Low, ProtocolAddress, EncodeRaw, DecodeRaw, Bit, Signed, FieldWrite, Patched, RegisterType.IsWritable;
    FieldWritten(meta, frame, signal, count, file, raw);
    var base, first := ProtocolAddress(meta, frame), signal.startBit / 16;
    var bits := Low(raw, signal.bitLength);
    var regs := ApplyAll(file, EncodeRaw(meta, frame, signal, raw).value)[base..base + count];
    MirroredDecodes(meta, signal, regs, file[base + first], base + first, bits);
    LowTwice(raw, signal.bitLength, signal.bitLength);
    SignedLow(raw, signal.bitLength, signal.signed);
  }

  /** The register a field's write leaves behind. */
  lemma FieldWritten(meta: Meta, frame: Frame, signal: Signal, count: nat, file: File, raw: int)
    requires frame.bank.IsWritable() && InOneRegister(signal) && InBlock(ProtocolAddress(meta, frame), signal, count)
    ensures EncodeRaw(meta, frame, signal, raw).Ok?
    ensures var base, first := ProtocolAddress(meta, frame), signal.startBit / 16;
            var after := ApplyAll(file, EncodeRaw(meta, frame, signal, raw).value);
            && base + first < 0x1_0000 && first < count
            && after[base..base + count][first]
               == Patched(file[base + first], FieldWrite(base + first, signal, Low(raw, signal.bitLength)))
  {
    hide Low, ProtocolAddress, EncodeRaw, FieldWrite, Patched, RegisterType.IsWritable;
    EncodeField(meta, frame, signal, raw, count);
    var base, first := ProtocolAddress(meta, frame), signal.startBit / 16;
    var w := FieldWrite(base + first, signal, Low(raw, signal.bitLength));
    FieldAddress(base + first, signal, Low(raw, signal.bitLength));
    assert ApplyAll(file, [w]) == Apply(file, w);
  }

  // ---------- nothing else does ----------

  /** The value whose lowest bit alone is set. */
  function Lowest(signal: Signal): int { if signal.signed && signal.bitLength == 1 then -1 else 1 }

  lemma LowestFits(signal: Signal)
    requires signal.bitLength > 0
    ensures Fits(signal, Lowest(signal)) && Low(Lowest(signal), signal.bitLength) == 1 && Lowest(signal) % 2 == 1
  {
    assert Pow2(1) == 2 && Pow2(0) == 1;
    if signal.bitLength > 1 {
      PowAtLeastTwo(signal.bitLength - 1);
      LowOfRange(1, signal.bitLength);
    } else {
      assert Low(-1, 1) == 1 && Low(1, 1) == 1;
    }
  }

  lemma PowAtLeastTwo(n: nat)
    requires n > 0
    ensures Pow2(n) >= 2
  {
  }

  /** A block in which the first low-end bit of the field is clear does not read back an odd value. */
  lemma ClearReadsEven(meta: Meta, signal: Signal, regs: seq<U16>, bytes: seq<Octet>)
    requires ByteOrder(meta, signal).Little? && signal.bitLength > 0
    requires signal.startBit + signal.bitLength <= 8 * |bytes|
    requires DecodeRaw(meta, signal, regs) == Extract(bytes, signal.startBit, signal.bitLength, Little, signal.signed)
    requires BufferBit(bytes, Little, signal.startBit) == 0
    ensures DecodeRaw(meta, signal, regs) % 2 == 0
  {
    hide DecodeRaw, Extract, BufferBit;
    LittleParity(bytes, signal.startBit, signal.bitLength, signal.signed);
  }

  /** Where the lowest bit is written is not where it is read, unless the field is mirrored. */
  lemma LowestMisplaced(signal: Signal)
    requires !Mirrored(signal)
    ensures var q := 8 * (signal.startBit / 8) + 7 - signal.startBit % 8;
            && q / 16 == signal.startBit / 16
            && signal.bitLength - 1 - (q - signal.startBit) != 0
  {
    SameRegister(signal.startBit / 8, signal.startBit % 8);
  }

  lemma SameRegister(byte: nat, bit: nat)
    requires bit < 8
    ensures (8 * byte + 7 - bit) / 16 == byte / 2 == (8 * byte + bit) / 16
  {
  }

  lemma FieldDoesNotReadBack(meta: Meta, frame: Frame, signal: Signal, count: nat, file: File)
    requires frame.bank.IsWritable() && InOneRegister(signal) && !Mirrored(signal) && ByteOrder(meta, signal).Little?
    requires InBlock(ProtocolAddress(meta, frame), signal, count)
    requires forall a: U16 :: file[a] == 0
    ensures !ReadsBackOne(meta, frame, signal, count, file, Lowest(signal))
  {
    hide Low, ProtocolAddress, EncodeRaw, Bit, FieldWrite, Patched, Extract, RegistersToBytes, RegisterBit, SwapWords,
         BufferBit, Lowest, RegisterType.IsWritable;
    var raw := Lowest(signal);
    LowestFits(signal);
    FieldWritten(meta, frame, signal, count, file, raw);
    var base, first := ProtocolAddress(meta, frame), signal.startBit / 16;
    var regs := ApplyAll(file, EncodeRaw(meta, frame, signal, raw).value)[base..base + count];
    LowestMisplaced(signal);
    MirroredBit(regs, signal.startBit);
    var q := 8 * (signal.startBit / 8) + 7 - signal.startBit % 8;
    FieldBit(signal, regs, file[base + first], base + first, 1, q);
    BitOfOtherThanLowest(signal, q);
    ClearReadsEven(meta, signal, regs, RegistersToBytes(regs));
  }

  lemma BitOfOtherThanLowest(signal: Signal, q: nat)
    requires signal.bitLength - 1 - (q - signal.startBit) != 0
    ensures signal.startBit <= q < signal.startBit + signal.bitLength ==>
              Bit(1, signal.bitLength - 1 - (q - signal.startBit)) == 0
    ensures Bit(0, 15 - q % 16) == 0
  {
    BitOfZero(15 - q % 16);
    if signal.startBit <= q < signal.startBit + signal.bitLength {
      BitOfOne(signal.bitLength - 1 - (q - signal.startBit));
    }
  }

  /** Registers that hold the words of 1 in order have the field's first low-end bit clear. */
  lemma WordsMisplaced(regs: seq<U16>, signal: Signal)
    requires Aligned(signal) && HoldsWords(regs, signal.startBit / 16, Words(1, signal.bitLength, Big))
    ensures signal.startBit < 16 * |regs| && BufferBit(RegistersToBytes(regs), Little, signal.startBit) == 0
  {
    hide Bit, WordOf, RegistersToBytes, BufferBit, Words, HoldsWords;
    FirstWord(regs, signal);
    TopByteBit(signal.startBit);
    MirroredBit(regs, signal.startBit);
    WordBit(1, signal.bitLength, 0, 8);
    BitOfOne(signal.bitLength - 8);
  }

  lemma TopByteBit(start: nat)
    requires start % 16 == 0
    ensures var q := 8 * (start / 8) + 7 - start % 8; q / 16 == start / 16 && q % 16 == 7
  {
    var w := start / 16;
    assert start == 16 * w;
    assert start / 8 == 2 * w && start % 8 == 0;
  }

  lemma FirstWord(regs: seq<U16>, signal: Signal)
    requires Aligned(signal) && HoldsWords(regs, signal.startBit / 16, Words(1, signal.bitLength, Big))
    ensures signal.startBit < 16 * |regs| && regs[signal.startBit / 16] == WordOf(1, signal.bitLength, 0)
  {
    hide WordOf;
    var first, words := signal.startBit / 16, Words(1, signal.bitLength, Big);
    assert regs[first + 0] == words[0];
  }

  /** The bytes an aligned signal is read from hold its words in order, whichever the word order. */
  lemma AlignedBytes(meta: Meta, signal: Signal, regs: seq<U16>, bits: nat) returns (ordered: seq<U16>)
    requires Aligned(signal)
    requires HoldsWords(regs, signal.startBit / 16, Words(bits, signal.bitLength, WordOrder(meta, signal)))
    ensures |ordered| == |regs| && HoldsWords(ordered, signal.startBit / 16, Words(bits, signal.bitLength, Big))
    ensures DecodeRaw(meta, signal, regs) ==
            Extract(
              RegistersToBytes(ordered), signal.startBit, signal.bitLength, ByteOrder(meta, signal), signal.signed)
  {
    hide Words, Extract, RegistersToBytes, SwapWords, HoldsWords, Turned;
    var first, n := signal.startBit / 16, signal.bitLength / 16;
    if WordOrder(meta, signal).Big? || signal.bitLength == 16 {
      OneWord(bits);
      ordered := regs;
    } else {
      HoldsFits(regs, first, Words(bits, signal.bitLength, Little));
      TurnedWords(regs, first, bits, signal.bitLength);
      SwapTurns(regs, first, n);
      ordered := Turned(regs, first, n);
    }
  }

  lemma AlignedDoesNotReadBack(meta: Meta, frame: Frame, signal: Signal, count: nat, file: File)
    requires frame.bank.IsWritable() && Aligned(signal) && ByteOrder(meta, signal).Little?
    requires InBlock(ProtocolAddress(meta, frame), signal, count)
    ensures !ReadsBackOne(meta, frame, signal, count, file, Lowest(signal))
  {
    hide Low, ProtocolAddress, EncodeRaw, DecodeRaw, Bit, Words, Extract, RegistersToBytes, BufferBit, Lowest,
         HoldsWords, RegisterType.IsWritable;
    var raw := Lowest(signal);
    LowestFits(signal);
    AlignedWritten(meta, frame, signal, count, file, raw);
    var base := ProtocolAddress(meta, frame);
    var regs := ApplyAll(file, EncodeRaw(meta, frame, signal, raw).value)[base..base + count];
    var ordered := AlignedBytes(meta, signal, regs, 1);
    WordsMisplaced(ordered, signal);
    ClearReadsEven(meta, signal, regs, RegistersToBytes(ordered));
  }

  /** The registers an aligned signal's writes leave behind. */
  lemma AlignedWritten(meta: Meta, frame: Frame, signal: Signal, count: nat, file: File, raw: int)
    requires frame.bank.IsWritable() && Aligned(signal) && InBlock(ProtocolAddress(meta, frame), signal, count)
    ensures EncodeRaw(meta, frame, signal, raw).Ok?
    ensures var base := ProtocolAddress(meta, frame);
            HoldsWords(
              ApplyAll(file, EncodeRaw(meta, frame, signal, raw).value)[base..base + count], signal.startBit / 16,
              Words(Low(raw, signal.bitLength), signal.bitLength, WordOrder(meta, signal)))
  {
    hide Words, Low, ProtocolAddress, EncodeRaw, ApplyAll, RegisterType.IsWritable;
    EncodeAligned(meta, frame, signal, raw, count);
    var base, first := ProtocolAddress(meta, frame), signal.startBit / 16;
    var writes := EncodeRaw(meta, frame, signal, raw).value;
    var words := Words(Low(raw, signal.bitLength), signal.bitLength, WordOrder(meta, signal));
    ApplyRun(file, writes, base + first);
    var regs := ApplyAll(file, writes)[base..base + count];
    forall i | 0 <= i < |words| ensures regs[first + i] == words[i] {
      assert regs[first + i] == ApplyAll(file, writes)[base + first + i];
      assert writes[i].value == words[i];
    }
  }

  /**
   Of the supported signals of a writable bank, exactly those that are big-endian, or lie in the
   middle of one byte, read back every value they are given, whatever was in the registers.
   */
  lemma ReadsBackIff(meta: Meta, frame: Frame, signal: Signal, count: nat)
    requires frame.bank.IsWritable() && Supported(signal) && InBlock(ProtocolAddress(meta, frame), signal, count)
    ensures ReadsBack(meta, frame, signal, count) <==> ByteOrder(meta, signal).Big? || Mirrored(signal)
  {
    hide ReadsBackOne, ProtocolAddress, RegisterType.IsWritable, Fits, InBlock, Lowest;
    LowestFits(signal);
    if ByteOrder(meta, signal).Big? || Mirrored(signal) {
      forall file: File, raw | Fits(signal, raw) ensures ReadsBackOne(meta, frame, signal, count, file, raw) {
        if ByteOrder(meta, signal).Big? {
          BigReadsBack(meta, frame, signal, count, file, raw);
        } else {
          MirroredIsField(signal);
          MirroredReadsBack(meta, frame, signal, count, file, raw);
        }
      }
    } else {
      var file: File := seq(0x1_0000, _ => 0);
      if Aligned(signal) {
        AlignedDoesNotReadBack(meta, frame, signal, count, file);
      } else {
        FieldDoesNotReadBack(meta, frame, signal, count, file);
      }
    }
  }

  lemma BigReadsBack(meta: Meta, frame: Frame, signal: Signal, count: nat, file: File, raw: int)
    requires frame.bank.IsWritable() && Supported(signal) && ByteOrder(meta, signal).Big? && Fits(signal, raw)
    requires InBlock(ProtocolAddress(meta, frame), signal, count)
    ensures ReadsBackOne(meta, frame, signal, count, file, raw)
  {
    hide ProtocolAddress, EncodeRaw, DecodeRaw, ApplyAll, Supported, Fits, RegisterType.IsWritable, Wrote;
    WriteThenRead(meta, frame, signal, raw, file, count);
  }
}
