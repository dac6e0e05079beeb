/**
 Writing a signal and reading it back: the raw integer returns, and no bit of any register
 outside the signal changes.
 */
module RegisterRoundTrip {
  import opened Numbers
  import opened Bits
  import opened Decode
  import opened RtuProtocol
  import opened Manifest

  /** The integers a signal's bits can hold. */
  predicate Fits(signal: Signal, raw: int) {
    signal.bitLength > 0 &&
    if signal.signed then 0 <= raw + Pow2(signal.bitLength - 1) && raw < Pow2(signal.bitLength - 1)
    else 0 <= raw < Pow2(signal.bitLength)
  }

  predicate Supported(signal: Signal) { Aligned(signal) || InOneRegister(signal) }

  /** Bit `p` of a register block, counted from the first register's top bit. */
  function RegisterBit(regs: seq<U16>, p: nat): nat
    requires p < 16 * |regs|
  {
    Bit(regs[p / 16], 15 - p % 16)
  }

  // ---------- registers as bytes ----------

  lemma BitOfByte(w: U16, k: nat)
    requires k < 8
    ensures Bit(HighByte(w), k) == Bit(w, k + 8) && Bit(LowByte(w), k) == Bit(w, k)
  {
    hide Bit, Low, ShiftRight;
    BitOfLow(ShiftRight(w, 8), 8, k);
    BitOfShiftRight(w, 8, k);
    BitOfLow(w, 8, k);
  }

  /** The bits of the bytes are the bits of the registers. */
  lemma BufferBitOfRegisters(regs: seq<U16>, p: nat)
    requires p < 16 * |regs|
    ensures BufferBit(RegistersToBytes(regs), Big, p) == RegisterBit(regs, p)
  {
    hide Bit, HighByte, LowByte;
    var w := regs[p / 16];
    BitOfByte(w, 7 - p % 8);
    assert p / 8 / 2 == p / 16;
  }

  /** A field of a block, read from its registers. */
  lemma ExtractRegisters(regs: seq<U16>, signal: Signal, v: int)
    requires 0 < signal.bitLength && signal.startBit + signal.bitLength <= 16 * |regs|
    requires forall p :: signal.startBit <= p < signal.startBit + signal.bitLength ==>
               RegisterBit(regs, p) == Bit(v, signal.bitLength - 1 - (p - signal.startBit))
    ensures Extract(RegistersToBytes(regs), signal.startBit, signal.bitLength, Big, signal.signed)
            == Signed(Low(v, signal.bitLength), signal.bitLength, signal.signed)
  {
    hide Bit, Low, RegisterBit, BufferBit, Extract, RegistersToBytes;
    forall p | signal.startBit <= p < signal.startBit + signal.bitLength
      ensures BufferBit(RegistersToBytes(regs), Big, p) == Bit(v, signal.bitLength - 1 - (p - signal.startBit))
    {
      BufferBitOfRegisters(regs, p);
    }
    ExtractIs(RegistersToBytes(regs), signal.startBit, signal.bitLength, signal.signed, v);
  }

  /** The registers `first .. first + n` in the opposite order. */
  function Turned(regs: seq<U16>, first: nat, n: nat): (r: seq<U16>)
    requires first + n <= |regs|
    ensures |r| == |regs|
  {
    seq(|regs|, i requires 0 <= i < |regs| =>
      if first <= i < first + n then regs[2 * first + n - 1 - i] else regs[i])
  }

  lemma SwapTurns(regs: seq<U16>, first: nat, n: nat)
    requires first + n <= |regs|
    ensures SwapWords(RegistersToBytes(regs), 16 * first, 16 * n) == RegistersToBytes(Turned(regs, first, n))
  {
    var bytes := RegistersToBytes(regs);
    assert 16 * first / 8 == 2 * first && WordCount(16 * n) == n;
    forall p | 0 <= p < |bytes|
      ensures SwapWords(bytes, 16 * first, 16 * n)[p] == RegistersToBytes(Turned(regs, first, n))[p]
    {
      SwappedByteOf(regs, first, n, p);
    }
  }

  lemma SwappedIndex(first: nat, n: nat, p: nat)
    requires 2 * first <= p < 2 * first + 2 * n
    ensures var from := 2 * first + 2 * (n - 1 - (p - 2 * first) / 2) + (p - 2 * first) % 2;
            && from < 2 * (first + n) && from % 2 == p % 2
            && first <= p / 2 < first + n && from / 2 == 2 * first + n - 1 - p / 2
  {
  }

  lemma ByteOfRegisters(regs: seq<U16>, p: nat)
    requires p < 2 * |regs|
    ensures RegistersToBytes(regs)[p] == if p % 2 == 0 then HighByte(regs[p / 2]) else LowByte(regs[p / 2])
  {
  }

  lemma SwappedByteOf(regs: seq<U16>, first: nat, n: nat, p: nat)
    requires first + n <= |regs| && p < 2 * |regs|
    ensures var bytes := RegistersToBytes(regs);
            (if 2 * first <= p < 2 * first + 2 * n then SwappedByte(bytes, 2 * first, n, p) else bytes[p])
            == RegistersToBytes(Turned(regs, first, n))[p]
  {
    hide HighByte, LowByte, RegistersToBytes;
    ByteOfRegisters(Turned(regs, first, n), p);
    if 2 * first <= p < 2 * first + 2 * n {
      SwappedIndex(first, n, p);
      ByteOfRegisters(regs, 2 * first + 2 * (n - 1 - (p - 2 * first) / 2) + (p - 2 * first) % 2);
    } else {
      ByteOfRegisters(regs, p);
      assert !(first <= p / 2 < first + n);
    }
  }

  // ---------- what a write does to one register ----------

  lemma PatchedBit(old_: U16, w: Write, k: nat)
    ensures Bit(Patched(old_, w), k) == if Bit(w.mask, k) == 1 then Bit(w.value, k) else Bit(old_, k)
  {
    BitOfOr(Without(old_, w.mask), And(w.value, w.mask), k);
    BitOfWithout(old_, w.mask, k);
    BitOfAnd(w.value, w.mask, k);
  }

  lemma FullMaskBit(k: nat)
    ensures Bit(0xFFFF, k) == if k < 16 then 1 else 0
  {
    SixteenBits();
    BitOfOnes(16, k);
  }

  /** A write that owns the whole register replaces it. */
  lemma PatchedFull(old_: U16, w: Write)
    requires w.mask == 0xFFFF
    ensures Patched(old_, w) == w.value
  {
    hide Bit, Patched;
    forall k: nat ensures Bit(Patched(old_, w), k) == Bit(w.value, k) {
      PatchedBit(old_, w, k);
      FullMaskBit(k);
      WordHasSixteenBits(old_, k);
      WordHasSixteenBits(w.value, k);
    }
    SameBits(Patched(old_, w), w.value);
  }

  /** Full writes to consecutive registers put their values there and change nothing else. */
  lemma {:induction false} ApplyRun(file: File, writes: seq<Write>, at: nat)
    requires at + |writes| <= 0x1_0000
    requires forall j :: 0 <= j < |writes| ==> writes[j].address == at + j && writes[j].mask == 0xFFFF
    ensures forall a :: 0 <= a < 0x1_0000 ==>
              ApplyAll(file, writes)[a] == if at <= a < at + |writes| then writes[a - at].value else file[a]
    decreases |writes|
  {
    hide Patched;
    if writes != [] {
      PatchedFull(file[at], writes[0]);
      ApplyRun(Apply(file, writes[0]), writes[1..], at + 1);
    }
  }

  // ---------- aligned signals ----------

  lemma WordBit(bits: nat, len: nat, i: nat, k: nat)
    requires 16 * (i + 1) <= len && k < 16
    ensures Bit(WordOf(bits, len, i), k) == Bit(bits, k + len - 16 * (i + 1))
  {
    hide Bit, Low, ShiftRight;
    BitOfLow(ShiftRight(bits, len - 16 * (i + 1)), 16, k);
    BitOfShiftRight(bits, len - 16 * (i + 1), k);
  }

  /** Registers holding a value's words in order hold its bits in order. */
  lemma WordsInOrder(regs: seq<U16>, signal: Signal, bits: nat)
    requires Aligned(signal) && signal.startBit + signal.bitLength <= 16 * |regs|
    requires forall i :: 0 <= i < signal.bitLength / 16 ==>
               regs[signal.startBit / 16 + i] == WordOf(bits, signal.bitLength, i)
    ensures Extract(RegistersToBytes(regs), signal.startBit, signal.bitLength, Big, signal.signed)
            == Signed(Low(bits, signal.bitLength), signal.bitLength, signal.signed)
  {
    hide Bit, WordOf, Extract, RegistersToBytes, Low;
    forall p | signal.startBit <= p < signal.startBit + signal.bitLength
      ensures RegisterBit(regs, p) == Bit(bits, signal.bitLength - 1 - (p - signal.startBit))
    {
      var i := p / 16 - signal.startBit / 16;
      assert regs[signal.startBit / 16 + i] == WordOf(bits, signal.bitLength, i);
      WordBit(bits, signal.bitLength, i, 15 - p % 16);
    }
    ExtractRegisters(regs, signal, bits);
  }

  predicate HoldsWords(regs: seq<U16>, first: nat, words: seq<U16>) {
    first + |words| <= |regs| && forall i :: 0 <= i < |words| ==> regs[first + i] == words[i]
  }

  lemma DecodeBigWords(signal: Signal, regs: seq<U16>, bits: nat)
    requires Aligned(signal)
    requires HoldsWords(regs, signal.startBit / 16, Words(bits, signal.bitLength, Big))
    ensures Extract(RegistersToBytes(regs), signal.startBit, signal.bitLength, Big, signal.signed)
            == Signed(Low(bits, signal.bitLength), signal.bitLength, signal.signed)
  {
    hide WordOf, Extract, RegistersToBytes, Low, Signed;
    var first, n := signal.startBit / 16, signal.bitLength / 16;
    var words := Words(bits, signal.bitLength, Big);
    forall i | 0 <= i < n ensures regs[first + i] == WordOf(bits, signal.bitLength, i) {
      assert regs[first + i] == words[i];
    }
    WordsInOrder(regs, signal, bits);
  }

  lemma TurnedWords(regs: seq<U16>, first: nat, bits: nat, len: nat)
    requires len % 16 == 0 && HoldsWords(regs, first, Words(bits, len, Little))
    ensures HoldsWords(Turned(regs, first, len / 16), first, Words(bits, len, Big))
  {
    hide WordOf;
    var n := len / 16;
    var big, little := Words(bits, len, Big), Words(bits, len, Little);
    forall i | 0 <= i < n ensures Turned(regs, first, n)[first + i] == big[i] {
      assert regs[first + (n - 1 - i)] == little[n - 1 - i];
    }
  }

  lemma DecodeLittleWords(signal: Signal, regs: seq<U16>, bits: nat)
    requires Aligned(signal)
    requires HoldsWords(regs, signal.startBit / 16, Words(bits, signal.bitLength, Little))
    ensures Extract(SwapWords(RegistersToBytes(regs), signal.startBit, signal.bitLength),
                    signal.startBit, signal.bitLength, Big, signal.signed)
            == Signed(Low(bits, signal.bitLength), signal.bitLength, signal.signed)
  {
    hide Words, Extract, RegistersToBytes, Low, SwapWords, Signed, HoldsWords, Turned;
    var first, n := signal.startBit / 16, signal.bitLength / 16;
    HoldsFits(regs, first, Words(bits, signal.bitLength, Little));
    TurnedWords(regs, first, bits, signal.bitLength);
    SwapTurns(regs, first, n);
    DecodeBigWords(signal, Turned(regs, first, n), bits);
  }

  lemma HoldsFits(regs: seq<U16>, first: nat, words: seq<U16>)
    requires HoldsWords(regs, first, words)
    ensures first + |words| <= |regs|
  {
  }

  lemma OneWord(bits: nat)
    ensures Words(bits, 16, Little) == Words(bits, 16, Big)
  {
    hide WordOf;
  }

  /** Either word order is undone by decoding with the same word order. */
  lemma DecodeAligned(meta: Meta, signal: Signal, regs: seq<U16>, bits: nat)
    requires Aligned(signal) && ByteOrder(meta, signal).Big?
    requires HoldsWords(regs, signal.startBit / 16, Words(bits, signal.bitLength, WordOrder(meta, signal)))
    ensures DecodeRaw(meta, signal, regs) == Signed(Low(bits, signal.bitLength), signal.bitLength, signal.signed)
  {
    hide Words, Extract, RegistersToBytes, Low, SwapWords, Signed, HoldsWords;
    OneWord(bits);
    if WordOrder(meta, signal).Big? || signal.bitLength == 16 {
      DecodeBigWords(signal, regs, bits);
    } else {
      DecodeLittleWords(signal, regs, bits);
    }
  }

  // ---------- single-register fields ----------

  lemma FieldMaskBit(signal: Signal, k: nat)
    requires InOneRegister(signal)
    ensures Bit(FieldMask(signal), k) ==
            if FieldShift(signal) <= k < FieldShift(signal) + signal.bitLength then 1 else 0
  {
    hide Bit, Low, ShiftLeft, Pow2;
    var ones := Pow2(signal.bitLength) - 1;
    BitOfLow(ShiftLeft(ones, FieldShift(signal)), 16, k);
    BitOfShiftLeft(ones, FieldShift(signal), k);
    if k >= FieldShift(signal) {
      BitOfOnes(signal.bitLength, k - FieldShift(signal));
    }
  }

  lemma FieldValueBit(signal: Signal, bits: nat, k: nat)
    requires InOneRegister(signal)
    ensures var value := Masked(Truncated(ShiftLeft(bits, FieldShift(signal))), FieldMask(signal));
            FieldShift(signal) <= k < FieldShift(signal) + signal.bitLength ==>
              Bit(value, k) == Bit(bits, k - FieldShift(signal))
  {
    hide Bit, Low, ShiftLeft, Pow2, And, FieldMask;
    var shifted := ShiftLeft(bits, FieldShift(signal));
    BitOfAnd(Truncated(shifted), FieldMask(signal), k);
    FieldMaskBit(signal, k);
    BitOfLow(shifted, 16, k);
    BitOfShiftLeft(bits, FieldShift(signal), k);
  }

  /** The one masked write of a field. */
  function FieldWrite(address: U16, signal: Signal, bits: nat): Write
    requires InOneRegister(signal)
  {
    Write(address, Masked(Truncated(ShiftLeft(bits, FieldShift(signal))), FieldMask(signal)), FieldMask(signal))
  }

  lemma FieldPatchedBit(old_: U16, address: U16, signal: Signal, bits: nat, k: nat)
    requires InOneRegister(signal)
    ensures Bit(Patched(old_, FieldWrite(address, signal, bits)), k) ==
            if FieldShift(signal) <= k < FieldShift(signal) + signal.bitLength
            then Bit(bits, k - FieldShift(signal)) else Bit(old_, k)
  {
    hide Bit, FieldMask, Truncated, ShiftLeft, Patched, Masked;
    PatchedBit(old_, FieldWrite(address, signal, bits), k);
    FieldMaskBit(signal, k);
    FieldValueBit(signal, bits, k);
  }

  /** Where in its register a field's bits lie, counted from either end. */
  lemma FieldPosition(signal: Signal, p: nat)
    requires InOneRegister(signal)
    ensures signal.startBit <= p < signal.startBit + signal.bitLength <==>
            p / 16 == signal.startBit / 16 &&
            FieldShift(signal) <= 15 - p % 16 < FieldShift(signal) + signal.bitLength
    ensures p / 16 == signal.startBit / 16 ==>
            15 - p % 16 - FieldShift(signal) == signal.bitLength - 1 - (p - signal.startBit)
  {
  }

  lemma DecodeField(meta: Meta, signal: Signal, regs: seq<U16>, old_: U16, address: U16, bits: nat)
    requires InOneRegister(signal) && ByteOrder(meta, signal).Big?
    requires signal.startBit + signal.bitLength <= 16 * |regs|
    requires regs[signal.startBit / 16] == Patched(old_, FieldWrite(address, signal, bits))
    ensures DecodeRaw(meta, signal, regs) == Signed(Low(bits, signal.bitLength), signal.bitLength, signal.signed)
  {
    hide Bit, Patched, FieldWrite, Extract, RegistersToBytes, Low, SwapWords, FieldShift, Signed;
    forall p | signal.startBit <= p < signal.startBit + signal.bitLength
      ensures RegisterBit(regs, p) == Bit(bits, signal.bitLength - 1 - (p - signal.startBit))
    {
      FieldPosition(signal, p);
      FieldPatchedBit(old_, address, signal, bits, 15 - p % 16);
    }
    ExtractRegisters(regs, signal, bits);
  }

  // ---------- the whole file ----------

  /** The signal lies in a block of `count` registers that the bank can hold. */
  predicate InBlock(base: U16, signal: Signal, count: nat) {
    base + count <= 0x1_0000 && signal.startBit + signal.bitLength <= 16 * count
  }

  /** Bit `k` of register `a` is one of the signal's own. */
  predicate Owns(base: U16, signal: Signal, a: U16, k: nat) {
    k < 16 && signal.startBit <= 16 * (a - base) + (15 - k) < signal.startBit + signal.bitLength
  }

  /** One write's effect on every bit of the file: its own bits change, the others stay. */
  ghost predicate Wrote(before: File, after: File, base: U16, signal: Signal) {
    forall a: U16, k: nat :: k < 16 && !Owns(base, signal, a, k) ==> Bit(after[a], k) == Bit(before[a], k)
  }

  lemma EncodeAligned(meta: Meta, frame: Frame, signal: Signal, raw: int, count: nat)
    requires frame.bank.IsWritable() && Aligned(signal) && InBlock(ProtocolAddress(meta, frame), signal, count)
    ensures EncodeRaw(meta, frame, signal, raw).Ok?
    ensures var writes := EncodeRaw(meta, frame, signal, raw).value;
            var words := Words(Low(raw, signal.bitLength), signal.bitLength, WordOrder(meta, signal));
            && |writes| == |words| == signal.bitLength / 16
            && forall j :: 0 <= j < |writes| ==>
                 writes[j] == Write(ProtocolAddress(meta, frame) + signal.startBit / 16 + j, words[j], 0xFFFF)
  {
    hide Words, Low, ProtocolAddress, RegisterType.IsWritable, SaturatingAdd, RegisterIndex;
    var base := ProtocolAddress(meta, frame);
    var writes := EncodeRaw(meta, frame, signal, raw).value;
    forall j | 0 <= j < |writes|
      ensures writes[j].address == base + signal.startBit / 16 + j
    {
      NoSaturation(base, signal, count, j);
    }
  }

  lemma NoSaturation(base: U16, signal: Signal, count: nat, j: nat)
    requires Aligned(signal) && InBlock(base, signal, count) && j < signal.bitLength / 16
    ensures SaturatingAdd(base, (RegisterIndex(signal) + j) % 0x1_0000) == base + signal.startBit / 16 + j
  {
  }

  lemma AlignedRoundTrip(meta: Meta, frame: Frame, signal: Signal, raw: int, file: File, count: nat)
    requires frame.bank.IsWritable() && Aligned(signal) && ByteOrder(meta, signal).Big? && Fits(signal, raw)
    requires InBlock(ProtocolAddress(meta, frame), signal, count)
    ensures EncodeRaw(meta, frame, signal, raw).Ok?
    ensures var base := ProtocolAddress(meta, frame);
            var after := ApplyAll(file, EncodeRaw(meta, frame, signal, raw).value);
            DecodeRaw(meta, signal, after[base..base + count]) == raw && Wrote(file, after, base, signal)
  {
    hide Words, Low, ProtocolAddress, EncodeRaw, DecodeRaw, Bit, ApplyAll, Signed, RegisterType.IsWritable;
    EncodeAligned(meta, frame, signal, raw, count);
    var base, first := ProtocolAddress(meta, frame), signal.startBit / 16;
    var writes := EncodeRaw(meta, frame, signal, raw).value;
    var bits := Low(raw, signal.bitLength);
    var words := Words(bits, signal.bitLength, WordOrder(meta, signal));
    ApplyRun(file, writes, base + first);
    var after := ApplyAll(file, writes);
    var regs := after[base..base + count];
    forall i | 0 <= i < |words| ensures regs[first + i] == words[i] {
      assert regs[first + i] == after[base + first + i];
      assert writes[i].value == words[i];
    }
    DecodeAligned(meta, signal, regs, bits);
    LowTwice(raw, signal.bitLength, signal.bitLength);
    SignedLow(raw, signal.bitLength, signal.signed);
  }

  lemma EncodeField(meta: Meta, frame: Frame, signal: Signal, raw: int, count: nat)
    requires frame.bank.IsWritable() && InOneRegister(signal) && InBlock(ProtocolAddress(meta, frame), signal, count)
    ensures var address := ProtocolAddress(meta, frame) + signal.startBit / 16;
            && address < 0x1_0000
            && EncodeRaw(meta, frame, signal, raw)
               == Ok([FieldWrite(address, signal, Low(raw, signal.bitLength))])
  {
    hide Low, ProtocolAddress, FieldMask, FieldShift, Masked, Truncated, RegisterType.IsWritable;
  }

  lemma FieldRoundTrip(meta: Meta, frame: Frame, signal: Signal, raw: int, file: File, count: nat)
    requires frame.bank.IsWritable() && InOneRegister(signal) && ByteOrder(meta, signal).Big? && Fits(signal, raw)
    requires InBlock(ProtocolAddress(meta, frame), signal, count)
    ensures EncodeRaw(meta, frame, signal, raw).Ok?
    ensures var base := ProtocolAddress(meta, frame);
            var after := ApplyAll(file, EncodeRaw(meta, frame, signal, raw).value);
            DecodeRaw(meta, signal, after[base..base + count]) == raw && Wrote(file, after, base, signal)
  {
    hide Low, ProtocolAddress, EncodeRaw, DecodeRaw, Bit, Signed, FieldWrite, FieldShift, Patched,
         RegisterType.IsWritable;
    EncodeField(meta, frame, signal, raw, count);
    var base, first := ProtocolAddress(meta, frame), signal.startBit / 16;
    var bits := Low(raw, signal.bitLength);
    var w := FieldWrite(base + first, signal, bits);
    FieldAddress(base + first, signal, bits);
    var after := Apply(file, w);
    assert ApplyAll(file, [w]) == after;
    var regs := after[base..base + count];
    DecodeField(meta, signal, regs, file[base + first], base + first, bits);
    LowTwice(raw, signal.bitLength, signal.bitLength);
    SignedLow(raw, signal.bitLength, signal.signed);
    forall a: U16, k: nat | k < 16 && !Owns(base, signal, a, k) ensures Bit(after[a], k) == Bit(file[a], k) {
      if a == base + first {
        FieldPosition(signal, 16 * first + (15 - k));
        FieldPatchedBit(file[a], base + first, signal, bits, k);
      }
    }
  }

  lemma FieldAddress(address: U16, signal: Signal, bits: nat)
    requires InOneRegister(signal)
    ensures FieldWrite(address, signal, bits).address == address
  {
  }

  /**
   For every layout that can be written, either word order, signed or not, and any value in
   range: the writes put the value where decoding finds it again, and no other bit of any
   register changes.
   */
  lemma WriteThenRead(meta: Meta, frame: Frame, signal: Signal, raw: int, file: File, count: nat)
    requires frame.bank.IsWritable() && Supported(signal) && ByteOrder(meta, signal).Big? && Fits(signal, raw)
    requires InBlock(ProtocolAddress(meta, frame), signal, count)
    ensures EncodeRaw(meta, frame, signal, raw).Ok?
    ensures var base := ProtocolAddress(meta, frame);
            var after := ApplyAll(file, EncodeRaw(meta, frame, signal, raw).value);
            DecodeRaw(meta, signal, after[base..base + count]) == raw && Wrote(file, after, base, signal)
  {
    hide EncodeRaw, DecodeRaw, ApplyAll, Wrote, ProtocolAddress, Fits, Aligned, InOneRegister;
    if Aligned(signal) {
      AlignedRoundTrip(meta, frame, signal, raw, file, count);
    } else {
      FieldRoundTrip(meta, frame, signal, raw, file, count);
    }
  }

  /** Exactly the writable banks and supported layouts encode; a read-only bank is named first. */
  lemma EncodesIff(meta: Meta, frame: Frame, signal: Signal, raw: int)
    ensures EncodeRaw(meta, frame, signal, raw).Ok? <==> frame.bank.IsWritable() && Supported(signal)
    ensures EncodeRaw(meta, frame, signal, raw).Err? ==>
              EncodeRaw(meta, frame, signal, raw).error ==
              if frame.bank.IsWritable() then UnsupportedLayout(signal.name, signal.startBit, signal.bitLength)
              else NotWritable(signal.name)
  {
    hide Low, Words, FieldMask, FieldShift, Masked, Truncated, ProtocolAddress, RegisterType.IsWritable;
  }
}
