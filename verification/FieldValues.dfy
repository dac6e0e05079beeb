/** What fields of bytes and registers read as, as numbers. */
module FieldValues {
  import opened Common
  import opened Numbers
  import opened Bits
  import opened Decode
  import opened Manifest
  import opened RegisterRoundTrip
  import opened OnTheWire

  // ---------- bits of a number in base 256 ----------

  lemma BitAboveByte(v: nat, m: nat)
    ensures Bit(v, m + 8) == Bit(v / 256, m)
  {
    BitAboveNibble(v, m + 4);
    BitAboveNibble(v / 16, m);
    assert v / 16 / 16 == v / 256;
  }

  lemma BitAboveNibble(v: nat, m: nat)
    ensures Bit(v, m + 4) == Bit(v / 16, m)
  {
    assert Bit(v, m + 4) == Bit(v / 2, m + 3) == Bit(v / 4, m + 2) == Bit(v / 8, m + 1) == Bit(v / 16, m);
  }

  lemma BitOfLastByte(v: nat, m: nat)
    requires m < 8
    ensures Bit(v, m) == Bit(v % 256, m)
  {
    BitOfLow(v, 8, m);
    LowIsRemainder(v, 8);
    EightBits();
    hide Bit, Low, Pow2;
  }

  lemma EightBits()
    ensures Pow2(8) == 256
  {
  }

  /** What bytes are worth, the first the most significant. */
  function BigNumber(bytes: seq<Octet>): nat {
    if bytes == [] then 0 else 256 * BigNumber(bytes[..|bytes| - 1]) + bytes[|bytes| - 1]
  }

  /** What they are worth, the first the least significant. */
  function LittleNumber(bytes: seq<Octet>): nat {
    if bytes == [] then 0 else bytes[0] + 256 * LittleNumber(bytes[1..])
  }

  lemma ByteAndRest(x: nat, y: Octet)
    ensures (256 * x + y) / 256 == x && (256 * x + y) % 256 == y
  {
  }

  lemma {:induction false} BitOfBigNumber(bytes: seq<Octet>, i: nat, k: nat)
    requires i < |bytes| && k < 8
    ensures Bit(BigNumber(bytes), 8 * (|bytes| - 1 - i) + k) == Bit(bytes[i], k)
  {
    hide Bit;
    var n := |bytes| - 1;
    ByteAndRest(BigNumber(bytes[..n]), bytes[n]);
    if i == n {
      BitOfLastByte(BigNumber(bytes), k);
    } else {
      BitAboveByte(BigNumber(bytes), 8 * (n - 1 - i) + k);
      BitOfBigNumber(bytes[..n], i, k);
    }
  }

  lemma {:induction false} BitOfLittleNumber(bytes: seq<Octet>, i: nat, k: nat)
    requires i < |bytes| && k < 8
    ensures Bit(LittleNumber(bytes), 8 * i + k) == Bit(bytes[i], k)
  {
    hide Bit;
    ByteAndRest(LittleNumber(bytes[1..]), bytes[0]);
    if i == 0 {
      BitOfLastByte(LittleNumber(bytes), k);
    } else {
      BitAboveByte(LittleNumber(bytes), 8 * (i - 1) + k);
      BitOfLittleNumber(bytes[1..], i - 1, k);
    }
  }

  lemma {:induction false} BigNumberBound(bytes: seq<Octet>)
    ensures BigNumber(bytes) < Pow2(8 * |bytes|)
  {
    if bytes != [] {
      BigNumberBound(bytes[..|bytes| - 1]);
      EightMore(8 * (|bytes| - 1));
    }
  }

  lemma {:induction false} LittleNumberBound(bytes: seq<Octet>)
    ensures LittleNumber(bytes) < Pow2(8 * |bytes|)
  {
    if bytes != [] {
      LittleNumberBound(bytes[1..]);
      EightMore(8 * (|bytes| - 1));
    }
  }

  lemma EightMore(n: nat)
    ensures Pow2(n + 8) == 256 * Pow2(n)
  {
    assert Pow2(n + 8) == 2 * Pow2(n + 7) == 4 * Pow2(n + 6) == 8 * Pow2(n + 5) == 16 * Pow2(n + 4);
    assert Pow2(n + 4) == 2 * Pow2(n + 3) == 4 * Pow2(n + 2) == 8 * Pow2(n + 1) == 16 * Pow2(n);
  }

  // ---------- fields, bit by bit ----------

  lemma {:induction false} ReversedAt(bits: seq<nat>, i: nat)
    requires i < |bits|
    ensures Reversed(bits)[i] == bits[|bits| - 1 - i]
  {
    if i > 0 {
      ReversedAt(bits[..|bits| - 1], i - 1);
    }
  }

  /** A little-endian field is read from its lowest bit up, each byte from its bottom bit. */
  lemma ExtractIsLittle(bytes: seq<Octet>, startBit: nat, bitLength: nat, signed: bool, v: int)
    requires 0 < bitLength && startBit + bitLength <= 8 * |bytes|
    requires forall k :: 0 <= k < bitLength ==> Bit(bytes[(startBit + k) / 8], (startBit + k) % 8) == Bit(v, k)
    ensures Extract(bytes, startBit, bitLength, Little, signed) == Signed(Low(v, bitLength), bitLength, signed)
  {
    hide Bit, Low, FromBits, Reversed;
    var field := Field(BufferBits(bytes, Little), startBit, bitLength);
    forall i | 0 <= i < bitLength ensures Reversed(field)[i] == Bit(v, bitLength - 1 - i) {
      ReversedAt(field, i);
      assert field[bitLength - 1 - i] == BufferBit(bytes, Little, startBit + (bitLength - 1 - i));
    }
    FromBitsIs(Reversed(field), v);
  }

  /** Two's complement of a number of `bitLength` bits, in numbers. */
  function Complemented(v: nat, bitLength: nat, signed: bool): int
    requires bitLength > 0
  {
    if signed && v >= Pow2(bitLength - 1) then v - Pow2(bitLength) else v
  }

  lemma SignedIs(v: nat, bitLength: nat, signed: bool)
    requires bitLength > 0 && v < Pow2(bitLength)
    ensures Signed(Low(v, bitLength), bitLength, signed) == Complemented(v, bitLength, signed)
  {
    hide Low, Pow2;
    LowOfRange(v, bitLength);
    TopBit(v, bitLength);
  }

  // ---------- fields of whole bytes ----------

  /** Whole bytes read as a number in base 256, from either end. */
  lemma BytesReadAs(bytes: seq<Octet>, first: nat, n: nat, signed: bool)
    requires n > 0 && first + n <= |bytes|
    ensures Extract(bytes, 8 * first, 8 * n, Big, signed)
            == Complemented(BigNumber(bytes[first..first + n]), 8 * n, signed)
    ensures Extract(bytes, 8 * first, 8 * n, Little, signed)
            == Complemented(LittleNumber(bytes[first..first + n]), 8 * n, signed)
  {
    hide Extract, Bit, BufferBit, BigNumber, LittleNumber, Low, Pow2, Signed, Complemented;
    var field := bytes[first..first + n];
    BigNumberBound(field);
    LittleNumberBound(field);
    forall p | 8 * first <= p < 8 * first + 8 * n
      ensures BufferBit(bytes, Big, p) == Bit(BigNumber(field), 8 * n - 1 - (p - 8 * first))
    {
      BigBit(bytes, first, n, p);
    }
    ExtractIs(bytes, 8 * first, 8 * n, signed, BigNumber(field));
    SignedIs(BigNumber(field), 8 * n, signed);
    forall k | 0 <= k < 8 * n
      ensures Bit(bytes[(8 * first + k) / 8], (8 * first + k) % 8) == Bit(LittleNumber(field), k)
    {
      LittleBit(bytes, first, n, k);
    }
    ExtractIsLittle(bytes, 8 * first, 8 * n, signed, LittleNumber(field));
    SignedIs(LittleNumber(field), 8 * n, signed);
  }

  lemma BigBit(bytes: seq<Octet>, first: nat, n: nat, p: nat)
    requires first + n <= |bytes| && 8 * first <= p < 8 * first + 8 * n
    ensures BufferBit(bytes, Big, p) == Bit(BigNumber(bytes[first..first + n]), 8 * n - 1 - (p - 8 * first))
  {
    hide Bit, BigNumber;
    BitOfBigNumber(bytes[first..first + n], p / 8 - first, 7 - p % 8);
  }

  lemma LittleBit(bytes: seq<Octet>, first: nat, n: nat, k: nat)
    requires first + n <= |bytes| && k < 8 * n
    ensures Bit(bytes[(8 * first + k) / 8], (8 * first + k) % 8) == Bit(LittleNumber(bytes[first..first + n]), k)
  {
    hide Bit, LittleNumber;
    BitOfLittleNumber(bytes[first..first + n], k / 8, k % 8);
  }

  // ---------- registers ----------

  /** Registers with their two bytes exchanged. */
  function Exchanged(regs: seq<U16>): (r: seq<U16>)
    ensures |r| == |regs|
  {
    seq(|regs|, i requires 0 <= i < |regs| => regs[i] % 256 * 256 + regs[i] / 256)
  }

  lemma HalvesOf(w: U16)
    ensures HighByte(w) == w / 256 && LowByte(w) == w % 256
  {
    hide Low, ShiftRight, Pow2;
    EightBits();
    LowIsRemainder(w, 8);
    LowIsRemainder(ShiftRight(w, 8), 8);
    RestAndLow(w, 8);
  }

  lemma {:induction false} BigInBytes(regs: seq<U16>)
    ensures BigNumber(RegistersToBytes(regs)) == BigValue(regs)
  {
    hide RegistersToBytes, BigNumber;
    if regs == [] {
      NoRegisters(regs);
    } else {
      BigRegisters(regs);
      BigInBytes(regs[..|regs| - 1]);
    }
  }

  lemma {:induction false} LittleInBytes(regs: seq<U16>)
    ensures LittleNumber(RegistersToBytes(regs)) == LittleValue(Exchanged(regs))
  {
    hide RegistersToBytes, LittleNumber;
    if regs == [] {
      NoRegisters(regs);
    } else {
      LittleRegisters(regs);
      LittleInBytes(regs[1..]);
      assert Exchanged(regs)[1..] == Exchanged(regs[1..]);
    }
  }

  lemma NoRegisters(regs: seq<U16>)
    requires regs == []
    ensures BigNumber(RegistersToBytes(regs)) == 0 && LittleNumber(RegistersToBytes(regs)) == 0
  {
  }

  lemma BigRegisters(regs: seq<U16>)
    requires regs != []
    ensures BigNumber(RegistersToBytes(regs)) ==
            65536 * BigNumber(RegistersToBytes(regs[..|regs| - 1])) + regs[|regs| - 1]
  {
    hide HighByte, LowByte, BigNumber;
    var n, w := |regs| - 1, regs[|regs| - 1];
    HalvesOf(w);
    assert RegistersToBytes(regs) == RegistersToBytes(regs[..n]) + [HighByte(w)] + [LowByte(w)];
    BigAppend(RegistersToBytes(regs[..n]) + [HighByte(w)], LowByte(w));
    BigAppend(RegistersToBytes(regs[..n]), HighByte(w));
  }

  lemma BigAppend(bytes: seq<Octet>, b: Octet)
    ensures BigNumber(bytes + [b]) == 256 * BigNumber(bytes) + b
  {
    assert (bytes + [b])[..|bytes|] == bytes;
  }

  lemma LittleRegisters(regs: seq<U16>)
    requires regs != []
    ensures LittleNumber(RegistersToBytes(regs)) ==
            regs[0] / 256 + 256 * (regs[0] % 256) + 65536 * LittleNumber(RegistersToBytes(regs[1..]))
  {
    hide HighByte, LowByte, LittleNumber;
    HalvesOf(regs[0]);
    var rest := RegistersToBytes(regs[1..]);
    assert RegistersToBytes(regs) == [HighByte(regs[0])] + ([LowByte(regs[0])] + rest);
    LittlePrepend(HighByte(regs[0]), [LowByte(regs[0])] + rest);
    LittlePrepend(LowByte(regs[0]), rest);
  }

  lemma LittlePrepend(b: Octet, bytes: seq<Octet>)
    ensures LittleNumber([b] + bytes) == b + 256 * LittleNumber(bytes)
  {
    assert ([b] + bytes)[1..] == bytes;
  }

  // ---------- registers turned round ----------

  function Backwards(regs: seq<U16>): (r: seq<U16>)
    ensures |r| == |regs|
  {
    seq(|regs|, i requires 0 <= i < |regs| => regs[|regs| - 1 - i])
  }

  lemma {:induction false} BackwardsValue(regs: seq<U16>)
    ensures BigValue(Backwards(regs)) == LittleValue(regs)
    ensures LittleValue(Backwards(regs)) == BigValue(regs)
  {
    if regs != [] {
      var n := |regs| - 1;
      BackwardsValue(regs[1..]);
      BackwardsValue(regs[..n]);
      assert Backwards(regs)[..n] == Backwards(regs[1..]);
      assert Backwards(regs)[1..] == Backwards(regs[..n]);
    }
  }

  lemma TurnedSlice(regs: seq<U16>, first: nat, n: nat)
    requires first + n <= |regs|
    ensures Turned(regs, first, n)[first..first + n] == Backwards(regs[first..first + n])
  {
  }

  lemma ExchangedBackwards(regs: seq<U16>)
    ensures Exchanged(Backwards(regs)) == Backwards(Exchanged(regs))
  {
  }

  // ---------- a signal of whole registers ----------

  /**
   What registers say to a device of the given orders: registers first to last for big word order, last to
   first for little; and with little byte order each register's bytes exchanged and the ends too.
   */
  function Said(held: seq<U16>, bigBytes: bool, bigWords: bool): nat {
    if bigBytes then (if bigWords then BigValue(held) else LittleValue(held))
    else (if bigWords then LittleValue(Exchanged(held)) else BigValue(Exchanged(held)))
  }

  lemma SliceInBytes(regs: seq<U16>, first: nat, n: nat)
    requires first + n <= |regs|
    ensures RegistersToBytes(regs)[2 * first..2 * (first + n)] == RegistersToBytes(regs[first..first + n])
  {
    hide HighByte, LowByte;
  }

  lemma BlockReadAs(regs: seq<U16>, first: nat, n: nat, order: Endianness, signed: bool)
    requires n > 0 && first + n <= |regs|
    ensures Extract(RegistersToBytes(regs), 16 * first, 16 * n, order, signed)
            == Complemented(Said(regs[first..first + n], order.Big?, true), 16 * n, signed)
  {
    hide Extract, RegistersToBytes, BigNumber, LittleNumber, BigValue, LittleValue, Exchanged, Complemented;
    SliceInBytes(regs, first, n);
    BigInBytes(regs[first..first + n]);
    LittleInBytes(regs[first..first + n]);
    BytesReadAs(RegistersToBytes(regs), 2 * first, 2 * n, signed);
  }

  lemma TurnedSaid(held: seq<U16>, bigBytes: bool)
    ensures Said(Backwards(held), bigBytes, true) == Said(held, bigBytes, false)
    ensures |held| == 1 ==> Said(held, bigBytes, false) == Said(held, bigBytes, true)
  {
    hide BigValue, LittleValue;
    BackwardsValue(held);
    ExchangedBackwards(held);
    BackwardsValue(Exchanged(held));
    if |held| == 1 {
      assert Backwards(held) == held;
    }
  }

  /** A signal of whole registers reads as the number they say in its own orders, or the device's, or big. */
  lemma AlignedReadsAs(meta: Meta, signal: Signal, regs: seq<U16>)
    requires signal.startBit % 16 == 0 && signal.bitLength % 16 == 0 && signal.bitLength > 0
    requires signal.startBit + signal.bitLength <= 16 * |regs|
    ensures var first, n := signal.startBit / 16, signal.bitLength / 16;
            DecodeRaw(meta, signal, regs) ==
            Complemented(Said(regs[first..first + n], IsBig(signal.byteOrder, meta.defaultByteOrder),
                              IsBig(signal.wordOrder, meta.defaultWordOrder)),
                         signal.bitLength, signal.signed)
  {
    hide Extract, RegistersToBytes, SwapWords, Turned, Backwards, Said, Complemented, IsBig;
    OrdersAre(meta, signal);
    var first, n := signal.startBit / 16, signal.bitLength / 16;
    assert signal.startBit == 16 * first && signal.bitLength == 16 * n;
    var held, order := regs[first..first + n], ByteOrder(meta, signal);
    TurnedSaid(held, order.Big?);
    if WordOrder(meta, signal).Little? && n > 1 {
      SwapTurns(regs, first, n);
      TurnedSlice(regs, first, n);
      BlockReadAs(Turned(regs, first, n), first, n, order, signal.signed);
    } else {
      BlockReadAs(regs, first, n, order, signal.signed);
    }
  }

  /** Any signal: words are turned round for little word order alone, and only in signals of more than 16 bits. */
  lemma ReadsAs(meta: Meta, signal: Signal, regs: seq<U16>)
    ensures var bytes := RegistersToBytes(regs);
            var turned := !IsBig(signal.wordOrder, meta.defaultWordOrder) && 17 <= signal.bitLength;
            DecodeRaw(meta, signal, regs) ==
            Extract(if turned then SwapWords(bytes, signal.startBit, signal.bitLength) else bytes,
                    signal.startBit, signal.bitLength,
                    if IsBig(signal.byteOrder, meta.defaultByteOrder) then Big else Little, signal.signed)
  {
    hide Extract, SwapWords, RegistersToBytes, WordOrder, ByteOrder, IsBig;
    OrdersAre(meta, signal);
  }

  // ---------- at the edges ----------

  /** As many words as hold the bits. */
  lemma WordCountIs(bitLength: nat)
    ensures 16 * WordCount(bitLength) - 16 < bitLength <= 16 * WordCount(bitLength)
  {
  }

  /** Byte `k` of word `j` of a swap comes from word `words - 1 - j`, and is zero if that lies past the end. */
  lemma SwappedFrom(bytes: seq<Octet>, startBit: nat, bitLength: nat, j: nat, k: nat)
    requires j < WordCount(bitLength) && k < 2 && startBit / 8 + 2 * j + k < |bytes|
    ensures var first, from := startBit / 8, startBit / 8 + 2 * (WordCount(bitLength) - 1 - j) + k;
            SwapWords(bytes, startBit, bitLength)[first + 2 * j + k] == if from < |bytes| then bytes[from] else 0
  {
    hide WordCount;
    var p := startBit / 8 + 2 * j + k;
    assert (p - startBit / 8) / 2 == j && (p - startBit / 8) % 2 == k;
  }

  /** What lies outside the words a signal spans stays. */
  lemma NotSwapped(bytes: seq<Octet>, startBit: nat, bitLength: nat, p: nat)
    requires p < |bytes| && !(startBit / 8 <= p < startBit / 8 + 2 * WordCount(bitLength))
    ensures SwapWords(bytes, startBit, bitLength)[p] == bytes[p]
  {
  }

  predicate AreBits(bits: seq<nat>) { forall i :: 0 <= i < |bits| ==> bits[i] <= 1 }

  lemma {:induction false} FromBitsBound(bits: seq<nat>)
    requires AreBits(bits)
    ensures 0 <= FromBits(bits) < Pow2(|bits|)
  {
    if bits != [] {
      FromBitsBound(bits[..|bits| - 1]);
    }
  }

  lemma {:induction false} NoBitAbove(v: nat, n: nat, k: nat)
    requires v < Pow2(n) && n <= k
    ensures Bit(v, k) == 0
    decreases n
  {
    if n == 0 {
      BitOfZero(k);
    } else {
      NoBitAbove(v / 2, n - 1, k - 1);
    }
  }

  lemma ReversedBits(bits: seq<nat>)
    requires AreBits(bits)
    ensures AreBits(Reversed(bits))
  {
    forall i | 0 <= i < |bits| ensures Reversed(bits)[i] <= 1 {
      ReversedAt(bits, i);
    }
  }

  lemma FieldIsBits(bytes: seq<Octet>, startBit: nat, bitLength: nat, endian: Endianness)
    ensures AreBits(Field(BufferBits(bytes, endian), startBit, bitLength))
  {
    hide Bit;
  }

  /** A field that reaches past the buffer is the field of the bits that are there; signed or not, it is no negative. */
  lemma FieldCutShort(bytes: seq<Octet>, startBit: nat, bitLength: nat, endian: Endianness, signed: bool)
    requires startBit < 8 * |bytes| < startBit + bitLength
    ensures Extract(bytes, startBit, bitLength, endian, signed)
            == Extract(bytes, startBit, 8 * |bytes| - startBit, endian, false) >= 0
  {
    hide BufferBits, FromBits, Reversed, Bit, Pow2, AreBits;
    var bits := BufferBits(bytes, endian);
    var field := Field(bits, startBit, bitLength);
    assert field == Field(bits, startBit, 8 * |bytes| - startBit);
    FieldIsBits(bytes, startBit, bitLength, endian);
    ReversedBits(field);
    FromBitsBound(field);
    FromBitsBound(Reversed(field));
    NoBitAbove(FromBits(if endian.Big? then field else Reversed(field)), |field|, bitLength - 1);
  }

  /** And one that starts past it, or has no bits, is zero. */
  lemma FieldOutside(bytes: seq<Octet>, startBit: nat, bitLength: nat, endian: Endianness, signed: bool)
    requires 8 * |bytes| <= startBit || bitLength == 0
    ensures Extract(bytes, startBit, bitLength, endian, signed) == 0
  {
    hide BufferBit;
    if bitLength > 0 {
      BitOfZero(bitLength - 1);
    }
  }
}
