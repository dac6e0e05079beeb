/** What an encoded write puts into which registers, as numbers. */
module OnTheWire {
  import opened Common
  import opened Numbers
  import opened Bits
  import opened Decode
  import opened Manifest
  import opened RegisterRoundTrip

  // ---------- addresses ----------

  function AtLeastZero(n: int): nat { if n < 0 then 0 else n }

  /** With base 1 a register number loses its bank's prefix, stopping at 0; with any other base it is the address. */
  lemma AddressOf(meta: Meta, frame: Frame)
    ensures meta.registerBase != 1 ==> ProtocolAddress(meta, frame) == frame.registerNumber
    ensures meta.registerBase == 1 && frame.bank.Coil? ==>
              ProtocolAddress(meta, frame) == AtLeastZero(-1 + frame.registerNumber)
    ensures meta.registerBase == 1 && frame.bank.Discrete? ==>
              ProtocolAddress(meta, frame) == AtLeastZero(-10001 + frame.registerNumber)
    ensures meta.registerBase == 1 && frame.bank.Input? ==>
              ProtocolAddress(meta, frame) == AtLeastZero(-30001 + frame.registerNumber)
    ensures meta.registerBase == 1 && frame.bank.Holding? ==>
              ProtocolAddress(meta, frame) == AtLeastZero(-40001 + frame.registerNumber)
  {
  }

  // ---------- which order counts ----------

  /** The signal's own order, else the device's, else big. */
  predicate IsBig(own: Option<Endianness>, default_: Option<Endianness>) {
    own == Some(Big) || (own == None && default_ != Some(Little))
  }

  lemma OrdersAre(meta: Meta, signal: Signal)
    ensures ByteOrder(meta, signal) == if IsBig(signal.byteOrder, meta.defaultByteOrder) then Big else Little
    ensures WordOrder(meta, signal) == if IsBig(signal.wordOrder, meta.defaultWordOrder) then Big else Little
  {
  }

  // ---------- words as digits ----------

  /** What words are worth, the first the most significant. */
  function BigValue(words: seq<U16>): nat {
    if words == [] then 0 else 65536 * BigValue(words[..|words| - 1]) + words[|words| - 1]
  }

  /** What they are worth, the first the least significant. */
  function LittleValue(words: seq<U16>): nat {
    if words == [] then 0 else words[0] + 65536 * LittleValue(words[1..])
  }

  /** The low bits are what is left of a number modulo a power of two. */
  lemma {:induction false} LowIsRemainder(v: int, n: nat)
    ensures Low(v, n) == v % Pow2(n)
    decreases n
  {
    if n > 0 {
      LowIsRemainder(v / 2, n - 1);
      RemainderOfTwice(v, Pow2(n - 1));
    }
  }

  lemma RemainderOfTwice(v: int, m: nat)
    requires m > 0
    ensures 2 * (v / 2 % m) + v % 2 == v % (2 * m)
  {
    var half := v / 2;
    TwiceProduct(m, half / m);
    assert v == 2 * m * (half / m) + 2 * (half % m) + v % 2;
    RemainderIs(v, 2 * m, half / m, 2 * (half % m) + v % 2);
  }

  lemma TwiceProduct(a: int, b: int)
    ensures 2 * a * b == 2 * (a * b)
  {
  }

  lemma RemainderIs(v: int, d: nat, q: int, r: nat)
    requires v == d * q + r && r < d
    ensures v % d == r
  {
    var e := v / d;
    if q > e {
      Spread(d, q, e);
    } else if q < e {
      Spread(d, e, q);
    }
  }

  lemma Spread(d: nat, a: int, b: int)
    requires a > b
    ensures d * a >= d * b + d
  {
    AtLeastOnce(d, a - b);
  }

  lemma AtLeastOnce(d: nat, k: nat)
    requires k > 0
    ensures d * k >= d
  {
  }

  // ---------- shifts ----------

  lemma {:induction false} ShiftTwice(v: nat, a: nat, b: nat)
    ensures ShiftRight(ShiftRight(v, a), b) == ShiftRight(v, a + b)
    decreases a
  {
    if a > 0 {
      ShiftTwice(v / 2, a - 1, b);
    }
  }

  lemma {:induction false} ShiftedOut(v: nat, n: nat)
    requires v < Pow2(n)
    ensures ShiftRight(v, n) == 0
    decreases n
  {
    if n > 0 {
      ShiftedOut(v / 2, n - 1);
    }
  }

  lemma {:induction false} RestAndLow(v: nat, n: nat)
    ensures v == Pow2(n) * ShiftRight(v, n) + Low(v, n)
    decreases n
  {
    if n > 0 {
      RestAndLow(v / 2, n - 1);
      TwiceProduct(Pow2(n - 1), ShiftRight(v / 2, n - 1));
    }
  }

  /** A shifted number is its lowest word and the rest. */
  lemma LowestWord(bits: nat, s: nat)
    ensures ShiftRight(bits, s) == 65536 * ShiftRight(bits, s + 16) + Low(ShiftRight(bits, s), 16)
  {
    ShiftTwice(bits, s, 16);
    RestAndLow(ShiftRight(bits, s), 16);
    SixteenBits();
  }

  lemma NothingLeft(raw: int, len: nat)
    ensures ShiftRight(Low(raw, len), len) == 0
  {
    ShiftedOut(Low(raw, len), len);
  }

  // ---------- a value's words ----------

  /** The words in either order, by how far each lies from the value's low end. */
  lemma WordOfEither(bits: nat, n: nat, i: nat)
    requires i < n
    ensures Words(bits, 16 * n, Big)[i] == Low(ShiftRight(bits, 16 * (n - 1 - i)), 16)
    ensures Words(bits, 16 * n, Little)[i] == Low(ShiftRight(bits, 16 * i), 16)
  {
    hide Low, ShiftRight, WordOf, Words;
    WordsIndex(bits, 16 * n, i);
    WordFromLowEnd(bits, n, n - 1 - i);
    WordFromLowEnd(bits, n, i);
  }

  lemma WordsIndex(bits: nat, len: nat, i: nat)
    requires len % 16 == 0 && i < len / 16
    ensures Words(bits, len, Big)[i] == WordOf(bits, len, i)
    ensures Words(bits, len, Little)[i] == WordOf(bits, len, len / 16 - 1 - i)
  {
    hide WordOf;
  }

  lemma WordFromLowEnd(bits: nat, n: nat, i: nat)
    requires i < n
    ensures WordOf(bits, 16 * n, n - 1 - i) == Low(ShiftRight(bits, 16 * i), 16)
  {
    hide Low, ShiftRight;
    assert 16 * n - 16 * (n - 1 - i + 1) == 16 * i;
  }

  lemma BigStep(words: seq<U16>, j: nat)
    requires 0 < j <= |words|
    ensures BigValue(words[..j]) == 65536 * BigValue(words[..j - 1]) + words[j - 1]
  {
    assert words[..j][..j - 1] == words[..j - 1];
  }

  lemma LittleStep(words: seq<U16>, j: nat)
    requires j < |words|
    ensures LittleValue(words[j..]) == words[j] + 65536 * LittleValue(words[j + 1..])
  {
    assert words[j..][1..] == words[j + 1..];
  }

  /** The leading words of a value are worth its leading bits. */
  lemma {:induction false} LeadingWords(bits: nat, n: nat, j: nat)
    requires j <= n && ShiftRight(bits, 16 * n) == 0
    ensures BigValue(Words(bits, 16 * n, Big)[..j]) == ShiftRight(bits, 16 * (n - j))
    decreases j
  {
    hide Low, ShiftRight, Words, BigValue;
    var words := Words(bits, 16 * n, Big);
    if j == 0 {
      NoWords(words);
    } else {
      LeadingWords(bits, n, j - 1);
      BigStep(words, j);
      WordOfEither(bits, n, j - 1);
      LowestWord(bits, 16 * (n - j));
    }
  }

  lemma NoWords(words: seq<U16>)
    ensures BigValue(words[..0]) == 0 && LittleValue(words[|words|..]) == 0
  {
  }

  /** The words behind the first `j` of a value laid out lowest first are worth what is above `16 * j` bits. */
  lemma {:induction false} TrailingWords(bits: nat, n: nat, j: nat)
    requires j <= n && ShiftRight(bits, 16 * n) == 0
    ensures LittleValue(Words(bits, 16 * n, Little)[j..]) == ShiftRight(bits, 16 * j)
    decreases n - j
  {
    hide Low, ShiftRight, Words, LittleValue;
    var words := Words(bits, 16 * n, Little);
    if j == n {
      NoWords(words);
    } else {
      TrailingWords(bits, n, j + 1);
      LittleStep(words, j);
      WordOfEither(bits, n, j);
      LowestWord(bits, 16 * j);
    }
  }

  lemma WordsAreWorth(raw: int, n: nat)
    ensures BigValue(Words(Low(raw, 16 * n), 16 * n, Big)) == raw % Pow2(16 * n)
    ensures LittleValue(Words(Low(raw, 16 * n), 16 * n, Little)) == raw % Pow2(16 * n)
  {
    hide Words, BigValue, LittleValue, Low, Pow2;
    var bits := Low(raw, 16 * n);
    NothingLeft(raw, 16 * n);
    LeadingWords(bits, n, n);
    TrailingWords(bits, n, 0);
    LowIsRemainder(raw, 16 * n);
    assert Words(bits, 16 * n, Big)[..n] == Words(bits, 16 * n, Big);
    assert Words(bits, 16 * n, Little)[0..] == Words(bits, 16 * n, Little);
  }

  // ---------- aligned signals ----------

  function Values(writes: seq<Write>): (values: seq<U16>)
    ensures |values| == |writes|
  {
    seq(|writes|, i requires 0 <= i < |writes| => writes[i].value)
  }

  function Addresses(writes: seq<Write>): (addresses: seq<nat>)
    ensures |addresses| == |writes|
  {
    seq(|writes|, i requires 0 <= i < |writes| => writes[i].address as nat)
  }

  /** `n` numbers counting up from `first`. */
  function Ascending(first: nat, n: nat): seq<nat> { seq(n, i requires 0 <= i < n => first + i) }

  /**
   What a signal of whole registers puts on the wire: whole registers at ascending addresses, whose
   values read in base 65536 give the raw value's low bits. The first register is the most significant
   one when the signal says so, or says nothing and the default does not say otherwise; else it is the
   least significant one.
   */
  lemma AlignedOnTheWire(meta: Meta, frame: Frame, signal: Signal, raw: int)
    requires frame.bank.Coil? || frame.bank.Holding?
    requires signal.startBit % 16 == 0 && signal.bitLength in {16, 32, 48, 64}
    ensures var sent := EncodeRaw(meta, frame, signal, raw);
            && sent.Ok? && |sent.value| == signal.bitLength / 16
            && (forall w <- sent.value :: w.mask == 65535)
            && (if IsBig(signal.wordOrder, meta.defaultWordOrder)
                then BigValue(Values(sent.value)) == raw % Pow2(signal.bitLength)
                else LittleValue(Values(sent.value)) == raw % Pow2(signal.bitLength))
            && (ProtocolAddress(meta, frame) + signal.startBit / 16 + signal.bitLength / 16 <= 65536 ==>
                  Addresses(sent.value) ==
                  Ascending(ProtocolAddress(meta, frame) + signal.startBit / 16, signal.bitLength / 16))
  {
    hide ProtocolAddress, Words, BigValue, LittleValue, Low, Pow2, WordOrder, IsBig, Addresses, Values;
    var n, base, first := signal.bitLength / 16, ProtocolAddress(meta, frame), RegisterIndex(signal);
    assert Aligned(signal) && signal.bitLength == 16 * n;
    var words := Words(Low(raw, 16 * n), 16 * n, WordOrder(meta, signal));
    assert EncodeRaw(meta, frame, signal, raw) == Ok(AlignedWrites(words, base, first));
    WrittenValues(words, base, first);
    OrdersAre(meta, signal);
    WordsAreWorth(raw, n);
    if base + signal.startBit / 16 + n <= 65536 {
      WrittenAddresses(words, base, first);
    }
  }

  lemma WrittenValues(words: seq<U16>, base: U16, first: U16)
    ensures var writes := AlignedWrites(words, base, first);
            Values(writes) == words && forall w <- writes :: w.mask == 65535
  {
  }

  lemma WrittenAddresses(words: seq<U16>, base: U16, first: U16)
    requires base + first + |words| <= 65536
    ensures Addresses(AlignedWrites(words, base, first)) == Ascending(base + first, |words|)
  {
    forall i | 0 <= i < |words|
      ensures Addresses(AlignedWrites(words, base, first))[i] == Ascending(base + first, |words|)[i]
    {
      assert first + i < 65536;
      assert AlignedWrites(words, base, first)[i].address == SaturatingAdd(base, first + i);
    }
  }

  /** Past the last register addresses stop at it, and register numbers wrap before they are added. */
  lemma AddressesStop(meta: Meta, frame: Frame, signal: Signal, raw: int, i: nat)
    requires EncodeRaw(meta, frame, signal, raw).Ok? && i < |EncodeRaw(meta, frame, signal, raw).value|
    ensures var sum := ProtocolAddress(meta, frame) + (signal.startBit / 16 + i) % 65536;
            EncodeRaw(meta, frame, signal, raw).value[i].address == if sum <= 65535 then sum else 65535
  {
    hide ProtocolAddress, Words, FieldMask, Masked, Truncated, ShiftLeft, Low, WordOrder, AlignedWrites, RegisterIndex;
    var base, first := ProtocolAddress(meta, frame), RegisterIndex(signal);
    WrapOnce(signal.startBit / 16, i);
    IndexIs(signal);
    if Aligned(signal) {
      AlignedStop(Words(Low(raw, signal.bitLength), signal.bitLength, WordOrder(meta, signal)), base, first, i);
    }
  }

  lemma IndexIs(signal: Signal)
    ensures RegisterIndex(signal) == signal.startBit / 16 % 65536
  {
  }

  lemma AlignedStop(words: seq<U16>, base: U16, first: U16, i: nat)
    requires i < |words|
    ensures var sum := base + (first + i) % 65536;
            AlignedWrites(words, base, first)[i].address == if sum <= 65535 then sum else 65535
  {
    var index: U16 := (first + i) % 65536;
    assert AlignedWrites(words, base, first)[i].address == SaturatingAdd(base, index);
  }

  lemma WrapOnce(a: nat, i: nat)
    ensures (a % 65536 + i) % 65536 == (a + i) % 65536
  {
  }

  // ---------- fields of one register ----------

  lemma {:induction false} ShiftLeftIs(v: nat, s: nat)
    ensures ShiftLeft(v, s) == v * Pow2(s)
  {
    if s > 0 {
      ShiftLeftIs(v, s - 1);
      TwiceProduct(Pow2(s - 1), v);
    }
  }

  lemma FieldMaskIs(signal: Signal)
    requires InOneRegister(signal)
    ensures FieldMask(signal) == (Pow2(signal.bitLength) - 1) * Pow2(FieldShift(signal))
  {
    hide Bit, ShiftLeft, FieldMask, FieldShift;
    var ones, s := Pow2(signal.bitLength) - 1, FieldShift(signal);
    forall k: nat ensures Bit(FieldMask(signal), k) == Bit(ShiftLeft(ones, s), k) {
      FieldMaskBit(signal, k);
      BitOfShiftLeft(ones, s, k);
      if k >= s {
        BitOfOnes(signal.bitLength, k - s);
      }
    }
    SameBits(FieldMask(signal), ShiftLeft(ones, s));
    ShiftLeftIs(ones, s);
  }

  lemma FieldValueIs(signal: Signal, raw: int)
    requires InOneRegister(signal)
    ensures FieldWrite(0, signal, Low(raw, signal.bitLength)).value
            == Low(raw, signal.bitLength) * Pow2(FieldShift(signal))
  {
    hide Bit, ShiftLeft, FieldMask, FieldShift, Truncated, Masked, Pow2, Low;
    var bits, s := Low(raw, signal.bitLength), FieldShift(signal);
    var value := FieldWrite(0, signal, bits).value;
    forall k: nat ensures Bit(value, k) == Bit(ShiftLeft(bits, s), k) {
      FieldBit(signal, raw, k);
    }
    SameBits(value, ShiftLeft(bits, s));
    ShiftLeftIs(bits, s);
  }

  lemma FieldBit(signal: Signal, raw: int, k: nat)
    requires InOneRegister(signal)
    ensures var bits := Low(raw, signal.bitLength);
            Bit(FieldWrite(0, signal, bits).value, k) == Bit(ShiftLeft(bits, FieldShift(signal)), k)
  {
    hide Bit, ShiftLeft, FieldMask, FieldShift, Pow2, Low, And;
    var bits, s := Low(raw, signal.bitLength), FieldShift(signal);
    BitOfShiftLeft(bits, s, k);
    if k >= s {
      BitOfLow(raw, signal.bitLength, k - s);
    }
    FieldMaskBit(signal, k);
    FieldValueBit(signal, bits, k);
    BitOfAnd(Truncated(ShiftLeft(bits, s)), FieldMask(signal), k);
  }

  /**
   What a field inside one register puts on the wire: one masked write. The mask is the field's bits,
   counted from the register's top bit, and the value is the raw value's low bits moved there.
   */
  lemma FieldOnTheWire(meta: Meta, frame: Frame, signal: Signal, raw: int)
    requires frame.bank.Coil? || frame.bank.Holding?
    requires 1 <= signal.bitLength < 16 && signal.startBit % 16 + signal.bitLength <= 16
    ensures var unit := Pow2(16 - signal.startBit % 16 - signal.bitLength);
            var at := ProtocolAddress(meta, frame) + signal.startBit / 16;
            at < 65536 ==>
              var sent := EncodeRaw(meta, frame, signal, raw);
              && sent.Ok? && |sent.value| == 1
              && sent.value[0].address == at
              && sent.value[0].value == raw % Pow2(signal.bitLength) * unit
              && sent.value[0].mask == (Pow2(signal.bitLength) - 1) * unit
  {
    hide ProtocolAddress, Pow2, Low, FieldMask, Masked, Truncated, ShiftLeft;
    assert InOneRegister(signal);
    FieldMaskIs(signal);
    FieldValueIs(signal, raw);
    LowIsRemainder(raw, signal.bitLength);
  }
}
