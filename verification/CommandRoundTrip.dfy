/**
 A command of several signals: encoded, merged into one write a register, and carried out.
 Every signal of it then reads back.
 */
module CommandRoundTrip {
  import opened Common
  import opened Numbers
  import opened Bits
  import opened Sequences
  import opened Decode
  import opened RtuProtocol
  import opened Manifest
  import opened RegisterRoundTrip
  import opened WritePlanning

  // ---------- encoded writes own their values ----------

  lemma FullWriteWithin(w: Write)
    requires w.mask == 0xFFFF
    ensures WithinMask(w)
  {
    hide Bit, And;
    forall k: nat ensures Bit(And(w.value, w.mask), k) == Bit(w.value, k) {
      BitOfAnd(w.value, w.mask, k);
      FullMaskBit(k);
      WordHasSixteenBits(w.value, k);
    }
    SameBits(And(w.value, w.mask), w.value);
  }

  lemma MaskedTwice(v: U16, mask: U16)
    ensures And(Masked(v, mask), mask) == Masked(v, mask)
  {
    hide Bit, And;
    var m := Masked(v, mask);
    forall k: nat ensures Bit(And(m, mask), k) == Bit(m, k) {
      BitOfAnd(m, mask, k);
      BitOfAnd(v, mask, k);
    }
    SameBits(And(m, mask), m);
  }

  /** No encoded write has a bit outside its own mask. */
  lemma EncodedWithin(meta: Meta, frame: Frame, signal: Signal, raw: int)
    requires EncodeRaw(meta, frame, signal, raw).Ok?
    ensures AllWithin(EncodeRaw(meta, frame, signal, raw).value)
  {
    hide Low, Words, FieldMask, FieldShift, Truncated, And, ProtocolAddress, RegisterType.IsWritable;
    var writes := EncodeRaw(meta, frame, signal, raw).value;
    if Aligned(signal) {
      forall i | 0 <= i < |writes| ensures WithinMask(writes[i]) {
        FullWriteWithin(writes[i]);
      }
    } else {
      MaskedTwice(Truncated(ShiftLeft(Low(raw, signal.bitLength), FieldShift(signal))), FieldMask(signal));
    }
  }

  // ---------- encoded writes own the signal's bits ----------

  lemma AlignedClaims(meta: Meta, frame: Frame, signal: Signal, raw: int, count: nat, a: U16, k: nat)
    requires frame.bank.IsWritable() && Aligned(signal) && InBlock(ProtocolAddress(meta, frame), signal, count)
    requires Owns(ProtocolAddress(meta, frame), signal, a, k)
    ensures EncodeRaw(meta, frame, signal, raw).Ok? && Claims(EncodeRaw(meta, frame, signal, raw).value, a, k)
  {
    hide EncodeRaw, ProtocolAddress, Words, Low, Bit, RegisterType.IsWritable;
    EncodeAligned(meta, frame, signal, raw, count);
    var writes := EncodeRaw(meta, frame, signal, raw).value;
    var i := a - ProtocolAddress(meta, frame) - signal.startBit / 16;
    FullMaskBit(k);
    assert 0 <= i < |writes| && writes[i].address == a && Bit(writes[i].mask, k) == 1;
  }

  lemma FieldClaims(meta: Meta, frame: Frame, signal: Signal, raw: int, count: nat, a: U16, k: nat)
    requires frame.bank.IsWritable() && InOneRegister(signal) && InBlock(ProtocolAddress(meta, frame), signal, count)
    requires Owns(ProtocolAddress(meta, frame), signal, a, k)
    ensures EncodeRaw(meta, frame, signal, raw).Ok? && Claims(EncodeRaw(meta, frame, signal, raw).value, a, k)
  {
    hide EncodeRaw, ProtocolAddress, FieldMask, FieldShift, Masked, Truncated, Low, Bit, RegisterType.IsWritable;
    EncodeField(meta, frame, signal, raw, count);
    var base := ProtocolAddress(meta, frame);
    var p := 16 * (a - base) + (15 - k);
    FieldPosition(signal, p);
    FieldMaskBit(signal, k);
    var writes := EncodeRaw(meta, frame, signal, raw).value;
    assert writes[0].address == a && Bit(writes[0].mask, k) == 1;
  }

  lemma EncodedClaims(meta: Meta, frame: Frame, signal: Signal, raw: int, count: nat, a: U16, k: nat)
    requires frame.bank.IsWritable() && Supported(signal) && InBlock(ProtocolAddress(meta, frame), signal, count)
    requires Owns(ProtocolAddress(meta, frame), signal, a, k)
    ensures EncodeRaw(meta, frame, signal, raw).Ok? && Claims(EncodeRaw(meta, frame, signal, raw).value, a, k)
  {
    hide EncodeRaw, Claims, ProtocolAddress, Aligned, InOneRegister, Owns, InBlock;
    if Aligned(signal) {
      AlignedClaims(meta, frame, signal, raw, count, a, k);
    } else {
      FieldClaims(meta, frame, signal, raw, count, a, k);
    }
  }

  // ---------- decoding looks at the signal's bits alone ----------

  predicate SameField(signal: Signal, r: seq<U16>, s: seq<U16>) {
    && |r| == |s| && signal.startBit + signal.bitLength <= 16 * |r|
    && forall p :: signal.startBit <= p < signal.startBit + signal.bitLength ==> RegisterBit(r, p) == RegisterBit(s, p)
  }

  lemma FieldBitAt(bytes: seq<Octet>, startBit: nat, bitLength: nat, i: nat)
    requires i < bitLength && startBit + bitLength <= 8 * |bytes|
    ensures |Field(BufferBits(bytes, Big), startBit, bitLength)| == bitLength
    ensures Field(BufferBits(bytes, Big), startBit, bitLength)[i] == BufferBit(bytes, Big, startBit + i)
  {
    hide BufferBit;
  }

  lemma ExtractDepends(signal: Signal, r: seq<U16>, s: seq<U16>)
    requires SameField(signal, r, s)
    ensures Extract(RegistersToBytes(r), signal.startBit, signal.bitLength, Big, signal.signed)
         == Extract(RegistersToBytes(s), signal.startBit, signal.bitLength, Big, signal.signed)
  {
    hide RegistersToBytes, RegisterBit, BufferBit, FromBits, Signed;
    var x, y := RegistersToBytes(r), RegistersToBytes(s);
    var fx := Field(BufferBits(x, Big), signal.startBit, signal.bitLength);
    var fy := Field(BufferBits(y, Big), signal.startBit, signal.bitLength);
    forall i | 0 <= i < signal.bitLength ensures fx[i] == fy[i] {
      var p := signal.startBit + i;
      BufferBitOfRegisters(r, p);
      BufferBitOfRegisters(s, p);
      FieldBitAt(x, signal.startBit, signal.bitLength, i);
      FieldBitAt(y, signal.startBit, signal.bitLength, i);
    }
    assert fx == fy;
  }

  lemma TurnedIndex(first: nat, n: nat, p: nat)
    requires 16 * first <= p < 16 * (first + n)
    ensures var q := 16 * (2 * first + n - 1 - p / 16) + p % 16;
            && 16 * first <= q < 16 * (first + n)
            && q / 16 == 2 * first + n - 1 - p / 16 && q % 16 == p % 16
            && first <= p / 16 < first + n
  {
  }

  lemma TurnedBit(r: seq<U16>, first: nat, n: nat, p: nat)
    requires first + n <= |r| && 16 * first <= p < 16 * (first + n)
    ensures var q := 16 * (2 * first + n - 1 - p / 16) + p % 16;
            0 <= q < 16 * |r| && RegisterBit(Turned(r, first, n), p) == RegisterBit(r, q)
  {
    hide Bit;
    TurnedIndex(first, n, p);
  }

  lemma TurnedField(signal: Signal, r: seq<U16>, s: seq<U16>)
    requires Aligned(signal) && SameField(signal, r, s)
    ensures var first, n := signal.startBit / 16, signal.bitLength / 16;
            first + n <= |r| && SameField(signal, Turned(r, first, n), Turned(s, first, n))
  {
    hide RegisterBit, Turned;
    var first, n := signal.startBit / 16, signal.bitLength / 16;
    forall p | 16 * first <= p < 16 * (first + n)
      ensures RegisterBit(Turned(r, first, n), p) == RegisterBit(Turned(s, first, n), p)
    {
      TurnedIndex(first, n, p);
      TurnedBit(r, first, n, p);
      TurnedBit(s, first, n, p);
    }
  }

  lemma DecodeDepends(meta: Meta, signal: Signal, r: seq<U16>, s: seq<U16>)
    requires Supported(signal) && ByteOrder(meta, signal).Big? && SameField(signal, r, s)
    ensures DecodeRaw(meta, signal, r) == DecodeRaw(meta, signal, s)
  {
    hide SameField, Extract, RegistersToBytes, SwapWords, Turned;
    ExtractDepends(signal, r, s);
    if Aligned(signal) {
      TurnedField(signal, r, s);
      var first, n := signal.startBit / 16, signal.bitLength / 16;
      SwapTurns(r, first, n);
      SameLength(signal, r, s);
      SwapTurns(s, first, n);
      ExtractDepends(signal, Turned(r, first, n), Turned(s, first, n));
    }
  }

  lemma SameLength(signal: Signal, r: seq<U16>, s: seq<U16>)
    requires SameField(signal, r, s)
    ensures |r| == |s|
  {
  }

  // ---------- later writes leave them alone ----------

  /** No write of `later` owns a bit that a write of `own` does. */
  ghost predicate Apart(own: seq<Write>, later: seq<Write>) {
    forall i, j :: 0 <= i < |own| && 0 <= j < |later| ==> !Overlap(own[i], later[j])
  }

  lemma ApartBit(own: seq<Write>, w: Write, a: U16, k: nat)
    requires Apart(own, [w]) && Claims(own, a, k)
    ensures !(w.address == a && Bit(w.mask, k) == 1)
  {
    hide Bit, And;
    var i :| 0 <= i < |own| && own[i].address == a && Bit(own[i].mask, k) == 1;
    assert !Overlap(own[i], [w][0]);
    if w.address == a && Bit(w.mask, k) == 1 {
      NoSharedBit(own[i].mask, w.mask, k);
    }
  }

  lemma {:induction false} LaterWritesLeave(file: File, own: seq<Write>, later: seq<Write>, a: U16, k: nat)
    requires Apart(own, later) && Claims(own, a, k)
    ensures Bit(ApplyAll(file, later)[a], k) == Bit(file[a], k)
    decreases |later|
  {
    hide Bit, Claims, Patched, Overlap;
    if later != [] {
      var w := later[0];
      ApartBit(own, w, a, k);
      PatchedBit(file[w.address], w, k);
      LaterWritesLeave(Apply(file, w), own, later[1..], a, k);
    }
  }

  // ---------- the whole command ----------

  /** A signal of some frame and the raw value it should hold; `count` registers of the frame are read back. */
  datatype Part = Part(frame: Frame, signal: Signal, raw: int, count: nat)

  ghost predicate Ready(meta: Meta, p: Part) {
    && p.frame.bank.IsWritable() && Supported(p.signal) && ByteOrder(meta, p.signal).Big? && Fits(p.signal, p.raw)
    && InBlock(ProtocolAddress(meta, p.frame), p.signal, p.count)
  }

  function WritesOf(meta: Meta, p: Part): seq<Write> {
    match EncodeRaw(meta, p.frame, p.signal, p.raw) case Ok(writes) => writes case Err(_) => []
  }

  function CommandWrites(meta: Meta, parts: seq<Part>): seq<Write> {
    if parts == [] then [] else WritesOf(meta, parts[0]) + CommandWrites(meta, parts[1..])
  }

  /** What a part reads back as from a register file. */
  function ReadBack(meta: Meta, p: Part, file: File): int
    requires ProtocolAddress(meta, p.frame) + p.count <= 0x1_0000
  {
    var base := ProtocolAddress(meta, p.frame);
    DecodeRaw(meta, p.signal, file[base..base + p.count])
  }

  /** A file that agrees on a part's own bits reads back the same. */
  lemma ReadBackDepends(meta: Meta, p: Part, f: File, g: File)
    requires Ready(meta, p)
    requires forall a: U16, k: nat ::
               Owns(ProtocolAddress(meta, p.frame), p.signal, a, k) ==> Bit(f[a], k) == Bit(g[a], k)
    ensures ProtocolAddress(meta, p.frame) + p.count <= 0x1_0000 && ReadBack(meta, p, f) == ReadBack(meta, p, g)
  {
    hide Bit, DecodeRaw, ProtocolAddress, RegisterType.IsWritable, Fits, Supported;
    var base := ProtocolAddress(meta, p.frame);
    var r, s := f[base..base + p.count], g[base..base + p.count];
    forall q | p.signal.startBit <= q < p.signal.startBit + p.signal.bitLength
      ensures RegisterBit(r, q) == RegisterBit(s, q)
    {
      var a, k := base + q / 16, 15 - q % 16;
      assert 16 * (a - base) + (15 - k) == q;
      assert Owns(base, p.signal, a, k);
      assert r[q / 16] == f[a] && s[q / 16] == g[a];
    }
    DecodeDepends(meta, p.signal, r, s);
  }

  /** Once its own writes are made, a part reads back whatever else is written that does not touch it. */
  lemma PartReadsBack(meta: Meta, p: Part, file: File, later: seq<Write>)
    requires Ready(meta, p) && Apart(WritesOf(meta, p), later)
    ensures ProtocolAddress(meta, p.frame) + p.count <= 0x1_0000
    ensures ReadBack(meta, p, ApplyAll(ApplyAll(file, WritesOf(meta, p)), later)) == p.raw
  {
    hide Bit, DecodeRaw, EncodeRaw, ProtocolAddress, ApplyAll, Apart, Claims, Owns, Wrote;
    var own := WritesOf(meta, p);
    var base := ProtocolAddress(meta, p.frame);
    WriteThenRead(meta, p.frame, p.signal, p.raw, file, p.count);
    var f := ApplyAll(file, own);
    var g := ApplyAll(f, later);
    forall a: U16, k: nat | Owns(base, p.signal, a, k) ensures Bit(f[a], k) == Bit(g[a], k) {
      EncodedClaims(meta, p.frame, p.signal, p.raw, p.count, a, k);
      LaterWritesLeave(f, own, later, a, k);
    }
    ReadBackDepends(meta, p, f, g);
  }

  lemma {:induction false} ApplyConcat(file: File, a: seq<Write>, b: seq<Write>)
    ensures ApplyAll(file, a + b) == ApplyAll(ApplyAll(file, a), b)
    decreases |a|
  {
    hide Apply;
    if a == [] {
      assert a + b == b;
    } else {
      assert (a + b)[1..] == a[1..] + b;
      ApplyConcat(Apply(file, a[0]), a[1..], b);
    }
  }

  lemma {:induction false} CommandAllWithin(meta: Meta, parts: seq<Part>)
    ensures AllWithin(CommandWrites(meta, parts))
  {
    hide WithinMask, EncodeRaw;
    if parts != [] {
      var p := parts[0];
      if EncodeRaw(meta, p.frame, p.signal, p.raw).Ok? {
        EncodedWithin(meta, p.frame, p.signal, p.raw);
      }
      CommandAllWithin(meta, parts[1..]);
    }
  }

  /** Writes that merge do not collide, so what comes later leaves what came before alone. */
  lemma MergedApart(before: seq<Write>, own: seq<Write>, later: seq<Write>)
    requires MergeInto([], before + (own + later)).Ok?
    ensures Apart(own, later)
  {
    hide MergeInto, Overlap;
    var all := before + (own + later);
    MergeFailsIff(all);
    forall i, j | 0 <= i < |own| && 0 <= j < |later| ensures !Overlap(own[i], later[j]) {
      var m, n := |before| + i, |before| + |own| + j;
      assert all[m] == own[i] && all[n] == later[j];
      assert !CollidesAt(all, n);
    }
  }

  lemma {:induction false} PartsReadBack(meta: Meta, parts: seq<Part>, file: File, before: seq<Write>, i: nat)
    requires i < |parts| && (forall j :: 0 <= j < |parts| ==> Ready(meta, parts[j]))
    requires MergeInto([], before + CommandWrites(meta, parts)).Ok?
    ensures ProtocolAddress(meta, parts[i].frame) + parts[i].count <= 0x1_0000
    ensures ReadBack(meta, parts[i], ApplyAll(file, CommandWrites(meta, parts))) == parts[i].raw
    decreases |parts|
  {
    hide MergeInto, ApplyAll, WritesOf, Ready, ReadBack, Apart, ProtocolAddress;
    var own, later := WritesOf(meta, parts[0]), CommandWrites(meta, parts[1..]);
    ApplyConcat(file, own, later);
    if i == 0 {
      MergedApart(before, own, later);
      PartReadsBack(meta, parts[0], file, later);
    } else {
      AppendAssociative(before, own, later);
      PartsReadBack(meta, parts[1..], ApplyAll(file, own), before + own, i - 1);
    }
  }

  /**
   A command that merges, grouped into transactions and carried out in order, leaves every
   signal of it reading back the value it was given.
   */
  lemma CommandReadsBack(meta: Meta, parts: seq<Part>, file: File, runs: seq<seq<Write>>, i: nat)
    requires i < |parts| && (forall j :: 0 <= j < |parts| ==> Ready(meta, parts[j]))
    requires MergeInto([], CommandWrites(meta, parts)).Ok?
    requires IsGrouping(runs, MergeInto([], CommandWrites(meta, parts)).value)
    ensures ProtocolAddress(meta, parts[i].frame) + parts[i].count <= 0x1_0000
    ensures ReadBack(meta, parts[i], ApplyAll(file, Flatten(runs))) == parts[i].raw
  {
    CommandAllWithin(meta, parts);
    MergeSameEffect(file, CommandWrites(meta, parts));
    AppendNothing(CommandWrites(meta, parts));
    hide MergeInto, ApplyAll, CommandWrites, Ready, ReadBack, ProtocolAddress, Consecutive, Maximal;
    PartsReadBack(meta, parts, file, [], i);
  }
}
