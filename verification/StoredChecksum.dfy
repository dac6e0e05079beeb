/** Checksums as frames carry them: which bytes are the stored value, read as a number, and over which it is taken. */
module StoredChecksum {
  import opened Common
  import opened Crc
  import opened Algorithms
  import opened Frame
  import opened Sweep
  import opened Solve
  import opened SolveExactness
  import opened SolveTheorems
  import opened ConstantSuffix
  import opened WordValues

  // ---------- the value two bytes store ----------

  /** Two bytes in the order a field has them. */
  function Field(high: Byte, low: Byte, bigEndian: bool): (f: seq<Byte>)
    ensures |f| == 2
  {
    if bigEndian then [high, low] else [low, high]
  }

  lemma StoredPair(data: seq<Byte>, position: int, bigEndian: bool, i: nat, high: Byte, low: Byte)
    requires ResolveByteIndex(position, |data|) == i && i + 2 <= |data|
    requires data[i..i + 2] == Field(high, low, bigEndian)
    ensures ExtractChecksum(data, position, 2, bigEndian) == BothBytes(high, low)
  {
    hide ResolveByteIndex, BothBytes;
    assert data[i] == data[i..i + 2][0] && data[i + 1] == data[i..i + 2][1];
  }

  /** A field of two bytes holds the number that its bytes are in the order it has them. */
  lemma StoredNumber(data: seq<Byte>, position: int, bigEndian: bool, i: nat, high: Byte, low: Byte)
    requires ResolveByteIndex(position, |data|) == i && i + 2 <= |data|
    requires data[i..i + 2] == Field(high, low, bigEndian)
    ensures WordValue(ExtractChecksum(data, position, 2, bigEndian)) == PairValue(high, low)
  {
    StoredPair(data, position, bigEndian, i, high, low);
    hide *;
    JoinedValue(high, low);
  }

  /** A field of one byte holds that byte. */
  lemma StoredByte(data: seq<Byte>, position: int, bigEndian: bool, i: nat)
    requires ResolveByteIndex(position, |data|) == i < |data|
    ensures WordValue(ExtractChecksum(data, position, 1, bigEndian)) == ByteValue(data[i])
  {
    hide ResolveByteIndex, WordValue, ByteValue;
    WidenValue(data[i]);
  }

  lemma WidenValue(b: Byte)
    ensures WordValue(Widen(b)) == ByteValue(b)
  {
  }

  // ---------- frames ----------

  /** Bytes, the bytes covered, a field, and bytes behind it. */
  function Laid(prefix: seq<Byte>, data: seq<Byte>, field: seq<Byte>, tail: seq<Byte>): seq<Byte> {
    prefix + data + field + tail
  }

  lemma FrameParts(prefix: seq<Byte>, data: seq<Byte>, field: seq<Byte>, tail: seq<Byte>)
    ensures var frame := Laid(prefix, data, field, tail);
            && |frame| == |prefix| + |data| + |field| + |tail|
            && frame[|prefix|..|prefix| + |data|] == data
            && frame[|prefix| + |data|..|prefix| + |data| + |field|] == field
  {
  }

  /** An index counted from the end of a frame. */
  lemma FromTheEnd(back: int, length: nat)
    requires 0 < back <= length
    ensures ResolveByteIndex(-back, length) == length - back
  {
  }

  lemma RangeToTheEnd(length: nat, start: nat, back: int, width: nat)
    requires start < length - back && 0 < width <= back <= length
    ensures CalculatedRange(length, -back, width, start, -back) == Some((start, length - back))
  {
    FromTheEnd(back, length);
  }

  /** A frame that a specification fits, its field and what it covers. */
  lemma FittedVerdict(frame: seq<Byte>, spec: ChecksumSpec, start: nat, end: nat, stored: nat)
    requires CalculatedRange(|frame|, spec.position, spec.byteLength, spec.calcStart, spec.calcEnd)
          == Some((start, end))
    requires WordValue(ExtractChecksum(frame, spec.position, spec.byteLength, spec.bigEndian)) == stored
    ensures start <= end <= |frame|
    ensures Verdict(frame, spec) == Some(stored == WordValue(CalculateSimple(spec.algorithm, frame[start..end])))
  {
    hide CalculatedRange, ExtractChecksum, CalculateSimple, WordValue;
    EqualByValue(ExtractChecksum(frame, spec.position, spec.byteLength, spec.bigEndian),
                 CalculateSimple(spec.algorithm, frame[start..end]));
  }

  /**
   However long the frame, whatever comes before the bytes covered and behind the field: a specification that counts
   field and range from the end, and the start from the front, agrees exactly when the field holds the checksum.
   */
  lemma VerdictIff(algorithm: ChecksumAlgorithm, prefix: seq<Byte>, data: seq<Byte>, high: Byte, low: Byte,
                   tail: seq<Byte>, bigEndian: bool)
    requires data != []
    ensures var end := -(2 + |tail|);
            Verdict(Laid(prefix, data, Field(high, low, bigEndian), tail),
                    ChecksumSpec(algorithm, end, 2, bigEndian, |prefix|, end))
            == Some(PairValue(high, low) == WordValue(CalculateSimple(algorithm, data)))
  {
    hide *;
    var field := Field(high, low, bigEndian);
    var frame := Laid(prefix, data, field, tail);
    var back, i := 2 + |tail|, |prefix| + |data|;
    FrameParts(prefix, data, field, tail);
    FromTheEnd(back, |frame|);
    RangeToTheEnd(|frame|, |prefix|, back, 2);
    StoredNumber(frame, -back, bigEndian, i, high, low);
    FittedVerdict(frame, ChecksumSpec(algorithm, -back, 2, bigEndian, |prefix|, -back), |prefix|, i,
                  PairValue(high, low));
  }

  lemma EqualByValue(a: Word, b: Word)
    ensures a == b <==> WordValue(a) == WordValue(b)
  {
    hide WordValue;
    if WordValue(a) == WordValue(b) {
      SameWord(a, b);
    }
  }

  /** So for a checksum of one byte, whichever order is asked for. */
  lemma ByteVerdictIff(algorithm: ChecksumAlgorithm, prefix: seq<Byte>, data: seq<Byte>, b: Byte, tail: seq<Byte>,
                       bigEndian: bool)
    requires data != []
    ensures var end := -(1 + |tail|);
            Verdict(Laid(prefix, data, [b], tail),
                    ChecksumSpec(algorithm, end, 1, bigEndian, |prefix|, end))
            == Some(ByteValue(b) == WordValue(CalculateSimple(algorithm, data)))
  {
    hide *;
    var frame := Laid(prefix, data, [b], tail);
    var back, i := 1 + |tail|, |prefix| + |data|;
    FrameParts(prefix, data, [b], tail);
    FromTheEnd(back, |frame|);
    RangeToTheEnd(|frame|, |prefix|, back, 1);
    assert frame[i] == frame[i..i + 1][0];
    StoredByte(frame, -back, bigEndian, i);
    FittedVerdict(frame, ChecksumSpec(algorithm, -back, 1, bigEndian, |prefix|, -back), |prefix|, i, ByteValue(b));
  }

  /** And with the field in front of what it covers, both counted from the front. */
  lemma FrontVerdictIff(algorithm: ChecksumAlgorithm, prefix: seq<Byte>, high: Byte, low: Byte, data: seq<Byte>,
                        tail: seq<Byte>, bigEndian: bool)
    requires data != []
    ensures var start := |prefix| + 2;
            Verdict(Laid(prefix, Field(high, low, bigEndian), data, tail),
                    ChecksumSpec(algorithm, |prefix|, 2, bigEndian, start, start + |data|))
            == Some(PairValue(high, low) == WordValue(CalculateSimple(algorithm, data)))
  {
    hide *;
    var field := Field(high, low, bigEndian);
    var frame := Laid(prefix, field, data, tail);
    FrameParts(prefix, field, data, tail);
    var start := |prefix| + 2;
    RangeInFront(|frame|, |prefix|, |data|);
    StoredNumber(frame, |prefix|, bigEndian, |prefix|, high, low);
    FittedVerdict(frame, ChecksumSpec(algorithm, |prefix|, 2, bigEndian, start, start + |data|), start, start + |data|,
                  PairValue(high, low));
    FrameParts2(prefix, field, data, tail);
  }

  lemma RangeInFront(length: nat, position: nat, covered: nat)
    requires covered > 0 && position + 2 + covered <= length
    ensures CalculatedRange(length, position, 2, position + 2, position + 2 + covered)
         == Some((position + 2, position + 2 + covered))
    ensures ResolveByteIndex(position, length) == position
  {
  }

  lemma FrameParts2(prefix: seq<Byte>, field: seq<Byte>, data: seq<Byte>, tail: seq<Byte>)
    ensures var start := |prefix| + |field|; Laid(prefix, field, data, tail)[start..start + |data|] == data
  {
  }

  /** A frame shorter than the field is no evidence, nor one with nothing to cover. */
  lemma TooShort(algorithm: ChecksumAlgorithm, frame: seq<Byte>, bigEndian: bool)
    requires |frame| <= 2
    ensures Verdict(frame, ChecksumSpec(algorithm, -2, 2, bigEndian, 0, -2)) == None
  {
    hide CalculateSimple, ExtractChecksum;
  }

  // ---------- solving from frames ----------

  /** A frame's data and the two bytes behind it. */
  datatype Carrier = Carrier(data: seq<Byte>, high: Byte, low: Byte) {
    function Bytes(bigEndian: bool): seq<Byte> { Laid([], data, Field(high, low, bigEndian), []) }
  }

  function AllBytes(carriers: seq<Carrier>, bigEndian: bool): (frames: seq<seq<Byte>>)
    ensures |frames| == |carriers|
  {
    if carriers == [] then [] else [carriers[0].Bytes(bigEndian)] + AllBytes(carriers[1..], bigEndian)
  }

  /** The last two bytes are the checksum of those before them. */
  function AtTheEnd(bigEndian: bool): SolveTarget { SolveTarget(-2, 2, bigEndian, 0, -2) }

  lemma CarrierObserved(c: Carrier, bigEndian: bool)
    requires c.data != []
    ensures Observe(c.Bytes(bigEndian), AtTheEnd(bigEndian)) == Some(Observation(c.data, BothBytes(c.high, c.low)))
  {
    var field := Field(c.high, c.low, bigEndian);
    var frame := Laid([], c.data, field, []);
    FrameParts([], c.data, field, []);
    FromTheEnd(2, |frame|);
    hide Laid, Field, BothBytes, ExtractChecksum;
    StoredPair(frame, -2, bigEndian, |c.data|, c.high, c.low);
  }

  function Observed(carriers: seq<Carrier>): (samples: seq<Observation>)
    ensures |samples| == |carriers|
  {
    seq(|carriers|, i requires 0 <= i < |carriers| =>
      Observation(carriers[i].data, BothBytes(carriers[i].high, carriers[i].low)))
  }

  ghost predicate AllOfOneLength(carriers: seq<Carrier>, n: nat) {
    n > 0 && forall i :: 0 <= i < |carriers| ==> |carriers[i].data| == n
  }

  lemma {:induction false} CarriersObserved(carriers: seq<Carrier>, bigEndian: bool, n: nat)
    requires AllOfOneLength(carriers, n)
    ensures Observations(AllBytes(carriers, bigEndian), AtTheEnd(bigEndian)) == Observed(carriers)
    ensures EqualLength(Observed(carriers), n)
  {
    hide Observe, Carrier.Bytes, BothBytes;
    if carriers != [] {
      var frames := AllBytes(carriers, bigEndian);
      CarriersObserved(carriers[1..], bigEndian, n);
      CarrierObserved(carriers[0], bigEndian);
      assert frames[1..] == AllBytes(carriers[1..], bigEndian);
      assert Observed(carriers) == [Observed(carriers)[0]] + Observed(carriers[1..]);
    }
  }

  lemma CarriersGrouped(carriers: seq<Carrier>, bigEndian: bool, n: nat)
    requires AllOfOneLength(carriers, n) && carriers != []
    ensures Group(AllBytes(carriers, bigEndian), AtTheEnd(bigEndian)) == Observed(carriers)
  {
    hide Observations, OfLength, BestLength, AllBytes;
    CarriersObserved(carriers, bigEndian, n);
    AllOfLength(Observed(carriers), n);
    BestIsOnly(Observed(carriers), |carriers|, n);
  }

  /** Every frame carries this CRC of its data. */
  ghost predicate AllCarry(carriers: seq<Carrier>, shape: CrcShape, init: Word, xorOut: Word) {
    forall i :: 0 <= i < |carriers| ==>
      PairValue(carriers[i].high, carriers[i].low)
      == WordValue(Crc16(carriers[i].data, shape.polynomial, init, xorOut, shape.reflectIn, shape.reflectOut))
  }

  lemma CarriedIsReproduced(carriers: seq<Carrier>, shape: CrcShape, init: Word, xorOut: Word)
    requires shape.width.Sixteen?
    ensures AllCarry(carriers, shape, init, xorOut) <==> Reproduces(shape, init, xorOut, Observed(carriers))
  {
    hide Crc16, BothBytes, WordValue, PairValue;
    var samples := Observed(carriers);
    forall i | 0 <= i < |carriers|
      ensures PairValue(carriers[i].high, carriers[i].low)
              == WordValue(Crc16(carriers[i].data, shape.polynomial, init, xorOut, shape.reflectIn, shape.reflectOut))
              <==> CrcValue(shape, init, xorOut, samples[i].data) == samples[i].observed
    {
      JoinedValue(carriers[i].high, carriers[i].low);
      EqualByValue(CrcValue(shape, init, xorOut, samples[i].data), samples[i].observed);
    }
  }

  /**
   Three or more frames of one length whose last two bytes, in either order, are a CRC-16 of the others: the solver
   reports its polynomial and reflections, unless as many as were asked for rank no lower.
   */
  lemma CarriedIsSolved(carriers: seq<Carrier>, bigEndian: bool, n: nat, options: CrcSolveOptions, shape: CrcShape,
                        init: Word, xorOut: Word)
    requires |carriers| >= 3 && AllOfOneLength(carriers, n) && AllCarry(carriers, shape, init, xorOut)
    requires shape.width.Sixteen? && shape in Shapes(Sixteen, options)
    ensures var solved := SolveCrc(AllBytes(carriers, bigEndian), AtTheEnd(bigEndian), options);
            || (exists i ::
                  0 <= i < |solved| && solved[i].specification.CrcSpec? && solved[i].specification.crc.shape == shape)
            || (|solved| == options.maxSolutions && forall i :: 0 <= i < |solved| ==>
                  solved[i].specification.CrcSpec? && Rank(solved[i].specification.crc) <= RankOfShape(shape))
  {
    hide Observed, Group, AllBytes, Shapes, Reproduces, AllCarry, SolveCrc, Rank, RankOfShape;
    CarriersGrouped(carriers, bigEndian, n);
    CarriedIsReproduced(carriers, shape, init, xorOut);
    SolveCrcComplete(AllBytes(carriers, bigEndian), AtTheEnd(bigEndian), options, Sixteen, shape, init, xorOut);
  }

  /** And what it reports is carried by every frame, with each starting value it lists. */
  lemma SolvedIsCarried(carriers: seq<Carrier>, bigEndian: bool, n: nat, options: CrcSolveOptions,
                        solved: SolvedChecksum)
    requires carriers != [] && AllOfOneLength(carriers, n)
    requires solved in SolveCrc(AllBytes(carriers, bigEndian), AtTheEnd(bigEndian), options)
    ensures solved.specification.CrcSpec?
    ensures var c := solved.specification.crc;
            && c.shape.width.Sixteen?
            && AllCarry(carriers, c.shape, c.init, c.xorOut)
            && forall i :: 0 <= i < |c.alternatives| ==>
                 AllCarry(carriers, c.shape, c.alternatives[i].init, c.alternatives[i].xorOut)
  {
    hide Observed, Group, AllBytes, Shapes, Reproduces, AllCarry, SolveCrc, KnownPolynomials;
    var frames, target := AllBytes(carriers, bigEndian), AtTheEnd(bigEndian);
    CarriersGrouped(carriers, bigEndian, n);
    SolveCrcSound(frames, target, options, solved);
    ReportedAsKnown(frames, target, options, Sixteen, solved);
    var c := solved.specification.crc;
    CarriedIsReproduced(carriers, c.shape, c.init, c.xorOut);
    forall i | 0 <= i < |c.alternatives|
      ensures AllCarry(carriers, c.shape, c.alternatives[i].init, c.alternatives[i].xorOut)
    {
      CarriedIsReproduced(carriers, c.shape, c.alternatives[i].init, c.alternatives[i].xorOut);
    }
  }
}
