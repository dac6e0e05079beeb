/**
 Which constant bytes a solved checksum absorbs. A constant prefix always cancels out of
 a CRC's shared residue; a constant suffix does so only when the differences between the
 stored values survive it. A sum or an exclusive or absorbs constants at either end.
 */
module RangeFolding {
  import opened Common
  import opened LinearFold
  import opened Crc
  import opened CrcAlgebra
  import opened ModbusCrc
  import opened Algorithms
  import opened Solve
  import opened SolveExactness

  /** The same stored values over ranges widened by constant bytes at both ends. */
  function Surrounded(prefix: seq<Byte>, samples: seq<Observation>, suffix: seq<Byte>): (r: seq<Observation>)
    ensures |r| == |samples|
  {
    seq(|samples|, i requires 0 <= i < |samples| =>
      Observation(prefix + samples[i].data + suffix, samples[i].observed))
  }

  // ---------- concatenation ----------

  /** The register a finished value came from. */
  function Unfinished(shape: CrcShape, w: Word): Word {
    if shape.width.Sixteen? then Finish16(w, shape.reflectIn, shape.reflectOut) else w
  }

  lemma FinishInvolution(w: Word, reflectIn: bool, reflectOut: bool)
    ensures Finish16(Finish16(w, reflectIn, reflectOut), reflectIn, reflectOut) == w
  {
    hide Reflect16;
    Reflect16Involution(w);
  }

  lemma Crc16Concat(a: seq<Byte>, b: seq<Byte>, polynomial: Word, reflectIn: bool, reflectOut: bool)
    ensures Crc16(a + b, polynomial, 0, 0, reflectIn, reflectOut)
         == Crc16(b, polynomial, Finish16(Crc16(a, polynomial, 0, 0, reflectIn, reflectOut), reflectIn, reflectOut),
                  0, reflectIn, reflectOut)
  {
    hide Register, Stepper16, Joiner16, Oriented16, Xor16, Finish16;
    var p := Oriented16(polynomial, reflectIn);
    var r := Register(Stepper16(p, reflectIn), Joiner16(reflectIn), 0, a);
    RegisterConcat(Stepper16(p, reflectIn), Joiner16(reflectIn), 0, a, b);
    Xor16Zero(Finish16(r, reflectIn, reflectOut));
    FinishInvolution(r, reflectIn, reflectOut);
  }

  /** What a message leaves behind is the starting value of what follows it. */
  lemma CrcValueConcat(shape: CrcShape, a: seq<Byte>, b: seq<Byte>)
    ensures CrcValue(shape, 0, 0, a + b) == CrcValue(shape, Unfinished(shape, CrcValue(shape, 0, 0, a)), 0, b)
  {
    hide LowByte, Widen, Crc8, Crc16, Xor16, Finish16;
    match shape.width
    case Sixteen =>
      Crc16Concat(a, b, shape.polynomial, shape.reflectIn, shape.reflectOut);
    case Eight =>
      var p := LowByte(shape.polynomial);
      MaskedZero(Eight);
      LowByteOfByte(Crc8(a, p, 0, 0, shape.reflectIn));
      Crc8Prefix(a, b, p, shape.reflectIn);
  }

  // ---------- prefixes ----------

  lemma MaskedZeroXor(shape: CrcShape, w: Word)
    ensures Xor16(w, Masked(shape.width, 0)) == w
  {
    hide Xor16, Masked;
    MaskedZero(shape.width);
    Xor16Zero(w);
  }

  lemma ResidueAfterPrefix(shape: CrcShape, prefix: seq<Byte>, s: Observation)
    ensures Residue(shape, Observation(prefix + s.data, s.observed))
         == Xor16(Residue(shape, s),
                  CrcValue(shape, Unfinished(shape, CrcValue(shape, 0, 0, prefix)), 0, Zeros(|s.data|)))
  {
    hide Xor16, CrcValue, Masked, Unfinished;
    var init := Unfinished(shape, CrcValue(shape, 0, 0, prefix));
    var c, z := CrcValue(shape, 0, 0, s.data), CrcValue(shape, init, 0, Zeros(|s.data|));
    CrcValueConcat(shape, prefix, s.data);
    CrcValueAffine(shape, init, 0, s.data);
    MaskedZeroXor(shape, Xor16(c, z));
    Xor16Assoc(s.observed, c, z);
  }

  lemma XorInjective(a: Word, b: Word, z: Word)
    ensures Xor16(a, z) == Xor16(b, z) <==> a == b
  {
    hide Xor16;
    Xor16Cancel(a, z, Xor16(b, z));
    Xor16Assoc(b, z, z);
    Xor16Self(z);
    Xor16Zero(b);
  }

  /** Constant bytes before the range never change whether a polynomial has a shared residue. */
  lemma PrefixKeepsSharedResidue(shape: CrcShape, prefix: seq<Byte>, samples: seq<Observation>, length: nat)
    requires EqualLength(samples, length)
    ensures SharedResidue(shape, Surrounded(prefix, samples, [])).Some? <==> SharedResidue(shape, samples).Some?
  {
    hide Xor16, CrcValue, Unfinished, Residue;
    var wide := Surrounded(prefix, samples, []);
    var z := CrcValue(shape, Unfinished(shape, CrcValue(shape, 0, 0, prefix)), 0, Zeros(length));
    forall i | 0 <= i < |samples|
      ensures Residue(shape, wide[i]) == Residue(shape, wide[0]) <==>
              Residue(shape, samples[i]) == Residue(shape, samples[0])
    {
      assert prefix + samples[i].data + [] == prefix + samples[i].data;
      assert prefix + samples[0].data + [] == prefix + samples[0].data;
      ResidueAfterPrefix(shape, prefix, samples[i]);
      ResidueAfterPrefix(shape, prefix, samples[0]);
      XorInjective(Residue(shape, samples[i]), Residue(shape, samples[0]), z);
    }
  }

  // ---------- suffixes ----------

  /** Where a difference between two registers is after `n` constant bytes. */
  function Carried(shape: CrcShape, d: Word, n: nat): Word {
    CrcValue(shape, Unfinished(shape, d), 0, Zeros(n))
  }

  lemma LowByteXor(a: Word, b: Word)
    ensures LowByte(Xor16(a, b)) == Xor8(LowByte(a), LowByte(b))
  {
  }

  lemma ZerosXor(n: nat)
    ensures XorBytes(Zeros(n), Zeros(n)) == Zeros(n)
  {
  }

  lemma Crc16InitXor(polynomial: Word, a: Word, b: Word, n: nat, reflectIn: bool, reflectOut: bool)
    ensures Crc16(Zeros(n), polynomial, Xor16(a, b), 0, reflectIn, reflectOut)
         == Xor16(Crc16(Zeros(n), polynomial, a, 0, reflectIn, reflectOut),
                  Crc16(Zeros(n), polynomial, b, 0, reflectIn, reflectOut))
  {
    hide Register, Stepper16, Joiner16, Oriented16, Finish16, Xor16, AdditiveMap, AdditiveJoin;
    var p := Oriented16(polynomial, reflectIn);
    Stepper16Additive(p, reflectIn);
    Joiner16Additive(reflectIn);
    ZerosXor(n);
    RegisterAdditive(Stepper16(p, reflectIn), Joiner16(reflectIn), Xor16, a, b, Zeros(n), Zeros(n));
    var ra := Register(Stepper16(p, reflectIn), Joiner16(reflectIn), a, Zeros(n));
    var rb := Register(Stepper16(p, reflectIn), Joiner16(reflectIn), b, Zeros(n));
    Finish16Xor(ra, rb, reflectIn, reflectOut);
    Xor16Zero(Finish16(ra, reflectIn, reflectOut));
    Xor16Zero(Finish16(rb, reflectIn, reflectOut));
    Xor16Zero(Xor16(Finish16(ra, reflectIn, reflectOut), Finish16(rb, reflectIn, reflectOut)));
  }

  lemma Crc8InitXor(polynomial: Byte, a: Byte, b: Byte, n: nat, reflect: bool)
    ensures Crc8(Zeros(n), polynomial, Xor8(a, b), 0, reflect)
         == Xor8(Crc8(Zeros(n), polynomial, a, 0, reflect), Crc8(Zeros(n), polynomial, b, 0, reflect))
  {
    hide Register, Stepper8, Joiner8, Oriented8, Xor8, AdditiveMap, AdditiveJoin;
    var p := Oriented8(polynomial, reflect);
    Stepper8Additive(p, reflect);
    Joiner8Additive();
    ZerosXor(n);
    RegisterAdditive(Stepper8(p, reflect), Joiner8(), Xor8, a, b, Zeros(n), Zeros(n));
    var ra := Register(Stepper8(p, reflect), Joiner8(), a, Zeros(n));
    var rb := Register(Stepper8(p, reflect), Joiner8(), b, Zeros(n));
    Xor8Zero(ra);
    Xor8Zero(rb);
    Xor8Zero(Xor8(ra, rb));
  }

  lemma CrcValueInitXor(shape: CrcShape, a: Word, b: Word, n: nat)
    ensures CrcValue(shape, Xor16(a, b), 0, Zeros(n))
         == Xor16(CrcValue(shape, a, 0, Zeros(n)), CrcValue(shape, b, 0, Zeros(n)))
  {
    hide LowByte, Widen, Crc8, Crc16, Xor16, Xor8;
    match shape.width
    case Sixteen =>
      Crc16InitXor(shape.polynomial, a, b, n, shape.reflectIn, shape.reflectOut);
    case Eight =>
      var p, i, j := LowByte(shape.polynomial), LowByte(a), LowByte(b);
      MaskedZero(Eight);
      LowByteXor(a, b);
      Crc8InitXor(p, i, j, n, shape.reflectIn);
      Widened(Crc8(Zeros(n), p, i, 0, shape.reflectIn), Crc8(Zeros(n), p, j, 0, shape.reflectIn));
  }

  lemma CarriedXor(shape: CrcShape, a: Word, b: Word, n: nat)
    ensures Carried(shape, Xor16(a, b), n) == Xor16(Carried(shape, a, n), Carried(shape, b, n))
  {
    hide CrcValue, Xor16, Finish16;
    if shape.width.Sixteen? {
      Finish16Xor(a, b, shape.reflectIn, shape.reflectOut);
    }
    CrcValueInitXor(shape, Unfinished(shape, a), Unfinished(shape, b), n);
  }

  lemma ResidueAfterSuffix(shape: CrcShape, s: Observation, suffix: seq<Byte>)
    ensures Residue(shape, Observation(s.data + suffix, s.observed))
         == Xor16(Xor16(s.observed, Carried(shape, CrcValue(shape, 0, 0, s.data), |suffix|)),
                  CrcValue(shape, 0, 0, suffix))
  {
    hide Xor16, CrcValue, Masked, Unfinished;
    var init := Unfinished(shape, CrcValue(shape, 0, 0, s.data));
    var c, z := CrcValue(shape, 0, 0, suffix), CrcValue(shape, init, 0, Zeros(|suffix|));
    CrcValueConcat(shape, s.data, suffix);
    CrcValueAffine(shape, init, 0, suffix);
    MaskedZeroXor(shape, Xor16(c, z));
    Xor16Comm(c, z);
    Xor16Assoc(s.observed, z, c);
  }

  /** Two pairs differ alike along either side of the square. */
  lemma XorSquare(a: Word, b: Word, c: Word, d: Word)
    ensures Xor16(a, c) == Xor16(b, d) <==> Xor16(a, b) == Xor16(c, d)
  {
    hide Xor16;
    XorInjective(Xor16(a, c), Xor16(b, d), Xor16(b, c));
    XorShuffle(a, b, c);
    XorShuffle(d, c, b);
    Xor16Comm(b, d);
    Xor16Comm(c, d);
    Xor16Comm(b, c);
  }

  lemma XorShuffle(a: Word, b: Word, c: Word)
    ensures Xor16(Xor16(a, c), Xor16(b, c)) == Xor16(a, b)
  {
    hide Xor16;
    Xor16Assoc(a, c, Xor16(b, c));
    Xor16Comm(c, Xor16(b, c));
    Xor16Assoc(b, c, c);
    Xor16Self(c);
    Xor16Zero(b);
  }

  /** Two samples that agree without the suffix agree with it exactly when their difference survives it. */
  lemma SuffixPair(shape: CrcShape, s: Observation, t: Observation, suffix: seq<Byte>)
    requires Residue(shape, s) == Residue(shape, t)
    ensures Residue(shape, Observation(s.data + suffix, s.observed))
         == Residue(shape, Observation(t.data + suffix, t.observed))
       <==> Carried(shape, Xor16(s.observed, t.observed), |suffix|) == Xor16(s.observed, t.observed)
  {
    hide Xor16, CrcValue, Carried;
    var cs, ct := CrcValue(shape, 0, 0, s.data), CrcValue(shape, 0, 0, t.data);
    var zs, zt := Carried(shape, cs, |suffix|), Carried(shape, ct, |suffix|);
    ResidueAfterSuffix(shape, s, suffix);
    ResidueAfterSuffix(shape, t, suffix);
    XorInjective(Xor16(s.observed, zs), Xor16(t.observed, zt), CrcValue(shape, 0, 0, suffix));
    XorSquare(s.observed, t.observed, zs, zt);
    XorSquare(s.observed, t.observed, cs, ct);
    CarriedXor(shape, cs, ct, |suffix|);
  }

  /**
   Constant bytes after the range keep a shared residue exactly when every difference
   between stored values is unmoved by that many further bytes.
   */
  lemma SuffixKeepsSharedResidueIff(shape: CrcShape, samples: seq<Observation>, suffix: seq<Byte>)
    requires SharedResidue(shape, samples).Some?
    ensures SharedResidue(shape, Surrounded([], samples, suffix)).Some? <==>
            forall i :: 0 <= i < |samples| ==>
              Carried(shape, Xor16(samples[i].observed, samples[0].observed), |suffix|)
              == Xor16(samples[i].observed, samples[0].observed)
  {
    hide Xor16, Carried, Residue;
    var wide := Surrounded([], samples, suffix);
    forall i | 0 <= i < |samples|
      ensures Residue(shape, wide[i]) == Residue(shape, wide[0]) <==>
              Carried(shape, Xor16(samples[i].observed, samples[0].observed), |suffix|)
              == Xor16(samples[i].observed, samples[0].observed)
    {
      assert [] + samples[i].data + suffix == samples[i].data + suffix;
      assert [] + samples[0].data + suffix == samples[0].data + suffix;
      SuffixPair(shape, samples[i], samples[0], suffix);
    }
  }

  // ---------- a suffix that does not cancel ----------

  const PLAIN_CRC8 := CrcShape(Eight, 0x07, false, false)

  lemma Steps7()
    ensures Iterate(Stepper8(0x07, false), 0x07, 8) == 0x15
    ensures Iterate(Stepper8(0x07, false), 0x01, 8) == 0x07
  {
    var f := Stepper8(0x07, false);
    assert Iterate(f, 0x07, 5) == 0xE0 by {
      assert Iterate(f, 0x07, 1) == 0x0E;
      assert Iterate(f, 0x07, 2) == 0x1C;
      assert Iterate(f, 0x07, 3) == 0x38;
      assert Iterate(f, 0x07, 4) == 0x70;
    }
    assert Iterate(f, 0x07, 6) == 0xC7;
    assert Iterate(f, 0x07, 7) == 0x89;
    assert Iterate(f, 0x01, 7) == 0x80 by {
      assert Iterate(f, 0x01, 1) == 0x02;
      assert Iterate(f, 0x01, 2) == 0x04;
      assert Iterate(f, 0x01, 3) == 0x08;
      assert Iterate(f, 0x01, 4) == 0x10;
      assert Iterate(f, 0x01, 5) == 0x20;
      assert Iterate(f, 0x01, 6) == 0x40;
    }
  }

  lemma OneByteRegister(init: Byte, b: Byte)
    ensures Crc8([b], 0x07, init, 0, false) == Iterate(Stepper8(0x07, false), Joiner8()(init, b), 8)
  {
    hide Stepper8, Joiner8, Iterate, Xor8;
    var step, join := Stepper8(0x07, false), Joiner8();
    Xor8Zero(Iterate(step, join(init, b), 8));
    assert [b][..0] == [];
    assert Register(step, join, init, [b]) == Iterate(step, join(Register(step, join, init, []), b), 8);
  }

  lemma PlainCrcValues()
    ensures CrcValue(PLAIN_CRC8, 0, 0, [0]) == 0
    ensures CrcValue(PLAIN_CRC8, 0, 0, [1]) == 7
    ensures CrcValue(PLAIN_CRC8, 7, 0, [0]) == 0x15
  {
    assert LowByte(7) == 7 && LowByte(0) == 0;
    hide Register, Stepper8, Iterate, Crc8, LowByte;
    Steps7();
    OneByteRegister(0, 0);
    OneByteRegister(0, 1);
    OneByteRegister(7, 0);
    assert Zeros(1) == [0];
    ZeroInitContributesNothing(PLAIN_CRC8, 1);
  }

  /** Three one-byte samples of the plain CRC-8. */
  const PLAIN_SAMPLES: seq<Observation> := [Observation([0], 0), Observation([1], 7), Observation([0], 0)]

  /**
   A trailing byte that never changes is not absorbed: these samples have a shared residue,
   and the same samples with one constant byte appended to every range have none.
   */
  lemma ConstantSuffixBreaksTheResidue()
    ensures SharedResidue(PLAIN_CRC8, PLAIN_SAMPLES) == Some(0)
    ensures SharedResidue(PLAIN_CRC8, Surrounded([], PLAIN_SAMPLES, [0])) == None
  {
    hide CrcValue, LowByte;
    PlainCrcValues();
    Xor16Self(0);
    Xor16Self(7);
    Xor16Zero(7);
    hide Xor16;
    assert Zeros(1) == [0];
    SuffixKeepsSharedResidueIff(PLAIN_CRC8, PLAIN_SAMPLES, [0]);
    assert Carried(PLAIN_CRC8, Xor16(PLAIN_SAMPLES[1].observed, PLAIN_SAMPLES[0].observed), 1) == 0x15;
    assert |[0 as Byte]| == 1;
  }

  // ---------- sums and exclusive ors ----------

  lemma WrappingAddAssoc(a: Byte, b: Byte, c: Byte)
    ensures (a + b) + c == a + (b + c)
  {
  }

  lemma PlusAssoc(a: Byte, b: Byte, c: Byte)
    ensures Plus(Plus(a, b), c) == Plus(a, Plus(b, c))
  {
    WrappingAddAssoc(a, b, c);
    assert Plus(a, b) == a + b;
    assert Plus(b, c) == b + c;
    hide Plus;
    assert Plus(a + b, c) == (a + b) + c by { PlusIs(a + b, c); }
    assert Plus(a, b + c) == a + (b + c) by { PlusIs(a, b + c); }
  }

  lemma PlusIs(a: Byte, b: Byte)
    ensures Plus(a, b) == a + b
  {
  }

  lemma PlusComm(a: Byte, b: Byte)
    ensures Plus(a, b) == Plus(b, a)
  {
  }

  lemma PlusMinus(a: Byte, b: Byte)
    ensures Minus(Plus(a, b), b) == a && Plus(Minus(a, b), b) == a
  {
  }

  lemma PlusZero(a: Byte)
    ensures Plus(a, 0) == a
  {
  }

  lemma {:induction false} SumOfConcat(a: seq<Byte>, b: seq<Byte>)
    ensures SumOf(a + b) == Plus(SumOf(a), SumOf(b))
  {
    hide Plus;
    if b == [] {
      assert a + b == a;
      PlusZero(SumOf(a));
    } else {
      var n := |b| - 1;
      assert (a + b)[..|a + b| - 1] == a + b[..n];
      SumOfConcat(a, b[..n]);
      PlusAssoc(SumOf(a), SumOf(b[..n]), b[n]);
    }
  }

  lemma {:induction false} XorOfConcat(a: seq<Byte>, b: seq<Byte>)
    ensures XorOf(a + b) == Xor8(XorOf(a), XorOf(b))
  {
    hide Xor8;
    if b == [] {
      assert a + b == a;
      Xor8Zero(XorOf(a));
    } else {
      var n := |b| - 1;
      assert (a + b)[..|a + b| - 1] == a + b[..n];
      XorOfConcat(a, b[..n]);
      Xor8Assoc(XorOf(a), XorOf(b[..n]), b[n]);
    }
  }

  /** What constant bytes at both ends do to a residue. */
  function Shifted(op: AdditiveOp, residue: Byte, prefix: seq<Byte>, suffix: seq<Byte>): Byte {
    match op
    case XorOp => Xor8(residue, Xor8(XorOf(prefix), XorOf(suffix)))
    case SumOp => Minus(residue, Plus(SumOf(prefix), SumOf(suffix)))
    case NegatedSumOp => Plus(residue, Plus(SumOf(prefix), SumOf(suffix)))
  }

  /** Undoes an addition of `p`, `d` and `s` in either grouping. */
  lemma MinusRegroup(o: Byte, p: Byte, d: Byte, s: Byte)
    ensures Minus(o, Plus(Plus(p, d), s)) == Minus(Minus(o, d), Plus(p, s))
  {
    hide Plus, Minus;
    var x := Minus(Minus(o, d), Plus(p, s));
    PlusMinus(Minus(o, d), Plus(p, s));
    PlusMinus(o, d);
    PlusAssoc(x, Plus(p, s), d);
    PlusRegroup(p, d, s);
    PlusMinus(x, Plus(Plus(p, d), s));
  }

  lemma PlusRegroup(p: Byte, d: Byte, s: Byte)
    ensures Plus(Plus(p, d), s) == Plus(Plus(p, s), d) == Plus(d, Plus(p, s))
  {
    hide Plus;
    PlusAssoc(p, d, s);
    PlusAssoc(p, s, d);
    PlusComm(d, s);
    PlusComm(d, Plus(p, s));
  }

  lemma XorRegroup(o: Byte, p: Byte, d: Byte, s: Byte)
    ensures Xor8(o, Xor8(Xor8(p, d), s)) == Xor8(Xor8(o, d), Xor8(p, s))
  {
    hide Xor8;
    Xor8Assoc(p, d, s);
    Xor8Comm(d, s);
    Xor8Assoc(p, s, d);
    Xor8Comm(d, Xor8(p, s));
    Xor8Assoc(o, d, Xor8(p, s));
  }

  lemma AdditiveResidueSurrounded(op: AdditiveOp, prefix: seq<Byte>, s: Observation, suffix: seq<Byte>)
    ensures AdditiveResidue(op, Observation(prefix + s.data + suffix, s.observed))
         == Shifted(op, AdditiveResidue(op, s), prefix, suffix)
  {
    hide Plus, Minus, Xor8, SumOf, XorOf, LowByte;
    var o := LowByte(s.observed);
    match op
    case XorOp =>
      XorOfConcat(prefix + s.data, suffix);
      XorOfConcat(prefix, s.data);
      XorRegroup(o, XorOf(prefix), XorOf(s.data), XorOf(suffix));
    case SumOp =>
      SumOfConcat(prefix + s.data, suffix);
      SumOfConcat(prefix, s.data);
      MinusRegroup(o, SumOf(prefix), SumOf(s.data), SumOf(suffix));
    case NegatedSumOp =>
      SumOfConcat(prefix + s.data, suffix);
      SumOfConcat(prefix, s.data);
      PlusRegroup(SumOf(prefix), SumOf(s.data), SumOf(suffix));
      PlusAssoc(o, SumOf(s.data), Plus(SumOf(prefix), SumOf(suffix)));
  }

  lemma ShiftedInjective(op: AdditiveOp, a: Byte, b: Byte, prefix: seq<Byte>, suffix: seq<Byte>)
    requires Shifted(op, a, prefix, suffix) == Shifted(op, b, prefix, suffix)
    ensures a == b
  {
    hide Plus, Minus, Xor8, SumOf, XorOf;
    match op
    case XorOp =>
      var k := Xor8(XorOf(prefix), XorOf(suffix));
      Xor8Assoc(a, k, k);
      Xor8Assoc(b, k, k);
      Xor8Self(k);
      Xor8Zero(a);
      Xor8Zero(b);
    case _ =>
      PlusMinus(a, Plus(SumOf(prefix), SumOf(suffix)));
      PlusMinus(b, Plus(SumOf(prefix), SumOf(suffix)));
  }

  /** Constant bytes at either end shift an additive offset and never decide whether there is one. */
  lemma SurroundingKeepsAdditiveAgreement(
    op: AdditiveOp, prefix: seq<Byte>, samples: seq<Observation>, suffix: seq<Byte>)
    requires samples != []
    ensures AdditiveAgrees(op, Surrounded(prefix, samples, suffix)) <==> AdditiveAgrees(op, samples)
  {
    hide AdditiveResidue, Shifted;
    var wide := Surrounded(prefix, samples, suffix);
    forall i | 0 <= i < |samples|
      ensures AdditiveResidue(op, wide[i]) == AdditiveResidue(op, wide[0]) <==>
              AdditiveResidue(op, samples[i]) == AdditiveResidue(op, samples[0])
    {
      AdditiveResidueSurrounded(op, prefix, samples[i], suffix);
      AdditiveResidueSurrounded(op, prefix, samples[0], suffix);
      if AdditiveResidue(op, wide[i]) == AdditiveResidue(op, wide[0]) {
        ShiftedInjective(op, AdditiveResidue(op, samples[i]), AdditiveResidue(op, samples[0]), prefix, suffix);
      }
    }
  }
}
