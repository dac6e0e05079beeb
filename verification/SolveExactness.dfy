/**
 Why `init` and `xorOut` are not search axes: over samples of one length they are a
 single constant, so one shared residue is all a polynomial has to show.
 */
module SolveExactness {
  import opened Common
  import opened Sequences
  import opened LinearFold
  import opened Crc
  import opened CrcAlgebra
  import opened ModbusCrc
  import opened Solve

  /** What an 8-bit CRC keeps of a value. */
  function Masked(width: Width, w: Word): Word {
    match width case Eight => Widen(LowByte(w)) case Sixteen => w
  }

  predicate EqualLength(samples: seq<Observation>, length: nat) {
    forall i :: 0 <= i < |samples| ==> |samples[i].data| == length
  }

  /** Every stored value fits the width. */
  predicate FitsWidth(width: Width, samples: seq<Observation>) {
    forall i :: 0 <= i < |samples| ==> Masked(width, samples[i].observed) == samples[i].observed
  }

  predicate Reproduces(shape: CrcShape, init: Word, xorOut: Word, samples: seq<Observation>) {
    forall i :: 0 <= i < |samples| ==> CrcValue(shape, init, xorOut, samples[i].data) == samples[i].observed
  }

  // ---------- widths ----------

  lemma Widened(a: Byte, b: Byte)
    ensures Widen(Xor8(a, b)) == Xor16(Widen(a), Widen(b))
  {
  }

  lemma MaskedXor(width: Width, a: Word, b: Word)
    ensures Masked(width, Xor16(a, b)) == Xor16(Masked(width, a), Masked(width, b))
  {
  }

  lemma LowByteOfByte(b: Byte)
    ensures LowByte(Widen(b)) == b
  {
  }

  lemma CrcValueFits(shape: CrcShape, init: Word, xorOut: Word, m: seq<Byte>)
    ensures Masked(shape.width, CrcValue(shape, init, xorOut, m)) == CrcValue(shape, init, xorOut, m)
  {
    hide LowByte, Widen, Crc8, Crc16;
    if shape.width.Eight? {
      LowByteOfByte(Crc8(m, LowByte(shape.polynomial), LowByte(init), LowByte(xorOut), shape.reflectIn));
    }
  }

  lemma MaskedZero(width: Width)
    ensures Masked(width, 0) == 0 && LowByte(0) == 0
  {
  }

  lemma Crc8AffineWidened(m: seq<Byte>, p: Byte, init: Byte, xorOut: Byte, reflect: bool)
    ensures Widen(Crc8(m, p, init, xorOut, reflect))
         == Xor16(Xor16(Widen(Crc8(m, p, 0, 0, reflect)), Widen(Crc8(Zeros(|m|), p, init, 0, reflect))),
                  Widen(xorOut))
  {
    hide Crc8, Xor8, Xor16, Widen;
    var a, b := Crc8(m, p, 0, 0, reflect), Crc8(Zeros(|m|), p, init, 0, reflect);
    Crc8Affine(m, p, init, xorOut, reflect);
    Widened(Xor8(a, b), xorOut);
    Widened(a, b);
  }

  /** The starting value and the final exclusive or each contribute one constant per length. */
  lemma CrcValueAffine(shape: CrcShape, init: Word, xorOut: Word, m: seq<Byte>)
    ensures CrcValue(shape, init, xorOut, m)
         == Xor16(Xor16(CrcValue(shape, 0, 0, m), CrcValue(shape, init, 0, Zeros(|m|))), Masked(shape.width, xorOut))
  {
    hide LowByte, Widen, Crc8, Crc16, Xor16;
    MaskedZero(shape.width);
    match shape.width
    case Sixteen =>
      Crc16Affine(m, shape.polynomial, init, xorOut, shape.reflectIn, shape.reflectOut);
    case Eight =>
      Crc8AffineWidened(m, LowByte(shape.polynomial), LowByte(init), LowByte(xorOut), shape.reflectIn);
  }

  // ---------- the residue ----------

  lemma XorMiddle(o: Word, c: Word, z: Word, x: Word)
    requires o == Xor16(Xor16(c, z), x)
    ensures Xor16(o, c) == Xor16(z, x)
  {
    hide Xor16;
    Xor16Assoc(c, z, x);
    Xor16Comm(o, c);
    Xor16Assoc(c, c, Xor16(z, x));
    Xor16Self(c);
    Xor16Zero(Xor16(z, x));
  }

  lemma ResidueOf(shape: CrcShape, init: Word, xorOut: Word, s: Observation)
    requires CrcValue(shape, init, xorOut, s.data) == s.observed
    ensures Residue(shape, s) == Xor16(CrcValue(shape, init, 0, Zeros(|s.data|)), Masked(shape.width, xorOut))
  {
    hide Xor16, CrcValue, Masked;
    CrcValueAffine(shape, init, xorOut, s.data);
    XorMiddle(s.observed, CrcValue(shape, 0, 0, s.data), CrcValue(shape, init, 0, Zeros(|s.data|)),
              Masked(shape.width, xorOut));
  }

  lemma ZeroInitContributesNothing(shape: CrcShape, n: nat)
    ensures CrcValue(shape, 0, 0, Zeros(n)) == 0
  {
    hide Xor16, CrcValue;
    var m := Zeros(n);
    var c := CrcValue(shape, 0, 0, m);
    MaskedZero(shape.width);
    CrcValueAffine(shape, 0, 0, m);
    Xor16Self(c);
    Xor16Zero(0);
  }

  /** A residue that holds of a sample, however `init` and `xorOut` split it, reproduces the sample. */
  lemma ResidueReproduces(shape: CrcShape, init: Word, xorOut: Word, s: Observation)
    requires Masked(shape.width, s.observed) == s.observed
    requires xorOut == Xor16(Residue(shape, s), CrcValue(shape, init, 0, Zeros(|s.data|)))
    ensures CrcValue(shape, init, xorOut, s.data) == s.observed
  {
    hide Xor16, CrcValue, Masked;
    var c, z := CrcValue(shape, 0, 0, s.data), CrcValue(shape, init, 0, Zeros(|s.data|));
    MaskedXor(shape.width, Residue(shape, s), z);
    MaskedXor(shape.width, s.observed, c);
    CrcValueFits(shape, 0, 0, s.data);
    CrcValueFits(shape, init, 0, Zeros(|s.data|));
    CrcValueAffine(shape, init, xorOut, s.data);
    XorRestores(s.observed, c, z);
  }

  lemma XorRestores(o: Word, c: Word, z: Word)
    ensures Xor16(Xor16(c, z), Xor16(Xor16(o, c), z)) == o
  {
    hide Xor16;
    Xor16Assoc(o, c, z);
    Xor16Comm(Xor16(c, z), Xor16(o, Xor16(c, z)));
    Xor16Assoc(o, Xor16(c, z), Xor16(c, z));
    Xor16Self(Xor16(c, z));
    Xor16Zero(o);
  }

  /** A shape has a shared residue exactly when some `init` and `xorOut` reproduce every sample. */
  lemma SharedResidueIff(shape: CrcShape, samples: seq<Observation>, length: nat)
    requires samples != [] && EqualLength(samples, length) && FitsWidth(shape.width, samples)
    ensures SharedResidue(shape, samples).Some? <==>
            exists init, xorOut :: Reproduces(shape, init, xorOut, samples)
  {
    hide Xor16, CrcValue, Masked, Residue;
    if SharedResidue(shape, samples).Some? {
      CanonicalReproduces(shape, samples, length);
    }
    if init, xorOut :| Reproduces(shape, init, xorOut, samples) {
      forall i | 0 <= i < |samples| ensures Residue(shape, samples[i]) == Residue(shape, samples[0]) {
        ResidueOf(shape, init, xorOut, samples[i]);
        ResidueOf(shape, init, xorOut, samples[0]);
      }
    }
  }

  /** `(0, K)` always reproduces the samples. */
  lemma CanonicalReproduces(shape: CrcShape, samples: seq<Observation>, length: nat)
    requires EqualLength(samples, length) && FitsWidth(shape.width, samples)
    requires SharedResidue(shape, samples).Some?
    ensures Reproduces(shape, 0, SharedResidue(shape, samples).value, samples)
  {
    hide Xor16, CrcValue, Masked, Residue;
    var k := SharedResidue(shape, samples).value;
    forall i | 0 <= i < |samples| ensures CrcValue(shape, 0, k, samples[i].data) == samples[i].observed {
      ZeroInitContributesNothing(shape, |samples[i].data|);
      Xor16Zero(k);
      ResidueReproduces(shape, 0, k, samples[i]);
    }
  }

  /** So does every conventional alternative listed beside it. */
  lemma AlternativesReproduce(shape: CrcShape, samples: seq<Observation>, length: nat, alternative: CrcAlternative)
    requires EqualLength(samples, length) && FitsWidth(shape.width, samples)
    requires SharedResidue(shape, samples).Some?
    requires alternative in ConventionalAlternatives(shape, length, SharedResidue(shape, samples).value)
    ensures Reproduces(shape, alternative.init, alternative.xorOut, samples)
  {
    hide Xor16, CrcValue, Masked, Residue, FilterMap;
    var k := SharedResidue(shape, samples).value;
    var f := init => Conventional(shape, length, k, init);
    FilterMapIn(CONVENTIONAL_INITS, f, alternative);
    forall i | 0 <= i < |samples|
      ensures CrcValue(shape, alternative.init, alternative.xorOut, samples[i].data) == samples[i].observed
    {
      ResidueReproduces(shape, alternative.init, alternative.xorOut, samples[i]);
    }
  }
}
