/** A sum or exclusive or with an offset is found exactly when one fits. */
module AdditiveExactness {
  import opened Common
  import opened Sequences
  import opened Crc
  import opened CrcAlgebra
  import opened ModbusCrc
  import opened Algorithms
  import opened Solve
  import opened SolveExactness
  import opened SolveTheorems
  import opened RangeFolding

  predicate AdditiveFits(op: AdditiveOp, offset: Byte, samples: seq<Observation>) {
    forall i :: 0 <= i < |samples| ==> Calculate(Additive(op, offset), samples[i].data) == samples[i].observed
  }

  /** The offset a sample implies is the one that reproduces it. */
  lemma ResidueIsOffset(op: AdditiveOp, offset: Byte, s: Observation)
    requires Widen(LowByte(s.observed)) == s.observed
    ensures AdditiveResidue(op, s) == offset <==> Calculate(Additive(op, offset), s.data) == s.observed
  {
    hide Plus, Minus, Xor8, SumOf, XorOf, Widen, LowByte;
    var o := LowByte(s.observed);
    WidenInjective(AdditiveValue(op, offset, s.data), o);
    match op
    case XorOp =>
      var d := XorOf(s.data);
      Xor8Assoc(d, d, o);
      Xor8Assoc(d, d, offset);
      Xor8Self(d);
      Xor8Zero(o);
      Xor8Zero(offset);
      Xor8Comm(o, d);
    case SumOp =>
      PlusMinus(o, SumOf(s.data));
      PlusMinus(offset, SumOf(s.data));
      PlusComm(offset, SumOf(s.data));
    case NegatedSumOp =>
      PlusMinus(o, SumOf(s.data));
      PlusMinus(offset, SumOf(s.data));
  }

  lemma WidenInjective(a: Byte, b: Byte)
    ensures Widen(a) == Widen(b) <==> a == b
  {
  }

  /** Residues agree exactly when some offset fits, and then it is the first sample's. */
  lemma AgreesIff(op: AdditiveOp, samples: seq<Observation>)
    requires samples != [] && FitsWidth(Eight, samples)
    ensures AdditiveAgrees(op, samples) <==> exists offset :: AdditiveFits(op, offset, samples)
    ensures AdditiveAgrees(op, samples) ==> AdditiveFits(op, AdditiveResidue(op, samples[0]), samples)
  {
    hide AdditiveResidue, Calculate;
    var first := AdditiveResidue(op, samples[0]);
    forall i | 0 <= i < |samples|
      ensures AdditiveResidue(op, samples[i]) == first <==>
              Calculate(Additive(op, first), samples[i].data) == samples[i].observed
    {
      ResidueIsOffset(op, first, samples[i]);
    }
    if AdditiveAgrees(op, samples) {
      assert AdditiveFits(op, first, samples);
    }
    if offset :| AdditiveFits(op, offset, samples) {
      forall i | 0 <= i < |samples| ensures AdditiveResidue(op, samples[i]) == offset {
        ResidueIsOffset(op, offset, samples[i]);
      }
    }
  }

  lemma ObservationsFit(frames: seq<seq<Byte>>, target: SolveTarget)
    requires target.byteLength == 1
    ensures FitsWidth(Eight, Observations(frames, target))
  {
    hide Masked, Observe;
    var all := Observations(frames, target);
    forall i | 0 <= i < |all| ensures Masked(Eight, all[i].observed) == all[i].observed {
      FilterMapIn(frames, frame => Observe(frame, target), all[i]);
      var frame :| frame in frames && Observe(frame, target) == Some(all[i]);
      ObservationFits(frame, target);
    }
  }

  /**
   An additive answer reproduces every sample, and one is given whenever there are samples
   enough and some family and offset reproduce them all; the earliest such family is chosen.
   */
  lemma SolveAdditiveExact(frames: seq<seq<Byte>>, target: SolveTarget)
    ensures var solved := SolveAdditive(frames, target);
            var samples := Observations(frames, target);
            && (solved.Some? <==>
                  target.byteLength == 1 && |samples| >= MIN_SAMPLES &&
                  exists op, offset :: AdditiveFits(op, offset, samples))
            && (solved.Some? ==>
                  && solved.value.specification.Additive?
                  && AdditiveFits(solved.value.specification.op, solved.value.specification.offset, samples)
                  && solved.value.sampleCount == |samples|
                  && (forall offset :: AdditiveFits(XorOp, offset, samples) ==> solved.value.specification.op == XorOp)
                  && (forall offset :: AdditiveFits(SumOp, offset, samples) ==>
                        solved.value.specification.op != NegatedSumOp))
  {
    hide AdditiveResidue, AdditiveFits, AdditiveAgrees, Observations, FitsWidth;
    var samples := Observations(frames, target);
    if target.byteLength == 1 && |samples| >= MIN_SAMPLES {
      ObservationsFit(frames, target);
      AgreesIff(XorOp, samples);
      AgreesIff(SumOp, samples);
      AgreesIff(NegatedSumOp, samples);
      if op, offset :| AdditiveFits(op, offset, samples) {
        assert op == XorOp || op == SumOp || op == NegatedSumOp;
      }
    }
  }
}
