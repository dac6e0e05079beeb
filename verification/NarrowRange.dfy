/** Frames for which the solver keeps the narrower of two ranges, as the two are written. */
module NarrowRange {
  import opened Common
  import opened Sequences
  import opened Crc
  import opened ModbusCrc
  import opened Algorithms
  import opened Frame
  import opened Solve
  import opened Collapse
  import opened ConstantSuffix

  /** A byte, a byte that never changes, and the first byte again. */
  const REPEATED: seq<seq<Byte>> := [[0, 0, 0], [1, 0, 1], [2, 0, 2]]

  lemma XorOfOne(a: Byte)
    ensures XorOf([a]) == a && XorOf([a, 0]) == a
  {
    assert [a][..0] == [] && [a, 0][..1] == [a];
    XorWithZero(a);
  }

  lemma XorWithZero(a: Byte)
    ensures Xor8(0, a) == a && Xor8(a, 0) == a
  {
  }

  /** What one of the frames says of a range that ends one byte in, or one byte from the end. */
  lemma ObservedRepeat(a: Byte, end: int) returns (o: Observation)
    requires end == 1 || end == -1
    ensures Observe([a, 0, a], XorUpTo(end).target) == Some(o) && AdditiveResidue(XorOp, o) == 0
  {
    hide Widen, LowByte, Xor8, XorOf;
    var frame := [a, 0, a];
    assert frame[0..1] == [a] && frame[0..2] == [a, 0];
    assert ResolveByteIndex(-1, 3) == 2;
    o := Observation(if end == 1 then [a] else [a, 0], Widen(a));
    XorOfOne(a);
    SameAgain(a);
  }

  lemma SameAgain(a: Byte)
    ensures Xor8(LowByte(Widen(a)), a) == 0
  {
  }

  lemma SolvedAsXor(end: int)
    requires end == 1 || end == -1
    ensures SolveAdditive(REPEATED, XorUpTo(end).target) == Some(XorUpTo(end))
  {
    var target := XorUpTo(end).target;
    var a := ObservedRepeat(0, end);
    var b := ObservedRepeat(1, end);
    var c := ObservedRepeat(2, end);
    hide Observe, AdditiveResidue;
    ThreeSome(REPEATED[0], REPEATED[1], REPEATED[2], (frame: seq<Byte>) => Observe(frame, target));
    assert Observations(REPEATED, target) == [a, b, c];
    hide Observations;
  }

  /** No CRC is reported when none is asked for. */
  lemma NoCrcAsked(frames: seq<seq<Byte>>, target: SolveTarget, options: CrcSolveOptions)
    requires options.maxSolutions == 0
    ensures SolveCrc(frames, target, options) == []
  {
    hide Candidates, Observations, OfLength, LargestLengthGroup;
  }

  lemma TwoTargets<A>(x: SolveTarget, y: SolveTarget, f: SolveTarget -> seq<A>, a: A, b: A)
    requires f(x) == [a] && f(y) == [b]
    ensures FlatMap([x, y], f) == [a, b]
  {
    assert [x, y][1..] == [y] && [y][1..] == [];
    assert FlatMap([y], f) == [b];
  }

  lemma OneAnswer(end: int, options: CrcSolveOptions)
    requires options.maxSolutions == 0 && (end == 1 || end == -1)
    ensures SolveTargetAll(REPEATED, XorUpTo(end).target, options) == [XorUpTo(end)]
  {
    hide SolveAdditive, SolveCrc;
    SolvedAsXor(end);
    NoCrcAsked(REPEATED, XorUpTo(end).target, options);
  }

  lemma BothAnswers(options: CrcSolveOptions)
    requires options.maxSolutions == 0
    ensures SolveAll(REPEATED, [XorUpTo(-1).target, XorUpTo(1).target], options)
         == Solve.Collapse([XorUpTo(-1), XorUpTo(1)])
  {
    OneAnswer(-1, options);
    OneAnswer(1, options);
    hide SolveTargetAll, Solve.Collapse, XorUpTo, REPEATED, FlatMap;
    TwoTargets(XorUpTo(-1).target, XorUpTo(1).target, target => SolveTargetAll(REPEATED, target, options),
               XorUpTo(-1), XorUpTo(1));
  }

  lemma Widths()
    ensures forall i :: 0 <= i < |REPEATED| ==>
              ResolveByteIndex(1, |REPEATED[i]|) < ResolveByteIndex(-1, |REPEATED[i]|)
  {
  }

  /**
   Both ranges solve. The one that ends one byte in is reported and the one that ends one byte from the end folded
   into it, though in these frames it is the narrower.
   */
  lemma NarrowerReported(options: CrcSolveOptions)
    requires options.maxSolutions == 0
    ensures SolveAll(REPEATED, [XorUpTo(-1).target, XorUpTo(1).target], options)
         == [XorUpTo(1).(equivalentRanges := [CalcRange(0, -1)])]
    ensures forall i :: 0 <= i < |REPEATED| ==>
              ResolveByteIndex(1, |REPEATED[i]|) < ResolveByteIndex(-1, |REPEATED[i]|)
  {
    hide *;
    BothAnswers(options);
    Widths();
    NarrowerKept();
  }
}
