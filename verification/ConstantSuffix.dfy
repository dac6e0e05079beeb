/** Frames whose CRC the solver finds over one range and not over a range one constant byte longer. */
module ConstantSuffix {
  import opened Common
  import opened Sequences
  import opened Crc
  import opened Frame
  import opened Solve
  import opened SolveExactness
  import opened SolveTheorems
  import opened RangeFolding

  /** A byte, a byte that never changes, and the plain CRC-8 of the first byte. */
  const FRAMES: seq<seq<Byte>> := [[0, 0, 0], [1, 0, 7], [0, 0, 0]]

  /** The last byte is the checksum of the bytes before `end`. */
  function Trailing(end: int): SolveTarget { SolveTarget(-1, 1, true, 0, end) }

  lemma ThreeSome<A, B>(a: A, b: A, c: A, f: A -> Option<B>)
    requires f(a).Some? && f(b).Some? && f(c).Some?
    ensures FilterMap([a, b, c], f) == [f(a).value, f(b).value, f(c).value]
  {
    assert [a, b, c][1..] == [b, c] && [b, c][1..] == [c] && [c][1..] == [];
    assert FilterMap([c], f) == [f(c).value] && FilterMap([b, c], f) == [f(b).value, f(c).value];
  }

  lemma ObservedOne(first: Byte, last: Byte, end: int)
    requires end == 1 || end == 2
    ensures Observe([first, 0, last], Trailing(end))
         == Some(Observation(if end == 1 then [first] else [first, 0], Widen(last)))
  {
    hide Widen;
    var frame := [first, 0, last];
    assert ResolveByteIndex(-1, 3) == 2;
    assert frame[0..1] == [first] && frame[0..2] == [first, 0];
  }

  lemma Values()
    ensures Widen(0) == 0 && Widen(7) == 7
  {
  }

  /** The plain samples, and the same with the constant byte behind each. */
  function Expected(end: int): seq<Observation> {
    if end == 1 then PLAIN_SAMPLES else Surrounded([], PLAIN_SAMPLES, [0])
  }

  lemma ExpectedPlain()
    ensures Expected(1) == [Observation([0], 0), Observation([1], 7), Observation([0], 0)]
    ensures EqualLength(Expected(1), 1)
  {
  }

  lemma ExpectedWide()
    ensures Expected(2) == [Observation([0, 0], 0), Observation([1, 0], 7), Observation([0, 0], 0)]
    ensures EqualLength(Expected(2), 2)
  {
    assert [] + [0 as Byte] + [0] == [0, 0] && [] + [1 as Byte] + [0] == [1, 0];
    assert Surrounded([], PLAIN_SAMPLES, [0])
        == [Observation([0, 0], 0), Observation([1, 0], 7), Observation([0, 0], 0)];
  }

  lemma Observed(end: int)
    requires end == 1 || end == 2
    ensures Observations(FRAMES, Trailing(end)) == Expected(end) && EqualLength(Expected(end), end)
  {
    hide Observe, Widen, Expected, EqualLength;
    Values();
    ObservedOne(0, 0, end);
    ObservedOne(1, 7, end);
    ExpectedPlain();
    ExpectedWide();
    ThreeSome(FRAMES[0], FRAMES[1], FRAMES[2], (frame: seq<Byte>) => Observe(frame, Trailing(end)));
  }

  /** Samples of one length are all in the largest group. */
  lemma {:induction false} AllOfLength(samples: seq<Observation>, length: nat)
    requires EqualLength(samples, length)
    ensures OfLength(samples, length) == samples
  {
    if samples != [] {
      AllOfLength(samples[1..], length);
      assert samples == [samples[0]] + samples[1..];
    }
  }

  lemma {:induction false} BestIsOnly(samples: seq<Observation>, n: nat, length: nat)
    requires 0 < n <= |samples| && EqualLength(samples, length)
    ensures BestLength(samples, n) == length
  {
    if n > 1 {
      BestIsOnly(samples, n - 1, length);
    }
  }

  lemma Grouped(end: int)
    requires end == 1 || end == 2
    ensures Group(FRAMES, Trailing(end)) == Expected(end)
    ensures |Group(FRAMES, Trailing(end))| == 3 && EqualLength(Group(FRAMES, Trailing(end)), end)
  {
    hide Observations, OfLength, BestLength;
    Observed(end);
    var samples := Observations(FRAMES, Trailing(end));
    AllOfLength(samples, end);
    BestIsOnly(samples, 3, end);
  }

  lemma PlainIsTried(options: CrcSolveOptions)
    ensures PLAIN_CRC8 in Shapes(Eight, options)
  {
    if options.knownPolynomialsOnly {
      hide ShapesOf;
      var ps := KnownPolynomials(Eight);
      assert ps[0] == 0x07;
      PlainIsAShape();
      FlatMapIn(ps, polynomial => ShapesOf(Eight, polynomial), PLAIN_CRC8);
    } else {
      PlainFits();
      hide Shapes;
      EveryShapeTried(Eight, options, PLAIN_CRC8);
    }
  }

  lemma PlainIsAShape()
    ensures PLAIN_CRC8 in ShapesOf(Eight, 0x07)
  {
    assert ShapesOf(Eight, 0x07)[0] == PLAIN_CRC8;
  }

  lemma PlainFits()
    ensures PLAIN_CRC8.polynomial != 0 && Masked(Eight, PLAIN_CRC8.polynomial) == PLAIN_CRC8.polynomial
  {
  }

  /** Nothing else is ranked as low. */
  lemma PlainIsBest(c: CrcParameters)
    requires c.shape.width == Eight && c.wellKnown == (c.shape.polynomial in KnownPolynomials(Eight))
    requires Rank(c) <= RankOfShape(PLAIN_CRC8)
    ensures c.shape == PLAIN_CRC8
  {
    assert PLAIN_CRC8.polynomial in KnownPolynomials(Eight);
    KnownAtLeast7(c.shape.polynomial);
  }

  lemma KnownAtLeast7(p: Word)
    requires p in KnownPolynomials(Eight)
    ensures p as nat >= 7 && (p as nat == 7 ==> p == 0x07)
  {
  }

  /** Over the first byte alone, the plain CRC-8 is among the answers, however few are asked for. */
  lemma FoundWithout(options: CrcSolveOptions)
    requires options.maxSolutions > 0
    ensures exists i :: 0 <= i < |SolveCrc(FRAMES, Trailing(1), options)| &&
                        ShapeAt(FRAMES, Trailing(1), options, i) == PLAIN_CRC8
  {
    hide Group, CrcValue, Shapes, Rank, RankOfShape, SharedResidue, Residue, SolveCrc, Reproduces, KnownPolynomials;
    Grouped(1);
    ConstantSuffixBreaksTheResidue();
    GroupFits(FRAMES, Trailing(1), Eight);
    CanonicalReproduces(PLAIN_CRC8, PLAIN_SAMPLES, 1);
    PlainIsTried(options);
    SolveCrcComplete(FRAMES, Trailing(1), options, Eight, PLAIN_CRC8, 0, 0);
    var solved := SolveCrc(FRAMES, Trailing(1), options);
    if |solved| == options.maxSolutions && forall i :: 0 <= i < |solved| ==>
         solved[i].specification.CrcSpec? && Rank(solved[i].specification.crc) <= RankOfShape(PLAIN_CRC8)
    {
      ReportedAsKnown(FRAMES, Trailing(1), options, Eight, solved[0]);
      PlainIsBest(solved[0].specification.crc);
      assert ShapeAt(FRAMES, Trailing(1), options, 0) == PLAIN_CRC8;
    } else {
      var i :| 0 <= i < |solved| && solved[i].specification.CrcSpec? && solved[i].specification.crc.shape == PLAIN_CRC8;
      assert ShapeAt(FRAMES, Trailing(1), options, i) == PLAIN_CRC8;
    }
  }

  /** The shape of the `i`-th answer. */
  function ShapeAt(frames: seq<seq<Byte>>, target: SolveTarget, options: CrcSolveOptions, i: nat): CrcShape
    requires i < |SolveCrc(frames, target, options)|
  {
    SolveCrcSound(frames, target, options, SolveCrc(frames, target, options)[i]);
    SolveCrc(frames, target, options)[i].specification.crc.shape
  }

  /** Over both bytes it is not. */
  lemma NotFoundWith(options: CrcSolveOptions, i: nat)
    requires i < |SolveCrc(FRAMES, Trailing(2), options)|
    ensures ShapeAt(FRAMES, Trailing(2), options, i) != PLAIN_CRC8
  {
    hide Group, CrcValue, Reproduces, SharedResidue, Residue;
    Grouped(2);
    ConstantSuffixBreaksTheResidue();
    GroupFits(FRAMES, Trailing(2), Eight);
    var s := SolveCrc(FRAMES, Trailing(2), options)[i];
    SolveCrcSound(FRAMES, Trailing(2), options, s);
    if s.specification.crc.shape == PLAIN_CRC8 {
      SharedResidueIff(PLAIN_CRC8, Group(FRAMES, Trailing(2)), 2);
      assert false;
    }
  }

  /**
   Two targets that differ in one byte, which never changes: the solver finds the plain CRC-8 for the
   shorter range and, however many answers are asked for, not for the longer.
   */
  lemma AConstantByteHidesTheCrc(options: CrcSolveOptions)
    requires options.maxSolutions > 0
    ensures exists i :: 0 <= i < |SolveCrc(FRAMES, Trailing(1), options)| &&
                        ShapeAt(FRAMES, Trailing(1), options, i) == PLAIN_CRC8
    ensures forall i :: 0 <= i < |SolveCrc(FRAMES, Trailing(2), options)| ==>
              ShapeAt(FRAMES, Trailing(2), options, i) != PLAIN_CRC8
  {
    FoundWithout(options);
    forall i | 0 <= i < |SolveCrc(FRAMES, Trailing(2), options)|
      ensures ShapeAt(FRAMES, Trailing(2), options, i) != PLAIN_CRC8
    {
      NotFoundWith(options, i);
    }
    hide SolveCrc, ShapeAt;
  }
}
