/** What a CRC report says beside its parameters: in what order, and with which starting values. */
module SolveReport {
  import opened Common
  import opened Sequences
  import opened LinearFold
  import opened Crc
  import opened CrcAlgebra
  import opened Algorithms
  import opened ModbusCrc
  import opened Solve
  import opened SolveExactness
  import opened SolveTheorems
  import opened WordValues

  // ---------- best first ----------

  /** A recognised standard before any other, then the lower polynomial, then the plainer reflection. */
  predicate NoWorse(a: CrcParameters, b: CrcParameters) {
    if a.wellKnown != b.wellKnown then a.wellKnown
    else if a.shape.polynomial != b.shape.polynomial then
      WordValue(a.shape.polynomial) < WordValue(b.shape.polynomial)
    else if a.shape.reflectIn != b.shape.reflectIn then b.shape.reflectIn
    else a.shape.reflectOut ==> b.shape.reflectOut
  }

  function Mixed(known: bool, polynomial: nat, reflectIn: bool, reflectOut: bool): nat {
    ((Flag(!known) * 0x1_0000 + polynomial) * 2 + Flag(reflectIn)) * 2 + Flag(reflectOut)
  }

  lemma MixedInOrder(k: bool, p: nat, i: bool, o: bool, l: bool, q: nat, j: bool, u: bool)
    requires p < 0x1_0000 && q < 0x1_0000
    ensures Mixed(k, p, i, o) <= Mixed(l, q, j, u) <==>
            if k != l then k else if p != q then p < q else if i != j then j else o ==> u
  {
  }

  lemma RankIsOrder(a: CrcParameters, b: CrcParameters)
    ensures Rank(a) <= Rank(b) <==> NoWorse(a, b)
  {
    hide Rank, Mixed, WordValue;
    RankIsMixed(a);
    RankIsMixed(b);
    if WordValue(a.shape.polynomial) == WordValue(b.shape.polynomial) {
      SameWord(a.shape.polynomial, b.shape.polynomial);
    }
    WordBound(a.shape.polynomial);
    WordBound(b.shape.polynomial);
    MixedInOrder(a.wellKnown, WordValue(a.shape.polynomial), a.shape.reflectIn, a.shape.reflectOut,
                 b.wellKnown, WordValue(b.shape.polynomial), b.shape.reflectIn, b.shape.reflectOut);
  }

  lemma RankIsMixed(c: CrcParameters)
    ensures Rank(c) == Mixed(c.wellKnown, WordValue(c.shape.polynomial), c.shape.reflectIn, c.shape.reflectOut)
  {
  }

  lemma WordBound(w: Word)
    ensures WordValue(w) < 0x1_0000
  {
  }

  lemma SolutionsInOrder(width: Width, options: CrcSolveOptions, length: nat, samples: seq<Observation>)
    ensures var solutions := Solutions(width, options, length, samples);
            forall i, j :: 0 <= i < j < |solutions| ==> NoWorse(solutions[i], solutions[j])
  {
    hide Candidates, Rank, NoWorse;
    RankedTotal();
    SortSorted(Candidates(width, options, length, samples), Ranked());
    var solutions := Solutions(width, options, length, samples);
    forall i, j | 0 <= i < j < |solutions| ensures NoWorse(solutions[i], solutions[j]) {
      RankIsOrder(solutions[i], solutions[j]);
    }
  }

  /** A report lists no more than it was asked for, the best first. */
  lemma SolveCrcInOrder(frames: seq<seq<Byte>>, target: SolveTarget, options: CrcSolveOptions)
    ensures var solved := SolveCrc(frames, target, options);
            && |solved| <= options.maxSolutions
            && (forall i :: 0 <= i < |solved| ==> solved[i].specification.CrcSpec?)
            && forall i, j :: 0 <= i < j < |solved| ==>
                 NoWorse(solved[i].specification.crc, solved[j].specification.crc)
  {
    hide Solutions, Observations, Group, NoWorse;
    if SolveCrc(frames, target, options) != [] {
      NoSolutionsWithoutSamples(frames, target, options);
      var width := WidthOf(target).value;
      SolveCrcIs(frames, target, options, width);
      var length := LargestLengthGroup(Observations(frames, target)).value;
      SolutionsInOrder(width, options, length, Group(frames, target));
      NoMoreThanAsked(width, options, length, Group(frames, target));
    }
  }

  lemma NoMoreThanAsked(width: Width, options: CrcSolveOptions, length: nat, samples: seq<Observation>)
    ensures |Solutions(width, options, length, samples)| <= options.maxSolutions
  {
    hide Candidates;
  }

  // ---------- the conventional starting value ----------

  /** All ones. */
  function Convention(width: Width): Word { match width case Eight => 0xFF case Sixteen => 0xFFFF }

  lemma OneAlternative(shape: CrcShape, length: nat, residue: Word)
    ensures var init := Convention(shape.width);
            ConventionalAlternatives(shape, length, residue) ==
            [CrcAlternative(init, Xor16(residue, CrcValue(shape, init, 0, Zeros(length))))]
  {
    hide Xor16, CrcValue;
    var f := init => Conventional(shape, length, residue, init);
    assert CONVENTIONAL_INITS[1..] == [0xFFFF] && CONVENTIONAL_INITS[1..][1..] == [];
    assert f(0x0000).None?;
    assert f(0xFFFF).Some?;
    assert FilterMap(CONVENTIONAL_INITS, f) == FilterMap([0xFFFF], f);
  }

  /** Exactly one starting value is listed, all ones, and with it the one `xorOut` that reproduces the samples. */
  lemma AlternativesAre(shape: CrcShape, samples: seq<Observation>, length: nat, xorOut: Word)
    requires samples != [] && EqualLength(samples, length) && FitsWidth(shape.width, samples)
    requires SharedResidue(shape, samples).Some?
    ensures var listed := ConventionalAlternatives(shape, length, SharedResidue(shape, samples).value);
            && |listed| == 1 && listed[0].init == Convention(shape.width)
            && (listed[0].xorOut == xorOut <==>
                Masked(shape.width, xorOut) == xorOut &&
                Reproduces(shape, Convention(shape.width), xorOut, samples))
  {
    hide Xor16, CrcValue, Masked, Residue, ConventionalAlternatives, Convention, EqualLength, FitsWidth;
    var residue, init := SharedResidue(shape, samples).value, Convention(shape.width);
    OneAlternative(shape, length, residue);
    var listed := ConventionalAlternatives(shape, length, residue)[0];
    AlternativesReproduce(shape, samples, length, listed);
    FirstSample(shape, samples, length);
    var z := CrcValue(shape, init, 0, Zeros(length));
    MaskedXor(shape.width, residue, z);
    CrcValueFits(shape, init, 0, Zeros(length));
    if Masked(shape.width, xorOut) == xorOut && Reproduces(shape, init, xorOut, samples) {
      ResidueOf(shape, init, xorOut, samples[0]);
      XorBack(residue, z, xorOut);
    }
  }

  lemma FirstSample(shape: CrcShape, samples: seq<Observation>, length: nat)
    requires samples != [] && EqualLength(samples, length) && FitsWidth(shape.width, samples)
    requires SharedResidue(shape, samples).Some?
    ensures |samples[0].data| == length && Masked(shape.width, samples[0].observed) == samples[0].observed
    ensures SharedResidue(shape, samples).value == Residue(shape, samples[0])
    ensures Masked(shape.width, Residue(shape, samples[0])) == Residue(shape, samples[0])
  {
    hide Masked, CrcValue, Xor16;
    CrcValueFits(shape, 0, 0, samples[0].data);
    MaskedXor(shape.width, samples[0].observed, CrcValue(shape, 0, 0, samples[0].data));
  }

  lemma XorBack(residue: Word, z: Word, x: Word)
    requires residue == Xor16(z, x)
    ensures Xor16(residue, z) == x
  {
    hide Xor16;
    Xor16Comm(z, x);
    Xor16Assoc(x, z, z);
    Xor16Self(z);
    Xor16Zero(x);
  }

  /** Each entry of a report names all ones as the other starting value, and what to exclusive-or with then. */
  lemma SolveCrcListsTheConvention(frames: seq<seq<Byte>>, target: SolveTarget, options: CrcSolveOptions,
                                   solved: SolvedChecksum)
    requires solved in SolveCrc(frames, target, options)
    ensures solved.specification.CrcSpec?
    ensures var c := solved.specification.crc;
            && |c.alternatives| == 1 && c.alternatives[0].init == Convention(c.shape.width)
            && Reproduces(c.shape, Convention(c.shape.width), c.alternatives[0].xorOut, Group(frames, target))
  {
    hide Solutions, Observations, Group, TryShape, Candidates, Shapes, ConventionalAlternatives, Reproduces, SolveCrc;
    SolveCrcSound(frames, target, options, solved);
    NoSolutionsWithoutSamples(frames, target, options);
    var width := WidthOf(target).value;
    SolveCrcIs(frames, target, options, width);
    var group, length := Group(frames, target), LargestLengthGroup(Observations(frames, target)).value;
    var c := solved.specification.crc;
    SolutionsSound(width, options, length, group, c);
    CandidateIn(width, options, length, group, c);
    ScreeningLosesNothing(c.shape, length, group);
    OneAlternative(c.shape, length, c.xorOut);
  }

  // ---------- the named checksums ----------

  datatype Parameters = Parameters(shape: CrcShape, init: Word, xorOut: Word)

  /** A named CRC by its parameters. */
  function ParametersOf(algorithm: ChecksumAlgorithm): Parameters
    requires !algorithm.Xor? && !algorithm.Sum8?
  {
    match algorithm
    case Crc8Plain => Parameters(CrcShape(Eight, 0x07, false, false), 0x00, 0x00)
    case Crc8SaeJ1850 => Parameters(CrcShape(Eight, 0x1D, false, false), 0xFF, 0xFF)
    case Crc8Autosar => Parameters(CrcShape(Eight, 0x2F, false, false), 0xFF, 0xFF)
    case Crc8Maxim => Parameters(CrcShape(Eight, 0x31, true, true), 0x00, 0x00)
    case Crc8Cdma2000 => Parameters(CrcShape(Eight, 0x9B, false, false), 0xFF, 0x00)
    case Crc8DvbS2 => Parameters(CrcShape(Eight, 0xD5, false, false), 0x00, 0x00)
    case Crc8Nissan => Parameters(CrcShape(Eight, 0x85, false, false), 0x00, 0x00)
    case Crc16Modbus => Parameters(CrcShape(Sixteen, 0x8005, true, true), 0xFFFF, 0x0000)
    case Crc16Ccitt => Parameters(CrcShape(Sixteen, 0x1021, false, false), 0xFFFF, 0x0000)
  }

  /** They are what it calculates. */
  lemma ParametersCalculate(algorithm: ChecksumAlgorithm, data: seq<Byte>)
    requires !algorithm.Xor? && !algorithm.Sum8?
    ensures var p := ParametersOf(algorithm);
            CrcValue(p.shape, p.init, p.xorOut, data) == CalculateSimple(algorithm, data)
  {
    LowBytes();
    hide Crc8, Crc16, LowByte, Checksum;
    if algorithm.Crc16Modbus? {
      TableMatchesGeneralForm(data);
    }
  }

  lemma LowBytes()
    ensures LowByte(0x07) == 0x07 && LowByte(0x1D) == 0x1D && LowByte(0x2F) == 0x2F && LowByte(0x31) == 0x31
    ensures LowByte(0x9B) == 0x9B && LowByte(0xD5) == 0xD5 && LowByte(0x85) == 0x85
    ensures LowByte(0x00) == 0x00 && LowByte(0xFF) == 0xFF
  {
  }

  /** Every named CRC is among the shapes tried and well known, whether the search is the short one or not. */
  lemma NamedAreTried(algorithm: ChecksumAlgorithm, options: CrcSolveOptions)
    requires !algorithm.Xor? && !algorithm.Sum8?
    ensures var shape := ParametersOf(algorithm).shape;
            shape in Shapes(shape.width, options) && shape.polynomial in KnownPolynomials(shape.width)
  {
    var shape := ParametersOf(algorithm).shape;
    NamedAreKnown(algorithm);
    hide KnownPolynomials, ParametersOf;
    if options.knownPolynomialsOnly {
      ReflectionTried(shape);
      hide ShapesOf, FlatMap;
      var f := polynomial => ShapesOf(shape.width, polynomial);
      assert shape in f(shape.polynomial);
      FlatMapIn(KnownPolynomials(shape.width), f, shape);
    } else {
      EveryShapeTried(shape.width, options, shape);
    }
  }

  lemma NamedAreKnown(algorithm: ChecksumAlgorithm)
    requires !algorithm.Xor? && !algorithm.Sum8?
    ensures var shape := ParametersOf(algorithm).shape;
            && shape.polynomial in KnownPolynomials(shape.width)
            && shape.polynomial != 0 && Masked(shape.width, shape.polynomial) == shape.polynomial
            && shape.reflectIn == shape.reflectOut
  {
    var shape := ParametersOf(algorithm).shape;
    var known := KnownPolynomials(shape.width);
    match algorithm
    case Crc8Plain => assert known[0] == 0x07;
    case Crc8SaeJ1850 => assert known[1] == 0x1D;
    case Crc8Autosar => assert known[2] == 0x2F;
    case Crc8Maxim => assert known[3] == 0x31;
    case Crc8Cdma2000 => assert known[4] == 0x9B;
    case Crc8DvbS2 => assert known[5] == 0xD5;
    case Crc8Nissan => assert known[6] == 0x85;
    case Crc16Modbus => assert known[0] == 0x8005;
    case Crc16Ccitt => assert known[1] == 0x1021;
  }
}
