/** Solving a checksum rather than searching for one. */
module Solve {
  import opened Common
  import opened Sequences
  import opened LinearFold
  import opened Crc
  import opened ModbusCrc
  import opened Algorithms
  import opened Frame

  const MIN_SAMPLES := 3
  const SCREEN_SAMPLES := 3
  const KNOWN_CRC8_POLYNOMIALS: seq<Word> := [0x07, 0x1D, 0x2F, 0x31, 0x9B, 0xD5, 0x85]
  const KNOWN_CRC16_POLYNOMIALS: seq<Word> := [0x8005, 0x1021, 0x3D65, 0x8BB7, 0xC867, 0x0589, 0x080D, 0x1DCF]
  const CONVENTIONAL_INITS: seq<Word> := [0x0000, 0xFFFF]

  datatype Width = Eight | Sixteen

  datatype SolveTarget = SolveTarget(position: int, byteLength: nat, bigEndian: bool,
                                     calcStartByte: int, calcEndByte: int)

  datatype AdditiveOp = XorOp | SumOp | NegatedSumOp

  /** Everything about a CRC that a sample can rule out. */
  datatype CrcShape = CrcShape(width: Width, polynomial: Word, reflectIn: bool, reflectOut: bool)

  datatype CrcAlternative = CrcAlternative(init: Word, xorOut: Word)

  datatype CrcParameters = CrcParameters(shape: CrcShape, init: Word, xorOut: Word, wellKnown: bool,
                                         alternatives: seq<CrcAlternative>)

  datatype Specification =
    | Named(algorithm: ChecksumAlgorithm)
    | Additive(op: AdditiveOp, offset: Byte)
    | CrcSpec(crc: CrcParameters)

  /** A specification's identity ignoring what a calculation range absorbs. */
  datatype Family =
    | NamedFamily(algorithm: ChecksumAlgorithm)
    | AdditiveFamily(op: AdditiveOp)
    | CrcFamily(shape: CrcShape)

  datatype CalcRange = CalcRange(calcStartByte: int, calcEndByte: int)

  datatype SolvedChecksum = SolvedChecksum(target: SolveTarget, specification: Specification,
                                           sampleCount: nat, excludedCount: nat,
                                           equivalentRanges: seq<CalcRange>)

  datatype CrcSolveOptions = CrcSolveOptions(knownPolynomialsOnly: bool, maxSolutions: nat)

  /** One sample reduced to the bytes covered and the checksum stored alongside them. */
  datatype Observation = Observation(data: seq<Byte>, observed: Word)

  function FamilyOf(s: Specification): Family {
    match s
    case Named(algorithm) => NamedFamily(algorithm)
    case Additive(op, _) => AdditiveFamily(op)
    case CrcSpec(crc) => CrcFamily(crc.shape)
  }

  // ---------- applying a specification ----------

  function CrcValue(shape: CrcShape, init: Word, xorOut: Word, data: seq<Byte>): Word {
    match shape.width
    case Eight =>
      Widen(Crc8(data, LowByte(shape.polynomial), LowByte(init), LowByte(xorOut), shape.reflectIn))
    case Sixteen =>
      Crc16(data, shape.polynomial, init, xorOut, shape.reflectIn, shape.reflectOut)
  }

  function AdditiveValue(op: AdditiveOp, offset: Byte, data: seq<Byte>): Byte {
    match op
    case XorOp => Xor8(XorOf(data), offset)
    case SumOp => Plus(SumOf(data), offset)
    case NegatedSumOp => Minus(offset, SumOf(data))
  }

  function Calculate(s: Specification, data: seq<Byte>): Word {
    match s
    case Named(algorithm) => CalculateSimple(algorithm, data)
    case Additive(op, offset) => Widen(AdditiveValue(op, offset, data))
    case CrcSpec(crc) => CrcValue(crc.shape, crc.init, crc.xorOut, data)
  }

  // ---------- samples ----------

  function Observe(frame: seq<Byte>, target: SolveTarget): Option<Observation> {
    match CalculatedRange(|frame|, target.position, target.byteLength, target.calcStartByte, target.calcEndByte)
    case None => None
    case Some(range) =>
      Some(Observation(frame[range.0..range.1],
                       ExtractChecksum(frame, target.position, target.byteLength, target.bigEndian)))
  }

  function Observations(frames: seq<seq<Byte>>, target: SolveTarget): seq<Observation> {
    FilterMap(frames, frame => Observe(frame, target))
  }

  // ---------- additive checksums ----------

  function AdditiveResidue(op: AdditiveOp, sample: Observation): Byte {
    var observed := LowByte(sample.observed);
    match op
    case XorOp => Xor8(observed, XorOf(sample.data))
    case SumOp => Minus(observed, SumOf(sample.data))
    case NegatedSumOp => Plus(observed, SumOf(sample.data))
  }

  predicate AdditiveAgrees(op: AdditiveOp, samples: seq<Observation>)
    requires samples != []
  {
    forall i :: 1 <= i < |samples| ==> AdditiveResidue(op, samples[i]) == AdditiveResidue(op, samples[0])
  }

  function SolveAdditive(frames: seq<seq<Byte>>, target: SolveTarget): Option<SolvedChecksum> {
    var samples := Observations(frames, target);
    if target.byteLength != 1 || |samples| < MIN_SAMPLES then None
    else if AdditiveAgrees(XorOp, samples) then Some(AdditiveSolution(XorOp, samples, target))
    else if AdditiveAgrees(SumOp, samples) then Some(AdditiveSolution(SumOp, samples, target))
    else if AdditiveAgrees(NegatedSumOp, samples) then Some(AdditiveSolution(NegatedSumOp, samples, target))
    else None
  }

  function AdditiveSolution(op: AdditiveOp, samples: seq<Observation>, target: SolveTarget): SolvedChecksum
    requires samples != []
  {
    SolvedChecksum(target, Additive(op, AdditiveResidue(op, samples[0])), |samples|, 0, [])
  }

  // ---------- the residue of a CRC ----------

  function Residue(shape: CrcShape, sample: Observation): Word {
    Xor16(sample.observed, CrcValue(shape, 0, 0, sample.data))
  }

  /** The residue shared by every sample, or `None` when two disagree or there are none. */
  function SharedResidue(shape: CrcShape, samples: seq<Observation>): Option<Word> {
    if samples != [] && forall i :: 0 <= i < |samples| ==> Residue(shape, samples[i]) == Residue(shape, samples[0])
    then Some(Residue(shape, samples[0]))
    else None
  }

  method FindSharedResidue(shape: CrcShape, samples: seq<Observation>) returns (residue: Option<Word>)
    ensures residue == SharedResidue(shape, samples)
  {
    hide Residue;
    residue := None;
    for i := 0 to |samples|
      invariant residue == if i == 0 then None else Some(Residue(shape, samples[0]))
      invariant forall j :: 0 <= j < i ==> Residue(shape, samples[j]) == Residue(shape, samples[0])
    {
      var k := Residue(shape, samples[i]);
      match residue
      case None => residue := Some(k);
      case Some(existing) =>
        if existing != k {
          return None;
        }
    }
  }

  // ---------- the samples of one length ----------

  function CountLength(samples: seq<Observation>, length: nat): nat {
    if samples == [] then 0
    else CountLength(samples[..|samples| - 1], length) + if |samples[|samples| - 1].data| == length then 1 else 0
  }

  /** More samples first, then the longer range. */
  predicate Outranks(samples: seq<Observation>, a: nat, b: nat) {
    CountLength(samples, a) > CountLength(samples, b) ||
    (CountLength(samples, a) == CountLength(samples, b) && a >= b)
  }

  /** The best length among those of the first `n` samples. */
  function BestLength(samples: seq<Observation>, n: nat): nat
    requires 0 < n <= |samples|
  {
    var last := |samples[n - 1].data|;
    if n == 1 then last
    else
      var best := BestLength(samples, n - 1);
      if Outranks(samples, best, last) then best else last
  }

  function LargestLengthGroup(samples: seq<Observation>): Option<nat> {
    if samples == [] then None else Some(BestLength(samples, |samples|))
  }

  function OfLength(samples: seq<Observation>, length: nat): seq<Observation> {
    FilterMap(samples, (s: Observation) => if |s.data| == length then Some(s) else None)
  }

  // ---------- trying polynomials ----------

  function KnownPolynomials(width: Width): seq<Word> {
    match width case Eight => KNOWN_CRC8_POLYNOMIALS case Sixteen => KNOWN_CRC16_POLYNOMIALS
  }

  function Nibble(digit: nat): bv4
    requires digit < 0x10
  {
    digit as bv4
  }

  function FromNibbles(a: bv4, b: bv4, c: bv4, d: bv4): Word {
    ((a as Word) << 12) | ((b as Word) << 8) | ((c as Word) << 4) | (d as Word)
  }

  /** The 16-bit word of an integer, a hex digit at a time. */
  function ToWord(i: nat): Word
    requires i < 0x1_0000
  {
    FromNibbles(Nibble(i / 0x1000), Nibble(i / 0x100 % 0x10), Nibble(i / 0x10 % 0x10), Nibble(i % 0x10))
  }

  function Polynomials(width: Width, options: CrcSolveOptions): seq<Word> {
    if options.knownPolynomialsOnly then KnownPolynomials(width)
    else seq(match width case Eight => 0xFF case Sixteen => 0xFFFF, i requires 0 <= i < 0xFFFF => ToWord(i + 1))
  }

  function ReflectionCombinations(width: Width): seq<(bool, bool)> {
    match width
    case Eight => [(false, false), (true, true)]
    case Sixteen => [(false, false), (true, true), (true, false), (false, true)]
  }

  function Shapes(width: Width, options: CrcSolveOptions): seq<CrcShape> {
    FlatMap(Polynomials(width, options), polynomial => ShapesOf(width, polynomial))
  }

  function ShapesOf(width: Width, polynomial: Word): seq<CrcShape> {
    var combinations := ReflectionCombinations(width);
    seq(|combinations|, i requires 0 <= i < |combinations| =>
      CrcShape(width, polynomial, combinations[i].0, combinations[i].1))
  }

  /** The `xorOut` each conventional non-zero `init` would imply for this residue. */
  function ConventionalAlternatives(shape: CrcShape, length: nat, residue: Word): seq<CrcAlternative> {
    FilterMap(CONVENTIONAL_INITS, init => Conventional(shape, length, residue, init))
  }

  function Conventional(shape: CrcShape, length: nat, residue: Word, init: Word): Option<CrcAlternative> {
    var masked := if shape.width.Eight? then init & 0x00FF else init;
    if masked == 0 then None
    else Some(CrcAlternative(masked, Xor16(residue, CrcValue(shape, masked, 0, Zeros(length)))))
  }

  function Screen(samples: seq<Observation>): seq<Observation> {
    if |samples| <= SCREEN_SAMPLES then samples else samples[..SCREEN_SAMPLES]
  }

  /** One shape against the samples: screened on the first few, then verified on all. */
  function TryShape(shape: CrcShape, length: nat, samples: seq<Observation>): Option<CrcParameters> {
    if SharedResidue(shape, Screen(samples)).None? then None
    else
      match SharedResidue(shape, samples)
      case None => None
      case Some(residue) =>
        Some(CrcParameters(shape, 0, residue, shape.polynomial in KnownPolynomials(shape.width),
                           ConventionalAlternatives(shape, length, residue)))
  }

  function Candidates(width: Width, options: CrcSolveOptions, length: nat, samples: seq<Observation>)
    : seq<CrcParameters>
  {
    FilterMap(Shapes(width, options), shape => TryShape(shape, length, samples))
  }

  function Flag(b: bool): nat { if b then 1 else 0 }

  /** A recognised standard first, then the lower polynomial, then the plainer reflection. */
  function Rank(c: CrcParameters): nat {
    ((Flag(!c.wellKnown) * 0x1_0000 + c.shape.polynomial as nat) * 2 + Flag(c.shape.reflectIn)) * 2
    + Flag(c.shape.reflectOut)
  }

  function Ranked(): (CrcParameters, CrcParameters) -> bool {
    (a: CrcParameters, b: CrcParameters) => Rank(a) <= Rank(b)
  }

  function Truncate<A>(xs: seq<A>, limit: nat): seq<A> {
    if |xs| <= limit then xs else xs[..limit]
  }

  function WidthOf(target: SolveTarget): Option<Width> {
    match target.byteLength case 1 => Some(Eight) case 2 => Some(Sixteen) case _ => None
  }

  /** The shapes that fit the samples, best first and no more than asked for. */
  function Solutions(width: Width, options: CrcSolveOptions, length: nat, samples: seq<Observation>)
    : seq<CrcParameters>
  {
    Truncate(Sort(Candidates(width, options, length, samples), Ranked()), options.maxSolutions)
  }

  function Reported(target: SolveTarget, crcs: seq<CrcParameters>, used: nat, excluded: nat): (r: seq<SolvedChecksum>)
    ensures |r| == |crcs|
  {
    seq(|crcs|, i requires 0 <= i < |crcs| => SolvedChecksum(target, CrcSpec(crcs[i]), used, excluded, []))
  }

  function SolveCrc(frames: seq<seq<Byte>>, target: SolveTarget, options: CrcSolveOptions): seq<SolvedChecksum> {
    var all := Observations(frames, target);
    match (WidthOf(target), LargestLengthGroup(all))
    case (Some(width), Some(length)) =>
      var samples := OfLength(all, length);
      if |samples| < MIN_SAMPLES then []
      else Reported(target, Solutions(width, options, length, samples), |samples|, |all| - |samples|)
    case _ => []
  }

  // ---------- every target, with duplicates folded ----------

  function Widest(): (SolvedChecksum, SolvedChecksum) -> bool {
    (a: SolvedChecksum, b: SolvedChecksum) =>
      a.target.calcStartByte < b.target.calcStartByte ||
      (a.target.calcStartByte == b.target.calcStartByte && a.target.calcEndByte >= b.target.calcEndByte)
  }

  predicate Same(k: SolvedChecksum, s: SolvedChecksum) {
    && k.target.position == s.target.position
    && k.target.byteLength == s.target.byteLength
    && k.target.bigEndian == s.target.bigEndian
    && FamilyOf(k.specification) == FamilyOf(s.specification)
  }

  function RangeOf(s: SolvedChecksum): CalcRange {
    CalcRange(s.target.calcStartByte, s.target.calcEndByte)
  }

  /** Add one solution to those kept: as another range of the entry it repeats, or as a new entry. */
  function Fold1(kept: seq<SolvedChecksum>, s: SolvedChecksum): seq<SolvedChecksum> {
    if kept == [] then [s]
    else if Same(kept[0], s) then
      [kept[0].(equivalentRanges := kept[0].equivalentRanges + [RangeOf(s)])] + kept[1..]
    else [kept[0]] + Fold1(kept[1..], s)
  }

  function FoldAll(solutions: seq<SolvedChecksum>): seq<SolvedChecksum> {
    if solutions == [] then [] else Fold1(FoldAll(solutions[..|solutions| - 1]), solutions[|solutions| - 1])
  }

  function Collapse(solutions: seq<SolvedChecksum>): seq<SolvedChecksum> {
    FoldAll(Sort(solutions, Widest()))
  }

  function SolveTargetAll(frames: seq<seq<Byte>>, target: SolveTarget, options: CrcSolveOptions): seq<SolvedChecksum> {
    (match SolveAdditive(frames, target) case Some(s) => [s] case None => []) + SolveCrc(frames, target, options)
  }

  function SolveAll(frames: seq<seq<Byte>>, targets: seq<SolveTarget>, options: CrcSolveOptions): seq<SolvedChecksum> {
    Collapse(FlatMap(targets, target => SolveTargetAll(frames, target, options)))
  }
}
