/** What `SolveCrc` reports: everything that fits, nothing that does not, and nothing twice. */
module SolveTheorems {
  import opened Common
  import opened Sequences
  import opened Crc
  import opened Frame
  import opened Solve
  import opened SolveExactness

  /** The samples a CRC is solved against: the largest group whose ranges have one length. */
  function Group(frames: seq<seq<Byte>>, target: SolveTarget): seq<Observation> {
    var all := Observations(frames, target);
    match LargestLengthGroup(all)
    case None => []
    case Some(length) => OfLength(all, length)
  }

  // ---------- the group ----------

  lemma {:induction false} BestLengthOutranks(samples: seq<Observation>, n: nat, i: nat)
    requires i < n <= |samples|
    ensures Outranks(samples, BestLength(samples, n), |samples[i].data|)
    ensures exists j :: 0 <= j < n && BestLength(samples, n) == |samples[j].data|
    decreases n
  {
    hide CountLength;
    if n > 1 {
      BestLengthOutranks(samples, n - 1, if i < n - 1 then i else 0);
    }
  }

  /** No length has more samples than the one chosen, and none as common is longer. */
  lemma LargestGroup(samples: seq<Observation>, s: Observation)
    requires s in samples
    ensures LargestLengthGroup(samples).Some?
    ensures var best := LargestLengthGroup(samples).value;
            && Outranks(samples, best, |s.data|)
            && exists t :: t in samples && |t.data| == best
  {
    var i :| 0 <= i < |samples| && samples[i] == s;
    BestLengthOutranks(samples, |samples|, i);
  }

  lemma {:induction false} CountPositive(samples: seq<Observation>, length: nat)
    ensures CountLength(samples, length) > 0 <==> exists i :: 0 <= i < |samples| && |samples[i].data| == length
  {
    if samples != [] {
      var n := |samples| - 1;
      CountPositive(samples[..n], length);
    }
  }

  method TallyLengths(samples: seq<Observation>) returns (counts: map<nat, nat>)
    ensures forall length :: length in counts <==> CountLength(samples, length) > 0
    ensures forall length :: length in counts ==> counts[length] == CountLength(samples, length)
  {
    counts := map[];
    for i := 0 to |samples|
      invariant forall length :: length in counts <==> CountLength(samples[..i], length) > 0
      invariant forall length :: length in counts ==> counts[length] == CountLength(samples[..i], length)
    {
      assert samples[..i + 1][..i] == samples[..i];
      var length := |samples[i].data|;
      counts := counts[length := (if length in counts then counts[length] else 0) + 1];
    }
    assert samples[..|samples|] == samples;
  }

  /** The tally's entries in any order: the one with most samples, the longer on a tie. */
  method FindLargestLengthGroup(samples: seq<Observation>) returns (length: Option<nat>)
    ensures length == LargestLengthGroup(samples)
  {
    hide CountLength;
    var counts := TallyLengths(samples);
    var left := counts.Keys;
    length := None;
    while left != {}
      invariant left <= counts.Keys
      invariant length.None? ==> left == counts.Keys
      invariant length.Some? ==> length.value in counts
      invariant length.Some? ==> forall k :: k in counts && k !in left ==>
        counts[length.value] > counts[k] || (counts[length.value] == counts[k] && length.value >= k)
      decreases left
    {
      var l :| l in left;
      left := left - {l};
      if length.None? || counts[l] > counts[length.value] ||
         (counts[l] == counts[length.value] && l > length.value) {
        length := Some(l);
      }
    }
    GroupIsUnique(samples, length, counts);
  }

  lemma GroupIsUnique(samples: seq<Observation>, length: Option<nat>, counts: map<nat, nat>)
    requires forall l :: l in counts <==> CountLength(samples, l) > 0
    requires length.None? ==> counts == map[]
    requires length.Some? ==> length.value in counts && forall l :: l in counts ==> Outranks(samples, length.value, l)
    ensures length == LargestLengthGroup(samples)
  {
    hide CountLength;
    if samples != [] {
      CountPositive(samples, |samples[0].data|);
      CountPositive(samples, length.value);
      var i :| 0 <= i < |samples| && |samples[i].data| == length.value;
      BestLengthOutranks(samples, |samples|, i);
      CountPositive(samples, BestLength(samples, |samples|));
    } else if length.Some? {
      CountPositive(samples, length.value);
    }
  }

  lemma OfLengthIn(samples: seq<Observation>, length: nat, s: Observation)
    ensures s in OfLength(samples, length) <==> s in samples && |s.data| == length
  {
    FilterMapIn(samples, (s: Observation) => if |s.data| == length then Some(s) else None, s);
  }

  lemma OfLengthEqual(samples: seq<Observation>, length: nat)
    ensures EqualLength(OfLength(samples, length), length)
  {
    var group := OfLength(samples, length);
    forall i | 0 <= i < |group| ensures |group[i].data| == length {
      OfLengthIn(samples, length, group[i]);
    }
  }

  lemma ByteFits(b: Byte)
    ensures Masked(Eight, Widen(b)) == Widen(b) && Masked(Eight, 0) == 0
  {
  }

  lemma ObservationFits(frame: seq<Byte>, target: SolveTarget)
    requires Observe(frame, target).Some? && target.byteLength == 1
    ensures var observed := Observe(frame, target).value.observed; Masked(Eight, observed) == observed
  {
    hide Masked, Widen;
    ByteFits(0);
    var start := ResolveByteIndex(target.position, |frame|);
    ByteFits(frame[start]);
  }

  lemma GroupFits(frames: seq<seq<Byte>>, target: SolveTarget, width: Width)
    requires WidthOf(target) == Some(width)
    ensures FitsWidth(width, Group(frames, target))
  {
    var all := Observations(frames, target);
    if width.Eight? && LargestLengthGroup(all).Some? {
      hide Masked, ExtractChecksum, Observe;
      var length := LargestLengthGroup(all).value;
      var group := OfLength(all, length);
      forall i | 0 <= i < |group| ensures Masked(width, group[i].observed) == group[i].observed {
        OfLengthIn(all, length, group[i]);
        FilterMapIn(frames, frame => Observe(frame, target), group[i]);
        var frame :| frame in frames && Observe(frame, target) == Some(group[i]);
        ObservationFits(frame, target);
      }
    }
  }

  lemma GroupEqual(frames: seq<seq<Byte>>, target: SolveTarget)
    requires Group(frames, target) != []
    ensures LargestLengthGroup(Observations(frames, target)).Some?
    ensures EqualLength(Group(frames, target), LargestLengthGroup(Observations(frames, target)).value)
  {
    var all := Observations(frames, target);
    OfLengthEqual(all, LargestLengthGroup(all).value);
  }

  // ---------- candidates ----------

  /** Screening on the first few samples discards nothing that would have passed on all. */
  lemma ScreeningLosesNothing(shape: CrcShape, length: nat, samples: seq<Observation>)
    ensures TryShape(shape, length, samples).Some? <==> SharedResidue(shape, samples).Some?
    ensures TryShape(shape, length, samples).Some? ==>
            var c := TryShape(shape, length, samples).value;
            && c.shape == shape && c.init == 0 && c.xorOut == SharedResidue(shape, samples).value
            && c.wellKnown == (shape.polynomial in KnownPolynomials(shape.width))
            && c.alternatives == ConventionalAlternatives(shape, length, c.xorOut)
  {
    hide Residue, ConventionalAlternatives;
  }

  lemma CandidateIn(width: Width, options: CrcSolveOptions, length: nat, samples: seq<Observation>, c: CrcParameters)
    ensures c in Candidates(width, options, length, samples) <==>
            c.shape in Shapes(width, options) && TryShape(c.shape, length, samples) == Some(c)
  {
    hide Shapes, TryShape;
    var f := shape => TryShape(shape, length, samples);
    FilterMapIn(Shapes(width, options), f, c);
    forall shape
      ensures TryShape(shape, length, samples).Some? ==> TryShape(shape, length, samples).value.shape == shape
    {
      ScreeningLosesNothing(shape, length, samples);
    }
  }

  lemma RankedTotal()
    ensures TotalPreorder(Ranked())
  {
    hide Rank;
  }

  /** A fitting shape is reported, or pushed out by a full list of shapes ranked no lower. */
  lemma SolutionsComplete(
    width: Width, options: CrcSolveOptions, length: nat, samples: seq<Observation>, c: CrcParameters)
    requires c in Candidates(width, options, length, samples)
    ensures var solutions := Solutions(width, options, length, samples);
            c in solutions ||
            (|solutions| == options.maxSolutions && forall s :: s in solutions ==> Rank(s) <= Rank(c))
  {
    hide Candidates, Rank;
    var sorted := Sort(Candidates(width, options, length, samples), Ranked());
    RankedTotal();
    SortSorted(Candidates(width, options, length, samples), Ranked());
    SortIn(Candidates(width, options, length, samples), Ranked(), c);
    var j :| 0 <= j < |sorted| && sorted[j] == c;
  }

  lemma SolutionsSound(width: Width, options: CrcSolveOptions, length: nat, samples: seq<Observation>, c: CrcParameters)
    requires c in Solutions(width, options, length, samples)
    ensures c in Candidates(width, options, length, samples)
  {
    hide Candidates, Rank;
    SortIn(Candidates(width, options, length, samples), Ranked(), c);
  }

  // ---------- the solver ----------

  predicate ReproducesAll(c: CrcParameters, samples: seq<Observation>) {
    && Reproduces(c.shape, c.init, c.xorOut, samples)
    && forall i :: 0 <= i < |c.alternatives| ==>
         Reproduces(c.shape, c.alternatives[i].init, c.alternatives[i].xorOut, samples)
  }

  lemma SolveCrcIs(frames: seq<seq<Byte>>, target: SolveTarget, options: CrcSolveOptions, width: Width)
    requires WidthOf(target) == Some(width) && |Group(frames, target)| >= MIN_SAMPLES
    ensures var all := Observations(frames, target);
            var group := Group(frames, target);
            && LargestLengthGroup(all).Some? && |group| <= |all|
            && SolveCrc(frames, target, options) ==
               Reported(target, Solutions(width, options, LargestLengthGroup(all).value, group),
                        |group|, |all| - |group|)
  {
    hide Solutions, Reported, LargestLengthGroup, OfLength, Observations;
    var all := Observations(frames, target);
    assert |OfLength(all, LargestLengthGroup(all).value)| <= |all| by {
      OfLengthShorter(all, LargestLengthGroup(all).value);
    }
  }

  lemma OfLengthShorter(samples: seq<Observation>, length: nat)
    ensures |OfLength(samples, length)| <= |samples|
  {
  }

  /** Every reported pair and every listed alternative reproduces every sample of the group. */
  lemma SolveCrcSound(frames: seq<seq<Byte>>, target: SolveTarget, options: CrcSolveOptions, solved: SolvedChecksum)
    requires solved in SolveCrc(frames, target, options)
    ensures solved.target == target && solved.specification.CrcSpec? && solved.equivalentRanges == []
    ensures solved.specification.crc.init == 0
    ensures ReproducesAll(solved.specification.crc, Group(frames, target))
    ensures solved.sampleCount == |Group(frames, target)|
    ensures solved.sampleCount + solved.excludedCount == |Observations(frames, target)|
  {
    hide SharedResidue, Reproduces, Solutions, Observations, Group, EqualLength, FitsWidth, TryShape, Candidates,
         ConventionalAlternatives, Shapes;
    var width, group := WidthOf(target).value, Group(frames, target);
    NoSolutionsWithoutSamples(frames, target, options);
    SolveCrcIs(frames, target, options, width);
    var length := LargestLengthGroup(Observations(frames, target)).value;
    var c := solved.specification.crc;
    SolutionsSound(width, options, length, group, c);
    CandidateIn(width, options, length, group, c);
    ScreeningLosesNothing(c.shape, length, group);
    GroupFits(frames, target, width);
    GroupEqual(frames, target);
    ShapeWidth(width, options, c.shape);
    CanonicalReproduces(c.shape, group, length);
    forall i | 0 <= i < |c.alternatives|
      ensures Reproduces(c.shape, c.alternatives[i].init, c.alternatives[i].xorOut, group)
    {
      AlternativesReproduce(c.shape, group, length, c.alternatives[i]);
    }
  }

  lemma NoSolutionsWithoutSamples(frames: seq<seq<Byte>>, target: SolveTarget, options: CrcSolveOptions)
    requires SolveCrc(frames, target, options) != []
    ensures WidthOf(target).Some? && |Group(frames, target)| >= MIN_SAMPLES
  {
    hide Solutions, LargestLengthGroup, OfLength, Observations;
  }

  lemma ShapeWidth(width: Width, options: CrcSolveOptions, shape: CrcShape)
    requires shape in Shapes(width, options)
    ensures shape.width == width
  {
    hide Polynomials;
    FlatMapIn(Polynomials(width, options), polynomial => ShapesOf(width, polynomial), shape);
  }

  /**
   A tried shape that some `init` and `xorOut` would reproduce the group with is reported,
   unless the list is full of shapes ranked no lower.
   */
  lemma SolveCrcComplete(frames: seq<seq<Byte>>, target: SolveTarget, options: CrcSolveOptions, width: Width,
                         shape: CrcShape, init: Word, xorOut: Word)
    requires WidthOf(target) == Some(width) && |Group(frames, target)| >= MIN_SAMPLES
    requires shape in Shapes(width, options)
    requires Reproduces(shape, init, xorOut, Group(frames, target))
    ensures var solved := SolveCrc(frames, target, options);
            || (exists i ::
                  0 <= i < |solved| && solved[i].specification.CrcSpec? && solved[i].specification.crc.shape == shape)
            || (|solved| == options.maxSolutions && forall i :: 0 <= i < |solved| ==>
                  solved[i].specification.CrcSpec? && Rank(solved[i].specification.crc) <= RankOfShape(shape))
  {
    hide SharedResidue, Reproduces, Solutions, Observations, Group, EqualLength, FitsWidth, TryShape, Candidates,
         ConventionalAlternatives, Shapes, Rank;
    var group := Group(frames, target);
    ShapeWidth(width, options, shape);
    GroupFits(frames, target, width);
    GroupEqual(frames, target);
    var length := LargestLengthGroup(Observations(frames, target)).value;
    SharedResidueIff(shape, group, length);
    ScreeningLosesNothing(shape, length, group);
    var c := TryShape(shape, length, group).value;
    CandidateIn(width, options, length, group, c);
    SolutionsComplete(width, options, length, group, c);
    SolveCrcIs(frames, target, options, width);
    RankIsOfShape(c);
    var solutions, solved := Solutions(width, options, length, group), SolveCrc(frames, target, options);
    assert forall i :: 0 <= i < |solved| ==> solved[i].specification == CrcSpec(solutions[i]);
    if c in solutions {
      var i :| 0 <= i < |solutions| && solutions[i] == c;
      assert solved[i].specification.crc.shape == shape;
    }
  }

  function RankOfShape(shape: CrcShape): nat {
    Rank(CrcParameters(shape, 0, 0, shape.polynomial in KnownPolynomials(shape.width), []))
  }

  lemma RankIsOfShape(c: CrcParameters)
    requires c.wellKnown == (c.shape.polynomial in KnownPolynomials(c.shape.width))
    ensures Rank(c) == RankOfShape(c.shape)
  {
  }

  /** What is reported as well known is. */
  lemma ReportedAsKnown(frames: seq<seq<Byte>>, target: SolveTarget, options: CrcSolveOptions, width: Width,
                        solved: SolvedChecksum)
    requires WidthOf(target) == Some(width) && solved in SolveCrc(frames, target, options)
    ensures solved.specification.CrcSpec? && solved.specification.crc.shape.width == width
    ensures var c := solved.specification.crc;
            c.wellKnown == (c.shape.polynomial in KnownPolynomials(width))
  {
    hide Solutions, Observations, Group, TryShape, Candidates, Shapes, KnownPolynomials;
    NoSolutionsWithoutSamples(frames, target, options);
    SolveCrcIs(frames, target, options, width);
    var group, length := Group(frames, target), LargestLengthGroup(Observations(frames, target)).value;
    var c := solved.specification.crc;
    SolutionsSound(width, options, length, group, c);
    CandidateIn(width, options, length, group, c);
    ScreeningLosesNothing(c.shape, length, group);
    ShapeWidth(width, options, c.shape);
  }

  // ---------- nothing twice ----------

  lemma NibbleInjective(i: nat, j: nat)
    requires i < 0x10 && j < 0x10 && Nibble(i) == Nibble(j)
    ensures i == j
  {
    assert (i as bv4) as int == i;
    assert (j as bv4) as int == j;
  }

  lemma DigitsDetermine(i: nat, j: nat)
    requires i / 0x1000 == j / 0x1000 && i / 0x100 % 0x10 == j / 0x100 % 0x10
    requires i / 0x10 % 0x10 == j / 0x10 % 0x10 && i % 0x10 == j % 0x10
    ensures i == j
  {
    assert i / 0x10 / 0x10 / 0x10 == i / 0x1000 && i / 0x10 / 0x10 == i / 0x100;
    assert j / 0x10 / 0x10 / 0x10 == j / 0x1000 && j / 0x10 / 0x10 == j / 0x100;
  }

  lemma NibblesInjective(a: bv4, b: bv4, c: bv4, d: bv4, e: bv4, f: bv4, g: bv4, h: bv4)
    requires FromNibbles(a, b, c, d) == FromNibbles(e, f, g, h)
    ensures a == e && b == f && c == g && d == h
  {
  }

  lemma WordsApart(i: nat, j: nat)
    requires i < j < 0x1_0000
    ensures ToWord(i) != ToWord(j)
  {
    hide FromNibbles, Nibble;
    if ToWord(i) == ToWord(j) {
      NibblesInjective(Nibble(i / 0x1000), Nibble(i / 0x100 % 0x10), Nibble(i / 0x10 % 0x10), Nibble(i % 0x10),
                       Nibble(j / 0x1000), Nibble(j / 0x100 % 0x10), Nibble(j / 0x10 % 0x10), Nibble(j % 0x10));
      NibbleInjective(i / 0x1000, j / 0x1000);
      NibbleInjective(i / 0x100 % 0x10, j / 0x100 % 0x10);
      NibbleInjective(i / 0x10 % 0x10, j / 0x10 % 0x10);
      NibbleInjective(i % 0x10, j % 0x10);
      DigitsDetermine(i, j);
    }
  }

  lemma KnownDistinct(width: Width)
    ensures Distinct(KnownPolynomials(width))
  {
  }

  lemma PolynomialsDistinct(width: Width, options: CrcSolveOptions)
    ensures Distinct(Polynomials(width, options))
  {
    hide ToWord, KnownPolynomials;
    KnownDistinct(width);
    var ps := Polynomials(width, options);
    if !options.knownPolynomialsOnly {
      forall i, j | 0 <= i < j < |ps| ensures ps[i] != ps[j] {
        WordsApart(i + 1, j + 1);
      }
    }
  }

  lemma {:induction false} FlatShapesDistinct(width: Width, ps: seq<Word>)
    requires Distinct(ps)
    ensures Distinct(FlatMap(ps, polynomial => ShapesOf(width, polynomial)))
  {
    if ps != [] {
      var f := polynomial => ShapesOf(width, polynomial);
      FlatShapesDistinct(width, ps[1..]);
      forall shape: CrcShape | shape in FlatMap(ps[1..], f) ensures shape.polynomial in ps[1..] {
        FlatMapIn(ps[1..], f, shape);
      }
      assert ps[0] !in ps[1..];
      assert forall shape: CrcShape :: shape in f(ps[0]) ==> shape.polynomial == ps[0];
    }
  }

  lemma {:induction false} FilterMapDistinct(shapes: seq<CrcShape>, length: nat, samples: seq<Observation>)
    requires Distinct(shapes)
    ensures Distinct(FilterMap(shapes, shape => TryShape(shape, length, samples)))
  {
    hide TryShape;
    if shapes != [] {
      var f := shape => TryShape(shape, length, samples);
      FilterMapDistinct(shapes[1..], length, samples);
      ScreeningLosesNothing(shapes[0], length, samples);
      if f(shapes[0]).Some? {
        var c := f(shapes[0]).value;
        if c in FilterMap(shapes[1..], f) {
          FilterMapIn(shapes[1..], f, c);
          var shape :| shape in shapes[1..] && f(shape) == Some(c);
          ScreeningLosesNothing(shape, length, samples);
          assert false;
        }
      }
    }
  }

  /** No shape is reported twice. */
  lemma SolveCrcDistinct(frames: seq<seq<Byte>>, target: SolveTarget, options: CrcSolveOptions, i: nat, j: nat)
    requires i < j < |SolveCrc(frames, target, options)|
    ensures SolveCrc(frames, target, options)[i].specification != SolveCrc(frames, target, options)[j].specification
  {
    hide Observations, Group, Candidates, Shapes, TryShape;
    var solved := SolveCrc(frames, target, options);
    NoSolutionsWithoutSamples(frames, target, options);
    var width, group := WidthOf(target).value, Group(frames, target);
    SolveCrcIs(frames, target, options, width);
    var length := LargestLengthGroup(Observations(frames, target)).value;
    var solutions := Solutions(width, options, length, group);
    CandidatesDistinct(width, options, length, group);
    SortDistinct(Candidates(width, options, length, group), Ranked());
    assert Distinct(solutions);
    assert solved[i].specification == CrcSpec(solutions[i]) && solved[j].specification == CrcSpec(solutions[j]);
  }

  lemma CandidatesDistinct(width: Width, options: CrcSolveOptions, length: nat, samples: seq<Observation>)
    ensures Distinct(Candidates(width, options, length, samples))
  {
    hide Polynomials, TryShape, Distinct;
    PolynomialsDistinct(width, options);
    FlatShapesDistinct(width, Polynomials(width, options));
    FilterMapDistinct(Shapes(width, options), length, samples);
  }

  // ---------- nothing left untried ----------

  function Digit(p: Word, k: nat): bv4 {
    match k
    case 0 => (p & 0xF) as bv4
    case 1 => ((p >> 4) & 0xF) as bv4
    case 2 => ((p >> 8) & 0xF) as bv4
    case _ => (p >> 12) as bv4
  }

  lemma DigitsRebuild(p: Word)
    ensures FromNibbles(Digit(p, 3), Digit(p, 2), Digit(p, 1), Digit(p, 0)) == p
  {
  }

  function DigitValue(p: Word, k: nat): (d: nat)
    ensures d < 0x10
  {
    Digit(p, k) as nat
  }

  lemma NibbleReached(p: Word, k: nat)
    ensures Nibble(DigitValue(p, k)) == Digit(p, k)
    ensures Digit(p, k) == 0 <==> DigitValue(p, k) == 0
  {
    hide Digit;
  }

  function Number(p: Word): nat {
    DigitValue(p, 3) * 0x1000 + DigitValue(p, 2) * 0x100 + DigitValue(p, 1) * 0x10 + DigitValue(p, 0)
  }

  lemma HexDigits(a: nat, b: nat, c: nat, d: nat)
    requires a < 0x10 && b < 0x10 && c < 0x10 && d < 0x10
    ensures var i := a * 0x1000 + b * 0x100 + c * 0x10 + d;
            i < 0x1_0000 && i / 0x1000 == a && i / 0x100 % 0x10 == b && i / 0x10 % 0x10 == c && i % 0x10 == d
  {
    var i := a * 0x1000 + b * 0x100 + c * 0x10 + d;
    assert i / 0x100 == a * 0x10 + b && i / 0x10 == a * 0x100 + b * 0x10 + c;
  }

  lemma WordReached(p: Word)
    ensures Number(p) < 0x1_0000 && ToWord(Number(p)) == p
    ensures Digit(p, 3) == 0 && Digit(p, 2) == 0 ==> Number(p) < 0x100
  {
    hide Digit, DigitValue, Nibble, FromNibbles;
    DigitsRebuild(p);
    NibbleReached(p, 0);
    NibbleReached(p, 1);
    NibbleReached(p, 2);
    NibbleReached(p, 3);
    HexDigits(DigitValue(p, 3), DigitValue(p, 2), DigitValue(p, 1), DigitValue(p, 0));
  }

  lemma ZeroIsZero()
    ensures ToWord(0) == 0
  {
  }

  lemma ByteHasTwoDigits(p: Word)
    requires Masked(Eight, p) == p
    ensures Digit(p, 3) == 0 && Digit(p, 2) == 0
  {
  }

  /** Without the shortcut, every non-zero polynomial of the width is tried under every reflection. */
  lemma EveryShapeTried(width: Width, options: CrcSolveOptions, shape: CrcShape)
    requires !options.knownPolynomialsOnly && shape.width == width
    requires shape.polynomial != 0 && Masked(width, shape.polynomial) == shape.polynomial
    requires width.Eight? ==> shape.reflectIn == shape.reflectOut
    ensures shape in Shapes(width, options)
  {
    hide ToWord, Digit, Number;
    var p := shape.polynomial;
    WordReached(p);
    ZeroIsZero();
    if width.Eight? {
      ByteHasTwoDigits(p);
    }
    hide Masked, ShapesOf, FlatMap;
    var ps := Polynomials(width, options);
    assert ps[Number(p) - 1] == p;
    ReflectionTried(shape);
    var f := polynomial => ShapesOf(width, polynomial);
    assert p in ps && shape in f(p);
    FlatMapIn(ps, f, shape);
  }

  lemma ReflectionTried(shape: CrcShape)
    requires shape.width.Eight? ==> shape.reflectIn == shape.reflectOut
    ensures shape in ShapesOf(shape.width, shape.polynomial)
  {
    var shapes := ShapesOf(shape.width, shape.polynomial);
    match (shape.width, shape.reflectIn, shape.reflectOut)
    case (_, false, false) => assert shapes[0] == shape;
    case (_, true, true) => assert shapes[1] == shape;
    case (_, true, false) => assert shapes[2] == shape;
    case (_, false, true) => assert shapes[3] == shape;
  }
}
