/** The whole solver: every target solved, every answer accounted for once. */
module SolveAllTheorems {
  import opened Common
  import opened Sequences
  import opened Solve
  import opened SolveTheorems
  import opened AdditiveExactness
  import opened Collapse

  lemma SolveTargetUnfolded(frames: seq<seq<Byte>>, target: SolveTarget, options: CrcSolveOptions, s: SolvedChecksum)
    requires s in SolveTargetAll(frames, target, options)
    ensures s.equivalentRanges == [] && s.target == target
  {
    hide SolveCrc;
    if s in SolveCrc(frames, target, options) {
      SolveCrcSound(frames, target, options, s);
    }
  }

  function Answers(frames: seq<seq<Byte>>, targets: seq<SolveTarget>, options: CrcSolveOptions): seq<SolvedChecksum> {
    FlatMap(targets, target => SolveTargetAll(frames, target, options))
  }

  lemma AnswersUnfolded(frames: seq<seq<Byte>>, targets: seq<SolveTarget>, options: CrcSolveOptions)
    ensures Unfolded(Answers(frames, targets, options))
  {
    hide SolveTargetAll;
    var answers := Answers(frames, targets, options);
    forall i | 0 <= i < |answers| ensures answers[i].equivalentRanges == [] {
      FlatMapIn(targets, target => SolveTargetAll(frames, target, options), answers[i]);
      var target :| target in targets && answers[i] in SolveTargetAll(frames, target, options);
      SolveTargetUnfolded(frames, target, options, answers[i]);
    }
  }

  /** Every answer any target gives is reported exactly once, under the widest range that gives it. */
  lemma SolveAllAccountsForEveryAnswer(frames: seq<seq<Byte>>, targets: seq<SolveTarget>, options: CrcSolveOptions)
    ensures AllAccounts(SolveAll(frames, targets, options)) == AsAnswers(Answers(frames, targets, options))
    ensures forall i :: 0 <= i < |SolveAll(frames, targets, options)| ==>
              KeepsWidest(SolveAll(frames, targets, options)[i])
    ensures forall i, j :: 0 <= i < j < |SolveAll(frames, targets, options)| ==>
              KeyOf(SolveAll(frames, targets, options)[i]) != KeyOf(SolveAll(frames, targets, options)[j])
  {
    hide SolveTargetAll, Collapse.AllAccounts, AsAnswers, KeepsWidest, KeyOf, Solve.Collapse;
    var answers := Answers(frames, targets, options);
    AnswersUnfolded(frames, targets, options);
    CollapseConserves(answers);
    forall i | 0 <= i < |Solve.Collapse(answers)| ensures KeepsWidest(Solve.Collapse(answers)[i]) {
      CollapseWidest(answers, i);
    }
    forall i, j | 0 <= i < j < |Solve.Collapse(answers)|
      ensures KeyOf(Solve.Collapse(answers)[i]) != KeyOf(Solve.Collapse(answers)[j])
    {
      CollapseDistinct(answers, i, j);
    }
  }

  /** A solution that reproduces the samples of its own target. */
  ghost predicate Explains(frames: seq<seq<Byte>>, s: SolvedChecksum) {
    match s.specification
    case Named(_) => false
    case Additive(op, offset) => AdditiveFits(op, offset, Observations(frames, s.target))
    case CrcSpec(crc) => ReproducesAll(crc, Group(frames, s.target))
  }

  lemma AnswerExplains(frames: seq<seq<Byte>>, target: SolveTarget, options: CrcSolveOptions, s: SolvedChecksum)
    requires s in SolveTargetAll(frames, target, options)
    ensures s.target == target && Explains(frames, s)
  {
    hide SolveCrc, SolveAdditive, AdditiveFits, ReproducesAll, Observations, Group;
    if s in SolveCrc(frames, target, options) {
      SolveCrcSound(frames, target, options, s);
    } else {
      SolveAdditiveExact(frames, target);
      AdditiveTarget(frames, target);
    }
  }

  lemma AdditiveTarget(frames: seq<seq<Byte>>, target: SolveTarget)
    ensures var solved := SolveAdditive(frames, target); solved.Some? ==> solved.value.target == target
  {
    hide AdditiveResidue, Observations, AdditiveAgrees;
  }

  /**
   What a caller is told holds: every entry is an answer to one of the targets, reproduces that target's
   samples, and each range folded into it is that of another answer of the same kind.
   */
  lemma SolveAllSound(frames: seq<seq<Byte>>, targets: seq<SolveTarget>, options: CrcSolveOptions, i: nat)
    requires i < |SolveAll(frames, targets, options)|
    ensures var e := SolveAll(frames, targets, options)[i];
            && Alone(e) in Answers(frames, targets, options)
            && e.target in targets && Explains(frames, e)
            && forall r :: r in e.equivalentRanges ==>
                 exists s :: s in Answers(frames, targets, options) && KeyOf(s) == KeyOf(e) && RangeOf(s) == r
  {
    hide SolveTargetAll, Solve.Collapse, KeyOf, AdditiveFits, ReproducesAll, Observations, Group;
    var answers := Answers(frames, targets, options);
    AnswersUnfolded(frames, targets, options);
    var e := SolveAll(frames, targets, options)[i];
    CollapseSound(answers, i);
    FlatMapIn(targets, target => SolveTargetAll(frames, target, options), Alone(e));
    var target :| target in targets && Alone(e) in SolveTargetAll(frames, target, options);
    AnswerExplains(frames, target, options, Alone(e));
    forall r | r in e.equivalentRanges
      ensures exists s :: s in answers && KeyOf(s) == KeyOf(e) && RangeOf(s) == r
    {
      var s := FoldedRangeSound(answers, i, r);
    }
  }

  /** And nothing that holds goes untold: every answer to every target has an entry of its own kind. */
  lemma SolveAllComplete(frames: seq<seq<Byte>>, targets: seq<SolveTarget>, options: CrcSolveOptions,
                         target: SolveTarget, s: SolvedChecksum) returns (i: nat)
    requires target in targets && s in SolveTargetAll(frames, target, options)
    ensures i < |SolveAll(frames, targets, options)| && KeyOf(SolveAll(frames, targets, options)[i]) == KeyOf(s)
  {
    hide SolveTargetAll, Solve.Collapse, KeyOf;
    FlatMapIn(targets, target => SolveTargetAll(frames, target, options), s);
    i := CollapseComplete(Answers(frames, targets, options), s);
  }
}
