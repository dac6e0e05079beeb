/** What the two counts of a sweep count. */
module SweepCounts {
  import opened Common
  import opened Sweep

  /** A frame is evidence about a specification, or it is not. */
  predicate IsEvidence(frames: seq<seq<Byte>>, spec: ChecksumSpec, k: nat) {
    k < |frames| && Verdict(frames[k], spec) != None
  }

  predicate Agrees(frames: seq<seq<Byte>>, spec: ChecksumSpec, k: nat) {
    k < |frames| && Verdict(frames[k], spec) == Some(true)
  }

  /** The frames that are evidence. */
  function Fitting(frames: seq<seq<Byte>>, spec: ChecksumSpec): set<nat> {
    set k: nat | k < |frames| && IsEvidence(frames, spec, k) :: k
  }

  /** And those that agree with it. */
  function Agreeing(frames: seq<seq<Byte>>, spec: ChecksumSpec): set<nat> {
    set k: nat | k < |frames| && Agrees(frames, spec, k) :: k
  }

  lemma OfTheFront(frames: seq<seq<Byte>>, spec: ChecksumSpec, n: nat, k: nat)
    requires n < |frames|
    ensures IsEvidence(frames[..n], spec, k) <==> k < n && IsEvidence(frames, spec, k)
    ensures Agrees(frames[..n], spec, k) <==> k < n && Agrees(frames, spec, k)
  {
    hide Verdict;
  }

  lemma OneMore(frames: seq<seq<Byte>>, spec: ChecksumSpec, n: nat)
    requires |frames| == n + 1
    ensures Fitting(frames, spec) == Fitting(frames[..n], spec) + if IsEvidence(frames, spec, n) then {n} else {}
    ensures Agreeing(frames, spec) == Agreeing(frames[..n], spec) + if Agrees(frames, spec, n) then {n} else {}
    ensures n !in Fitting(frames[..n], spec) && n !in Agreeing(frames[..n], spec)
  {
    hide IsEvidence, Agrees;
    forall k: nat {
      OfTheFront(frames, spec, n, k);
    }
  }

  lemma {:induction false} TallyIs(frames: seq<seq<Byte>>, spec: ChecksumSpec)
    ensures Tally(frames, spec) == (|Agreeing(frames, spec)|, |Fitting(frames, spec)|)
  {
    hide Verdict, Fitting, Agreeing;
    if frames == [] {
      NoFrames(spec);
    } else {
      var n := |frames| - 1;
      TallyIs(frames[..n], spec);
      OneMore(frames, spec, n);
    }
  }

  lemma NoFrames(spec: ChecksumSpec)
    ensures Fitting([], spec) == {} && Agreeing([], spec) == {}
  {
  }

  /** What is reported of a sweep: every specification that some frame fits, with how many fit and how many agree. */
  lemma ReportedIff(frames: seq<seq<Byte>>, specs: seq<ChecksumSpec>, r: SpecResult)
    ensures r in Naive(frames, specs, 0) <==>
            && r.specIndex < |specs|
            && r.totalCount == |Fitting(frames, specs[r.specIndex])| > 0
            && r.matchCount == |Agreeing(frames, specs[r.specIndex])|
  {
    hide Naive, Tally, Fitting, Agreeing;
    NaiveIn(frames, specs, 0, r);
    if r.specIndex < |specs| {
      TallyIs(frames, specs[r.specIndex]);
    }
  }
}
