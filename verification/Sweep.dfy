/** Measuring many checksum specifications against many frames, one calculation per group. */
module Sweep {
  import opened Common
  import opened Sequences
  import opened Algorithms
  import opened Frame

  datatype ChecksumSpec = ChecksumSpec(
    algorithm: ChecksumAlgorithm, position: int, byteLength: nat, bigEndian: bool, calcStart: int, calcEnd: int)

  /** How one specification fared on the frames it fitted. */
  datatype SpecResult = SpecResult(specIndex: nat, matchCount: nat, totalCount: nat)

  // ---------- one specification on its own ----------

  /** Whether a frame is evidence about a specification, and if so whether it agrees. */
  function Verdict(frame: seq<Byte>, spec: ChecksumSpec): Option<bool> {
    match CalculatedRange(|frame|, spec.position, spec.byteLength, spec.calcStart, spec.calcEnd)
    case None => None
    case Some((start, end)) =>
      Some(ExtractChecksum(frame, spec.position, spec.byteLength, spec.bigEndian)
           == CalculateSimple(spec.algorithm, frame[start..end]))
  }

  /** Frames that fit, and among them those that agree. */
  function Tally(frames: seq<seq<Byte>>, spec: ChecksumSpec): (nat, nat) {
    if frames == [] then (0, 0)
    else
      var (matches, total) := Tally(frames[..|frames| - 1], spec);
      match Verdict(frames[|frames| - 1], spec)
      case None => (matches, total)
      case Some(agrees) => (matches + (if agrees then 1 else 0), total + 1)
  }

  function ResultOf(frames: seq<seq<Byte>>, specs: seq<ChecksumSpec>, i: nat): SpecResult
    requires i < |specs|
  {
    var (matches, total) := Tally(frames, specs[i]);
    SpecResult(i, matches, total)
  }

  /** Each specification evaluated alone, in order, and reported when any frame fitted it. */
  function Naive(frames: seq<seq<Byte>>, specs: seq<ChecksumSpec>, from: nat): seq<SpecResult>
    requires from <= |specs|
    decreases |specs| - from
  {
    if from == |specs| then []
    else
      var r := ResultOf(frames, specs, from);
      (if r.totalCount > 0 then [r] else []) + Naive(frames, specs, from + 1)
  }

  // ---------- in groups ----------

  /** Specifications with the same key calculate the same value. */
  datatype Key = Key(algorithm: ChecksumAlgorithm, calcStart: int, calcEnd: int)

  function KeyOf(spec: ChecksumSpec): Key { Key(spec.algorithm, spec.calcStart, spec.calcEnd) }

  /** A group's value for one frame, or `None` where its range is degenerate. */
  function GroupValue(key: Key, frame: seq<Byte>): Option<Word> {
    var start := Clamp(ResolveByteIndex(key.calcStart, |frame|), |frame|);
    var end := Clamp(ResolveByteIndex(key.calcEnd, |frame|), |frame|);
    if start < end then Some(CalculateSimple(key.algorithm, frame[start..end])) else None
  }

  predicate Fits(frame: seq<Byte>, spec: ChecksumSpec) {
    ResolveByteIndex(spec.position, |frame|) + spec.byteLength <= |frame|
  }

  /** Looking the group's value up and then fitting the frame is fitting the frame and then calculating. */
  lemma GroupedVerdict(frame: seq<Byte>, spec: ChecksumSpec)
    ensures Verdict(frame, spec) ==
            match GroupValue(KeyOf(spec), frame)
            case None => None
            case Some(value) =>
              if Fits(frame, spec) then
                Some(ExtractChecksum(frame, spec.position, spec.byteLength, spec.bigEndian) == value)
              else None
  {
    hide CalculateSimple, ExtractChecksum;
  }

  method Calculate(key: Key, frames: seq<seq<Byte>>) returns (values: seq<Option<Word>>)
    ensures |values| == |frames|
    ensures forall i :: 0 <= i < |frames| ==> values[i] == GroupValue(key, frames[i])
  {
    hide GroupValue;
    values := [];
    var i := 0;
    while i < |frames|
      invariant 0 <= i <= |frames| && |values| == i
      invariant forall j :: 0 <= j < i ==> values[j] == GroupValue(key, frames[j])
    {
      values := values + [GroupValue(key, frames[i])];
      i := i + 1;
    }
  }

  /** Count one member of a group over values calculated once for all of them. */
  method Count(frames: seq<seq<Byte>>, values: seq<Option<Word>>, spec: ChecksumSpec) returns (matches: nat, total: nat)
    requires |values| == |frames|
    requires forall i :: 0 <= i < |frames| ==> values[i] == GroupValue(KeyOf(spec), frames[i])
    ensures (matches, total) == Tally(frames, spec)
  {
    hide GroupValue, ExtractChecksum, Verdict, Fits;
    matches, total := 0, 0;
    var i := 0;
    while i < |frames|
      invariant 0 <= i <= |frames|
      invariant (matches, total) == Tally(frames[..i], spec)
    {
      assert frames[..i + 1][..i] == frames[..i];
      GroupedVerdict(frames[i], spec);
      if values[i].Some? && Fits(frames[i], spec) {
        total := total + 1;
        if ExtractChecksum(frames[i], spec.position, spec.byteLength, spec.bigEndian) == values[i].value {
          matches := matches + 1;
        }
      }
      i := i + 1;
    }
    assert frames[..i] == frames;
  }

  /** Every specification so far is in the group of its own key, once, and in no other. */
  ghost predicate Grouped(groups: map<Key, seq<nat>>, specs: seq<ChecksumSpec>, n: nat)
    requires n <= |specs|
  {
    && (forall k, j :: k in groups && 0 <= j < |groups[k]| ==> groups[k][j] < n && KeyOf(specs[groups[k][j]]) == k)
    && (forall m :: 0 <= m < n ==> KeyOf(specs[m]) in groups && m in groups[KeyOf(specs[m])])
    && (forall k :: k in groups ==> Distinct(groups[k]))
  }

  method GroupSpecs(specs: seq<ChecksumSpec>) returns (groups: map<Key, seq<nat>>)
    ensures Grouped(groups, specs, |specs|)
  {
    groups := map[];
    var i := 0;
    while i < |specs|
      invariant 0 <= i <= |specs| && Grouped(groups, specs, i)
    {
      var k := KeyOf(specs[i]);
      GroupOne(groups, specs, i);
      groups := groups[k := MembersOf(groups, k) + [i]];
      i := i + 1;
    }
  }

  /** The members a key has so far. */
  function MembersOf(groups: map<Key, seq<nat>>, k: Key): seq<nat> { if k in groups then groups[k] else [] }

  lemma MembersBelow(groups: map<Key, seq<nat>>, specs: seq<ChecksumSpec>, i: nat, k: Key)
    requires i <= |specs| && Grouped(groups, specs, i)
    ensures Distinct(MembersOf(groups, k))
    ensures forall j :: 0 <= j < |MembersOf(groups, k)| ==>
              MembersOf(groups, k)[j] < i && KeyOf(specs[MembersOf(groups, k)[j]]) == k
  {
    hide KeyOf;
  }

  lemma DistinctAppend(members: seq<nat>, i: nat)
    requires Distinct(members) && i !in members
    ensures Distinct(members + [i])
    ensures forall m :: m in members + [i] <==> m in members || m == i
  {
    assert (members + [i])[|members|] == i;
    forall m | m in members ensures m in members + [i] {
      var j :| 0 <= j < |members| && members[j] == m;
      assert (members + [i])[j] == m;
    }
  }

  lemma GroupOne(groups: map<Key, seq<nat>>, specs: seq<ChecksumSpec>, i: nat)
    requires i < |specs| && Grouped(groups, specs, i)
    ensures var k := KeyOf(specs[i]); Grouped(groups[k := MembersOf(groups, k) + [i]], specs, i + 1)
  {
    var k := KeyOf(specs[i]);
    var members := MembersOf(groups, k);
    MembersBelow(groups, specs, i, k);
    DistinctAppend(members, i);
    hide KeyOf, Distinct;
    var next := groups[k := members + [i]];
    forall key, j | key in next && 0 <= j < |next[key]|
      ensures next[key][j] < i + 1 && KeyOf(specs[next[key][j]]) == key
    {
      if key == k {
        assert next[key][j] == if j < |members| then members[j] else i;
      } else {
        assert key in groups && next[key] == groups[key];
      }
    }
    forall m | 0 <= m < i + 1 ensures KeyOf(specs[m]) in next && m in next[KeyOf(specs[m])] {
      if m < i {
        assert KeyOf(specs[m]) in groups && m in groups[KeyOf(specs[m])];
      } else {
        assert m in members + [i];
      }
    }
  }

  /** The results so far are those of the specifications done so far that fitted some frame, once each. */
  ghost predicate ResultsFor(
    results: seq<SpecResult>, frames: seq<seq<Byte>>, specs: seq<ChecksumSpec>, done: set<nat>)
  {
    && (forall r :: r in results ==> Reported(r, frames, specs, done))
    && (forall m :: m in done && m < |specs| && ResultOf(frames, specs, m).totalCount > 0 ==>
          ResultOf(frames, specs, m) in results)
    && Distinct(results)
  }

  ghost predicate Reported(r: SpecResult, frames: seq<seq<Byte>>, specs: seq<ChecksumSpec>, done: set<nat>) {
    r.specIndex in done && r.specIndex < |specs| && r == ResultOf(frames, specs, r.specIndex) && r.totalCount > 0
  }

  lemma OneResult(results: seq<SpecResult>, frames: seq<seq<Byte>>, specs: seq<ChecksumSpec>, done: set<nat>, m: nat)
    requires m < |specs| && m !in done && ResultsFor(results, frames, specs, done)
    ensures var r := ResultOf(frames, specs, m);
            ResultsFor(if r.totalCount > 0 then results + [r] else results, frames, specs, done + {m})
  {
    hide Tally;
    var r := ResultOf(frames, specs, m);
    assert r.specIndex == m && r !in results;
  }

  method CountGroup(frames: seq<seq<Byte>>, specs: seq<ChecksumSpec>, key: Key, members: seq<nat>,
                    before: seq<SpecResult>, ghost done: set<nat>)
    returns (results: seq<SpecResult>)
    requires forall j :: 0 <= j < |members| ==>
               members[j] < |specs| && KeyOf(specs[members[j]]) == key && members[j] !in done
    requires Distinct(members) && ResultsFor(before, frames, specs, done)
    ensures ResultsFor(results, frames, specs, done + set m | m in members)
  {
    hide GroupValue, KeyOf, Tally, ResultsFor;
    var values := Calculate(key, frames);
    results := before;
    ghost var counted := done;
    var j := 0;
    assert counted == done + set m | m in members[..0];
    while j < |members|
      invariant 0 <= j <= |members|
      invariant counted == done + set m | m in members[..j]
      invariant ResultsFor(results, frames, specs, counted)
    {
      var idx := members[j];
      assert idx !in members[..j];
      OneResult(results, frames, specs, counted, idx);
      var matches, total := Count(frames, values, specs[idx]);
      if total > 0 {
        results := results + [SpecResult(idx, matches, total)];
      }
      assert members[..j + 1] == members[..j] + [idx];
      counted := counted + {idx};
      j := j + 1;
    }
    assert members[..j] == members;
  }

  function ByIndex(): (SpecResult, SpecResult) -> bool { (a: SpecResult, b: SpecResult) => a.specIndex <= b.specIndex }

  /** The groups are taken in no particular order; the results are sorted at the end. */
  method SweepSpecs(frames: seq<seq<Byte>>, specs: seq<ChecksumSpec>) returns (results: seq<SpecResult>)
    ensures results == Naive(frames, specs, 0)
  {
    hide KeyOf, ResultsFor, Naive;
    var groups := GroupSpecs(specs);
    results := [];
    var remaining := groups.Keys;
    ghost var done: set<nat> := {};
    NoResults(frames, specs);
    while remaining != {}
      invariant remaining <= groups.Keys
      invariant forall k :: k in groups && k !in remaining ==> forall m :: m in groups[k] ==> m in done
      invariant forall m :: m in done ==> m < |specs| && KeyOf(specs[m]) in groups && KeyOf(specs[m]) !in remaining
      invariant ResultsFor(results, frames, specs, done)
      decreases |remaining|
    {
      var key :| key in remaining;
      results := CountGroup(frames, specs, key, groups[key], results, done);
      done := done + set m | m in groups[key];
      remaining := remaining - {key};
    }
    forall m | 0 <= m < |specs| ensures m in done {
      assert m in groups[KeyOf(specs[m])];
    }
    SortedIsNaive(results, frames, specs, done);
    results := Sort(results, ByIndex());
  }

  lemma NoResults(frames: seq<seq<Byte>>, specs: seq<ChecksumSpec>)
    ensures ResultsFor([], frames, specs, {})
  {
  }

  // ---------- sorted, the results are the naive ones ----------

  lemma IndexOrder()
    ensures TotalPreorder(ByIndex())
  {
  }

  lemma {:induction false} NaiveIn(frames: seq<seq<Byte>>, specs: seq<ChecksumSpec>, from: nat, r: SpecResult)
    requires from <= |specs|
    ensures r in Naive(frames, specs, from) <==>
            from <= r.specIndex < |specs| && r == ResultOf(frames, specs, r.specIndex) && r.totalCount > 0
    decreases |specs| - from
  {
    hide Tally, ResultOf;
    if from < |specs| {
      NaiveIn(frames, specs, from + 1, r);
      ResultIndex(frames, specs, from);
    }
  }

  lemma ResultIndex(frames: seq<seq<Byte>>, specs: seq<ChecksumSpec>, i: nat)
    requires i < |specs|
    ensures ResultOf(frames, specs, i).specIndex == i
  {
    hide Tally;
  }

  predicate Ascending(rs: seq<SpecResult>) {
    forall i, j :: 0 <= i < j < |rs| ==> rs[i].specIndex < rs[j].specIndex
  }

  lemma {:induction false} NaiveAscends(frames: seq<seq<Byte>>, specs: seq<ChecksumSpec>, from: nat)
    requires from <= |specs|
    ensures Ascending(Naive(frames, specs, from))
    decreases |specs| - from
  {
    hide Tally;
    if from < |specs| {
      NaiveAscends(frames, specs, from + 1);
      forall r | r in Naive(frames, specs, from + 1) ensures r.specIndex > from {
        NaiveIn(frames, specs, from + 1, r);
      }
    }
  }

  /** Two ascending sequences of the same results are the same sequence. */
  lemma {:induction false} AscendingUnique(a: seq<SpecResult>, b: seq<SpecResult>)
    requires Ascending(a) && Ascending(b)
    requires forall r :: r in a <==> r in b
    ensures a == b
  {
    assert a != [] ==> a[0] in a;
    assert b != [] ==> b[0] in b;
    if a != [] && b != [] {
      FirstSame(a, b);
      TailsSame(a, b);
      AscendingUnique(a[1..], b[1..]);
      assert a == [a[0]] + a[1..] && b == [b[0]] + b[1..];
    }
  }

  lemma FirstSame(a: seq<SpecResult>, b: seq<SpecResult>)
    requires a != [] && b != [] && Ascending(a) && Ascending(b)
    requires forall r :: r in a <==> r in b
    ensures a[0] == b[0]
  {
    assert a[0] in b && b[0] in a;
    var i :| 0 <= i < |b| && b[i] == a[0];
    var j :| 0 <= j < |a| && a[j] == b[0];
  }

  lemma TailsSame(a: seq<SpecResult>, b: seq<SpecResult>)
    requires a != [] && b != [] && Ascending(a) && Ascending(b) && a[0] == b[0]
    requires forall r :: r in a <==> r in b
    ensures forall r :: r in a[1..] <==> r in b[1..]
  {
    forall r ensures r in a[1..] <==> r in b[1..] {
      InTail(a, r);
      InTail(b, r);
    }
  }

  lemma InTail(a: seq<SpecResult>, r: SpecResult)
    requires a != [] && Ascending(a)
    ensures r in a[1..] <==> r in a && r != a[0]
  {
    assert a == [a[0]] + a[1..];
    assert a[0] !in a[1..];
  }

  lemma SortedIsNaive(results: seq<SpecResult>, frames: seq<seq<Byte>>, specs: seq<ChecksumSpec>, done: set<nat>)
    requires ResultsFor(results, frames, specs, done)
    requires forall m :: 0 <= m < |specs| ==> m in done
    ensures Sort(results, ByIndex()) == Naive(frames, specs, 0)
  {
    var sorted := Sort(results, ByIndex());
    IndexOrder();
    SortSorted(results, ByIndex());
    SortDistinct(results, ByIndex());
    hide Tally, Sort, Naive, SortedBy, Distinct, ByIndex, Ascending;
    forall r ensures r in sorted <==> r in Naive(frames, specs, 0) {
      SortIn(results, ByIndex(), r);
      NaiveIn(frames, specs, 0, r);
      ReportedAll(results, frames, specs, done, r);
    }
    forall r | r in sorted ensures r.specIndex < |specs| && r == ResultOf(frames, specs, r.specIndex) {
      NaiveIn(frames, specs, 0, r);
    }
    SortedAscends(sorted, frames, specs);
    NaiveAscends(frames, specs, 0);
    AscendingUnique(sorted, Naive(frames, specs, 0));
  }

  lemma ReportedAll(
    results: seq<SpecResult>, frames: seq<seq<Byte>>, specs: seq<ChecksumSpec>, done: set<nat>, r: SpecResult)
    requires ResultsFor(results, frames, specs, done)
    requires forall m :: 0 <= m < |specs| ==> m in done
    ensures r in results <==>
            r.specIndex < |specs| && r == ResultOf(frames, specs, r.specIndex) && r.totalCount > 0
  {
    hide ResultOf, Distinct;
  }

  lemma SortedAscends(sorted: seq<SpecResult>, frames: seq<seq<Byte>>, specs: seq<ChecksumSpec>)
    requires SortedBy(sorted, ByIndex()) && Distinct(sorted)
    requires forall r :: r in sorted ==> r.specIndex < |specs| && r == ResultOf(frames, specs, r.specIndex)
    ensures Ascending(sorted)
  {
    hide ResultOf;
    forall i, j | 0 <= i < j < |sorted| ensures sorted[i].specIndex < sorted[j].specIndex {
      assert ByIndex()(sorted[i], sorted[j]);
      assert sorted[i] in sorted && sorted[j] in sorted;
    }
  }
}
