/** Which numbers a tracker takes for late, and which for the far side of a hole. */
module SequenceGaps {
  import opened Common
  import opened Numbers
  import opened Sequences
  import opened SequenceTracking

  // ---------- every run ----------

  /** How many steps from `from`, going up and around, to `n`. */
  function StepsTo(from: int, n: U16): nat { (n - from) % 65536 }

  lemma ModularSteps(from: int, n: U16)
    ensures (from + (n - from) % 65536) % 65536 == n
  {
    var q := (n - from) / 65536;
    assert n - from == 65536 * q + (n - from) % 65536;
    assert from + (n - from) % 65536 == n + 65536 * -q;
    OneResidue(n, -q);
  }

  lemma OneResidue(n: U16, q: int)
    ensures (n + 65536 * q) % 65536 == n
  {
  }

  /** The number of a place. */
  function Wrapped(place: nat): U16 { place % 65536 }

  /** The furthest place a run of numbers has reached, counted on past every wrap. */
  function Reached(ns: seq<U16>): nat
    requires ns != []
  {
    var last := |ns| - 1;
    if last == 0 then ns[0]
    else
      var r := Reached(ns[..last]);
      if StepsTo(r + 1, ns[last]) < 32768 then r + 1 + StepsTo(r + 1, ns[last]) else r
  }

  /** A number is late when it is at least 32768 ahead of the one after the furthest. */
  predicate Late(ns: seq<U16>, i: nat)
    requires i < |ns|
  {
    i > 0 && StepsTo(Reached(ns[..i]) + 1, ns[i]) >= 32768
  }

  /** How many of the numbers are. */
  function LateOnes(ns: seq<U16>): nat {
    if ns == [] then 0
    else LateOnes(ns[..|ns| - 1]) + if Late(ns, |ns| - 1) then 1 else 0
  }

  /** The holes in a run. */
  function Holes(ns: seq<U16>): seq<(U16, U16)> {
    if |ns| <= 1 then []
    else
      var last := |ns| - 1;
      var next := Reached(ns[..last]) + 1;
      Holes(ns[..last]) + Hole(StepsTo(next, ns[last]), Wrapped(next), ns[last])
  }

  /** A hole of `k` numbers, if it is one: from the first missing to the first there again. */
  function Hole(k: int, from: U16, to: U16): seq<(U16, U16)> {
    if 0 < k < 32768 then [(from, to)] else []
  }

  lemma {:induction false} TrackAllAppend(t: Tally, ns: seq<U16>, n: U16)
    ensures TrackAll(t, ns + [n]) == Track(TrackAll(t, ns), n)
    decreases |ns|
  {
    hide Track;
    if ns == [] {
      assert ns + [n] == [n] && [n][1..] == [];
    } else {
      assert (ns + [n])[1..] == ns[1..] + [n];
      TrackAllAppend(Track(t, ns[0]), ns[1..], n);
    }
  }

  /** What the tally of a run says. */
  ghost predicate Tallies(t: Tally, ns: seq<U16>) {
    && t.rxCount == |ns|
    && t.outOfOrder == LateOnes(ns)
    && t.gaps == Holes(ns)
    && (ns == [] ==> t.expected == None && t.drops == 0)
    && (ns != [] ==>
          && t.expected == Some(Wrapped(Reached(ns) + 1))
          && t.drops + (|ns| - LateOnes(ns)) == Reached(ns) - ns[0] + 1)
  }

  lemma AheadIsSteps(n: U16, place: int)
    ensures Ahead(n, place % 65536) == StepsTo(place, n)
  {
    var q := place / 65536;
    assert n - place % 65536 == (n - place) + 65536 * q;
    SameResidue(n - place, q);
  }

  lemma SameResidue(v: int, q: int)
    ensures (v + 65536 * q) % 65536 == v % 65536
  {
  }

  lemma AfterIs(place: int, n: U16)
    requires place % 65536 == n
    ensures After(n) == (place + 1) % 65536
  {
  }

  lemma OneMore(t: Tally, ns: seq<U16>, n: U16)
    requires Tallies(t, ns)
    ensures Tallies(Track(t, n), ns + [n])
  {
    if ns == [] {
      assert [] + [n] == [n];
      FirstTallied(t, n);
    } else {
      NextTallied(t, ns, n);
    }
  }

  lemma NextTallied(t: Tally, ns: seq<U16>, n: U16)
    requires ns != [] && Tallies(t, ns)
    ensures Tallies(Track(t, n), ns + [n])
  {
    hide StepsTo, Ahead, After, Reached, LateOnes, Holes, Wrapped, Hole, Track;
    var more := ns + [n];
    assert more[..|ns|] == ns && more[0] == ns[0];
    LastOf(more);
    var next := Reached(ns) + 1;
    var k := StepsTo(next, n);
    WrappedIs(next);
    AheadIsSteps(n, next);
    StepsLand(next, n);
    AfterIs(next + k, n);
    StepsZero(next, n);
    WrappedIs(next + k + 1);
    Tracked(t, n, k);
  }

  /** What one number does to a tally that expects one. */
  lemma Tracked(t: Tally, n: U16, k: nat)
    requires t.expected.Some? && k == Ahead(n, t.expected.value) && (k == 0 <==> n == t.expected.value)
    ensures var u := Track(t, n);
            && u.rxCount == t.rxCount + 1
            && u.gaps == t.gaps + Hole(k, t.expected.value, n)
            && if k < 32768 then u.drops == t.drops + k && u.outOfOrder == t.outOfOrder && u.expected == Some(After(n))
               else u.drops == t.drops && u.outOfOrder == t.outOfOrder + 1 && u.expected == t.expected
  {
    hide Ahead, After;
    AppendNothing(t.gaps);
  }

  lemma FirstTallied(t: Tally, n: U16)
    requires Tallies(t, [])
    ensures Tallies(Track(t, n), [n])
  {
    assert [n][..0] == [];
    assert n % 65536 == n;
    AfterIs(n, n);
    hide After;
    assert LateOnes([n][..0]) == 0 && LateOnes([n]) == 0 && Holes([n]) == [] && Reached([n]) == n;
  }

  lemma WrappedIs(place: nat)
    ensures Wrapped(place) == place % 65536
  {
  }

  lemma StepsLand(place: int, n: U16)
    ensures StepsTo(place, n) < 65536 && (place + StepsTo(place, n)) % 65536 == n
  {
    ModularSteps(place, n);
  }

  lemma StepsZero(place: int, n: U16)
    ensures StepsTo(place, n) == 0 <==> n == place % 65536
  {
    ModularSteps(place, n);
    var q := place / 65536;
    assert place == 65536 * q + place % 65536;
    if n == place % 65536 {
      assert n - place == 65536 * -q;
      OneResidue(0, -q);
    }
  }

  /** The tally of every run: what is late, where the holes are, what they are worth, and what is expected. */
  lemma {:induction false} RunTallies(ns: seq<U16>)
    ensures Tallies(TrackAll(EMPTY, ns), ns)
    decreases |ns|
  {
    hide Track, Tallies;
    if ns == [] {
      NothingTallies();
    } else {
      var last := |ns| - 1;
      RunTallies(ns[..last]);
      assert ns == ns[..last] + [ns[last]];
      TrackAllAppend(EMPTY, ns[..last], ns[last]);
      OneMore(TrackAll(EMPTY, ns[..last]), ns[..last], ns[last]);
    }
  }

  lemma NothingTallies()
    ensures Tallies(EMPTY, []) && TrackAll(EMPTY, []) == EMPTY
  {
  }

  // ---------- a stream with frames removed ----------

  /** The places of the frames that came, of a stream numbered one by one: fewer than 32768 missing in a row. */
  ghost predicate Sampled(at: seq<nat>) {
    forall i :: 0 < i < |at| ==> at[i - 1] < at[i] <= at[i - 1] + 32768
  }

  function NumbersAt(at: seq<nat>): (ns: seq<U16>)
    ensures |ns| == |at|
  {
    seq(|at|, i requires 0 <= i < |at| => Wrapped(at[i]))
  }

  /** What is missing between one frame and the next. */
  function Between(before: nat, place: nat): seq<(U16, U16)> {
    if place > before + 1 then [(Wrapped(before + 1), Wrapped(place))] else []
  }

  function Missing(at: seq<nat>): seq<(U16, U16)> {
    if |at| <= 1 then []
    else
      var last := |at| - 1;
      Missing(at[..last]) + Between(at[last - 1], at[last])
  }

  /** That many times around. */
  function Turns(wraps: nat): nat { 65536 * wraps }

  lemma StepsApart(place: nat, target: nat, wraps: nat)
    requires place + Turns(wraps) <= target < place + Turns(wraps) + 65536
    ensures StepsTo(place, target % 65536) == target - place - Turns(wraps)
  {
    var k, q := target - place - Turns(wraps), target / 65536;
    assert target % 65536 - place == k + 65536 * (wraps - q);
    SameResidue(k, wraps - q);
  }

  lemma NextSteps(reached: nat, before: nat, target: nat, wraps: nat)
    requires reached + Turns(wraps) == before < target <= before + 32768
    ensures StepsTo(reached + 1, Wrapped(target)) == target - before - 1
    ensures Hole(StepsTo(reached + 1, Wrapped(target)), Wrapped(reached + 1), Wrapped(target))
         == Between(before, target)
  {
    StepsApart(reached + 1, target, wraps);
    SameResidue(reached + 1, wraps);
    hide StepsTo;
  }

  /** One frame more of such a stream. */
  lemma OneMoreSampled(ns: seq<U16>, at: seq<nat>, wraps: nat)
    requires |ns| == |at| > 1
    requires var last := |at| - 1;
             && Reached(ns[..last]) + Turns(wraps) == at[last - 1]
             && at[last - 1] < at[last] <= at[last - 1] + 32768 && ns[last] == Wrapped(at[last])
             && LateOnes(ns[..last]) == 0 && Holes(ns[..last]) == Missing(at[..last])
    ensures Reached(ns) + Turns(wraps) == at[|at| - 1]
    ensures LateOnes(ns) == 0 && Holes(ns) == Missing(at)
  {
    hide *;
    LastOf(ns);
    MissingLast(at);
    var last := |at| - 1;
    NextSteps(Reached(ns[..last]), at[last - 1], at[last], wraps);
  }

  /** What the last number of a run adds. */
  lemma LastOf(ns: seq<U16>)
    requires |ns| > 1
    ensures var front, n := ns[..|ns| - 1], ns[|ns| - 1];
            var next := Reached(front) + 1;
            var k := StepsTo(next, n);
            && Reached(ns) == (if k < 32768 then next + k else next - 1)
            && LateOnes(ns) == LateOnes(front) + (if k < 32768 then 0 else 1)
            && Holes(ns) == Holes(front) + Hole(k, Wrapped(next), n)
  {
    hide StepsTo, Wrapped;
  }

  lemma MissingLast(at: seq<nat>)
    requires |at| > 1
    ensures var last := |at| - 1;
            Missing(at) == Missing(at[..last]) +
              Between(at[last - 1], at[last])
  {
    hide Wrapped;
  }

  /** The furthest place of such a stream is that of its last frame, and nothing of it is late. */
  lemma {:induction false} SampledReaches(at: seq<nat>, wraps: nat)
    requires Sampled(at) && at != [] && Wrapped(at[0]) + Turns(wraps) == at[0]
    ensures Reached(NumbersAt(at)) + Turns(wraps) == at[|at| - 1]
    ensures LateOnes(NumbersAt(at)) == 0 && Holes(NumbersAt(at)) == Missing(at)
    decreases |at|
  {
    hide Wrapped;
    var ns, last := NumbersAt(at), |at| - 1;
    if last == 0 {
      OneSampled(ns);
    } else {
      assert ns[..last] == NumbersAt(at[..last]);
      hide Reached, LateOnes, Holes, Missing;
      SampledReaches(at[..last], wraps);
      OneMoreSampled(ns, at, wraps);
    }
  }

  lemma OneSampled(ns: seq<U16>)
    requires |ns| == 1
    ensures Reached(ns) == ns[0] && LateOnes(ns) == 0 && Holes(ns) == []
  {
    assert ns[..0] == [];
    assert LateOnes(ns[..0]) == 0;
  }

  lemma Wraps(v: nat) returns (wraps: nat)
    ensures Wrapped(v) + Turns(wraps) == v
  {
    wraps := v / 65536;
  }

  /**
   Of a stream with frames missing, no 32768 of them in a row: the drops are the frames missing between the first and
   the last that came, the gaps are where they are missing, and nothing is out of order.
   */
  lemma RemovedFramesAreDrops(at: seq<nat>)
    requires Sampled(at) && at != []
    ensures var t := TrackAll(EMPTY, NumbersAt(at));
            && t.drops == at[|at| - 1] - at[0] + 1 - |at|
            && t.gaps == Missing(at)
            && t.outOfOrder == 0 && t.rxCount == |at|
            && t.expected == Some(Wrapped(at[|at| - 1] + 1))
  {
    hide *;
    var ns := NumbersAt(at);
    var wraps := Wraps(at[0]);
    FirstAt(at);
    RunTallies(ns);
    SampledReaches(at, wraps);
    WrappedOn(Reached(ns) + 1, wraps);
    ReadOff(TrackAll(EMPTY, ns), ns, at, wraps);
  }

  lemma FirstAt(at: seq<nat>)
    requires at != []
    ensures NumbersAt(at)[0] == Wrapped(at[0])
  {
  }

  lemma ReadOff(t: Tally, ns: seq<U16>, at: seq<nat>, wraps: nat)
    requires Tallies(t, ns) && |ns| == |at| > 0
    requires ns[0] + Turns(wraps) == at[0] && Reached(ns) + Turns(wraps) == at[|at| - 1]
    requires LateOnes(ns) == 0 && Holes(ns) == Missing(at)
    requires Wrapped(Reached(ns) + 1) == Wrapped(Reached(ns) + 1 + Turns(wraps))
    ensures t.drops == at[|at| - 1] - at[0] + 1 - |at|
    ensures t.gaps == Missing(at) && t.outOfOrder == 0 && t.rxCount == |at|
    ensures t.expected == Some(Wrapped(at[|at| - 1] + 1))
  {
    hide Reached, LateOnes, Holes, Missing, Wrapped, Turns;
    assert Reached(ns) + 1 + Turns(wraps) == at[|at| - 1] + 1;
  }

  lemma WrappedOn(v: nat, wraps: nat)
    ensures Wrapped(v) == Wrapped(v + Turns(wraps))
  {
    SameResidue(v, wraps);
  }

  /** One frame more missing, and the next is taken for a late one. */
  lemma TheLongestGap()
    ensures TrackAll(EMPTY, [0, 32768]).drops == 32767 && TrackAll(EMPTY, [0, 32768]).gaps == [(1, 32768)]
    ensures TrackAll(EMPTY, [0, 32769]).drops == 0 && TrackAll(EMPTY, [0, 32769]).outOfOrder == 1
  {
    assert [0, 32768][1..] == [32768] && [0, 32769][1..] == [32769];
    assert [32768][1..] == [] && [32769][1..] == [];
    hide Counted;
    var t := Track(EMPTY, 0);
    assert t.expected == Some(1) && t.drops == 0 && t.outOfOrder == 0 && t.gaps == [];
  }
}
