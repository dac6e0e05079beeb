/** What a stream of sequence numbers says about the link under it. */
module SequenceTracking {
  import opened Common
  import opened Numbers
  import opened Bits

  /** A jump of at least half the sequence space is backwards. */
  const WRAP_THRESHOLD := 32768

  const SEEN_WORDS := 1024

  /** A tracker's counters, and the set of sequence numbers it has seen. */
  datatype Tally = Tally(
    expected: Option<U16>, seen: set<U16>, rxCount: nat, drops: nat, duplicates: nat, outOfOrder: nat,
    gaps: seq<(U16, U16)>)

  const EMPTY := Tally(None, {}, 0, 0, 0, 0, [])

  function After(n: U16): U16 { (n + 1) % 0x1_0000 }

  /** How far `n` is ahead of `expected`, around the sequence space. */
  function Ahead(n: U16, expected: U16): U16 { (n - expected) % 0x1_0000 }

  /** The gap rules, once a frame has been counted. */
  function Place(t: Tally, n: U16): Tally {
    match t.expected
    case None => t.(expected := Some(After(n)))
    case Some(expected) =>
      if n == expected then t.(expected := Some(After(expected)))
      else if Ahead(n, expected) < WRAP_THRESHOLD then
        t.(drops := t.drops + Ahead(n, expected), gaps := t.gaps + [(expected, n)], expected := Some(After(n)))
      else t.(outOfOrder := t.outOfOrder + 1)
  }

  function Counted(t: Tally, n: U16): Tally {
    t.(rxCount := t.rxCount + 1, seen := t.seen + {n},
       duplicates := t.duplicates + if n in t.seen then 1 else 0)
  }

  function Track(t: Tally, n: U16): Tally { Place(Counted(t, n), n) }

  function TrackAll(t: Tally, ns: seq<U16>): Tally
    decreases |ns|
  {
    if ns == [] then t else TrackAll(Track(t, ns[0]), ns[1..])
  }

  // ---------- the tracker itself ----------

  type U64 = w: nat | w < 0x1_0000_0000_0000_0000

  lemma SixtyFour()
    ensures Pow2(64) == 0x1_0000_0000_0000_0000
  {
    hide Pow2;
    SixteenBits();
    PowSum(16, 16);
    PowSum(32, 32);
  }

  lemma {:induction false} PowSum(m: nat, n: nat)
    ensures Pow2(m + n) == Pow2(m) * Pow2(n)
  {
    if m > 0 {
      PowSum(m - 1, n);
      TwiceTimes(Pow2(m - 1), Pow2(n));
    }
  }

  lemma TwiceTimes(a: nat, b: nat)
    ensures 2 * a * b == 2 * (a * b)
  {
  }

  lemma {:induction false} OrBelow(a: nat, b: nat, n: nat)
    requires a < Pow2(n) && b < Pow2(n)
    ensures Or(a, b) < Pow2(n)
    decreases n
  {
    if n > 0 && a + b > 0 {
      OrBelow(a / 2, b / 2, n - 1);
    }
  }

  lemma {:induction false} OneShifted(b: nat)
    ensures ShiftLeft(1, b) == Pow2(b)
  {
    if b > 0 {
      OneShifted(b - 1);
    }
  }

  lemma {:induction false} PowMonotone(m: nat, n: nat)
    requires m < n
    ensures Pow2(m) < Pow2(n)
    decreases n
  {
    if m < n - 1 {
      PowMonotone(m, n - 1);
    }
  }

  /** The word with bit `b` set as well. */
  function WithBit(w: U64, b: nat): U64
    requires b < 64
  {
    SixtyFour();
    OneShifted(b);
    PowMonotone(b, 64);
    OrBelow(w, ShiftLeft(1, b), 64);
    Or(w, ShiftLeft(1, b))
  }

  lemma BitOfShiftedOne(b: nat, k: nat)
    ensures Bit(ShiftLeft(1, b), k) == if k == b then 1 else 0
  {
    BitOfShiftLeft(1, b, k);
    if k > b {
      BitOfOne(k - b);
    }
  }

  lemma TestBit(w: nat, b: nat)
    ensures And(w, ShiftLeft(1, b)) != 0 <==> Bit(w, b) == 1
  {
    hide And, Bit, ShiftLeft;
    var v := And(w, ShiftLeft(1, b));
    BitOfAnd(w, ShiftLeft(1, b), b);
    BitOfShiftedOne(b, b);
    BitOfZero(b);
    if Bit(w, b) == 0 {
      forall k: nat ensures Bit(v, k) == Bit(0, k) {
        BitOfAnd(w, ShiftLeft(1, b), k);
        BitOfShiftedOne(b, k);
        BitOfZero(k);
      }
      SameBits(v, 0);
    }
  }

  lemma SetBit(w: U64, b: nat, k: nat)
    requires b < 64
    ensures Bit(WithBit(w, b), k) == if k == b then 1 else Bit(w, k)
  {
    BitOfOr(w, ShiftLeft(1, b), k);
    BitOfShiftedOne(b, k);
  }

  /** The sequence numbers whose bit is set. */
  ghost function SeenIn(words: seq<U64>): set<U16>
    requires |words| == SEEN_WORDS
  {
    set n: U16 | 0 <= n < 0x1_0000 && Bit(words[n / 64], n % 64) == 1
  }

  lemma SeenWith(words: seq<U64>, n: U16)
    requires |words| == SEEN_WORDS
    ensures SeenIn(words[n / 64 := WithBit(words[n / 64], n % 64)]) == SeenIn(words) + {n}
  {
    hide Bit, WithBit;
    var next := words[n / 64 := WithBit(words[n / 64], n % 64)];
    forall m: U16 ensures m in SeenIn(next) <==> m in SeenIn(words) + {n} {
      SetBit(words[n / 64], n % 64, m % 64);
      if m / 64 == n / 64 && m % 64 == n % 64 {
        assert m == n;
      }
    }
  }

  class SequenceTracker {
    var expected: Option<U16>
    const seen: array<U64>
    var rxCount: nat
    var drops: nat
    var duplicates: nat
    var outOfOrder: nat
    var gaps: seq<(U16, U16)>

    ghost predicate Valid()
      reads this
    {
      seen.Length == SEEN_WORDS
    }

    ghost function Now(): Tally
      reads this, seen
      requires Valid()
    {
      Tally(expected, SeenIn(seen[..]), rxCount, drops, duplicates, outOfOrder, gaps)
    }

    constructor ()
      ensures Valid() && fresh(seen) && Now() == EMPTY
    {
      expected := None;
      seen := new U64[SEEN_WORDS](_ => 0);
      rxCount, drops, duplicates, outOfOrder := 0, 0, 0, 0;
      gaps := [];
      new;
      forall n: U16 ensures n !in SeenIn(seen[..]) {
        BitOfZero(n % 64);
      }
    }

    /** Record one received sequence number. */
    method Record(n: U16)
      requires Valid()
      modifies this, seen
      ensures Valid() && Now() == Track(old(Now()), n)
    {
      hide SeenIn;
      rxCount := rxCount + 1;
      var was := MarkSeen(n);
      if was {
        duplicates := duplicates + 1;
      }
      if expected.None? {
        expected := Some(After(n));
        return;
      }
      if n == expected.value {
        expected := Some(After(n));
        return;
      }
      var ahead := Ahead(n, expected.value);
      if ahead < WRAP_THRESHOLD {
        drops := drops + ahead;
        gaps := gaps + [(expected.value, n)];
        expected := Some(After(n));
      } else {
        outOfOrder := outOfOrder + 1;
      }
    }

    /** Set the number's bit, returning whether it was already set. */
    method MarkSeen(n: U16) returns (was: bool)
      requires Valid()
      modifies seen
      ensures was == (n in old(SeenIn(seen[..])))
      ensures SeenIn(seen[..]) == old(SeenIn(seen[..])) + {n}
    {
      hide Bit, And, ShiftLeft, WithBit;
      var word, bit := n / 64, n % 64;
      ghost var words := seen[..];
      TestBit(seen[word], bit);
      SeenWith(words, n);
      was := And(seen[word], ShiftLeft(1, bit)) != 0;
      seen[word] := WithBit(seen[word], bit);
      assert seen[..] == words[word := WithBit(words[word], bit)];
    }
  }

  // ---------- conservation ----------

  /** The frames a gap says never arrived. */
  function Width(gap: (U16, U16)): U16 { Ahead(gap.1, gap.0) }

  function GapTotal(gaps: seq<(U16, U16)>): nat {
    if gaps == [] then 0 else GapTotal(gaps[..|gaps| - 1]) + Width(gaps[|gaps| - 1])
  }

  function SeenOf(ns: seq<U16>): set<U16> { set i | 0 <= i < |ns| :: ns[i] }

  /** The books balance: every counter follows from the numbers received. */
  ghost predicate Balanced(t: Tally, ns: seq<U16>) {
    && t.rxCount == |ns|
    && t.seen == SeenOf(ns)
    && t.duplicates == |ns| - |SeenOf(ns)|
    && GapsAdd(t)
    && Positioned(t, ns)
  }

  /** Where the stream should be: what arrived in order and what was skipped, past the first number. */
  ghost predicate Positioned(t: Tally, ns: seq<U16>) {
    if ns == [] then t.expected == None && t.outOfOrder == 0 && t.drops == 0
    else
      && t.outOfOrder < |ns|
      && t.expected == Some((ns[0] + (|ns| - t.outOfOrder) + t.drops) % 0x1_0000)
  }

  lemma SeenOfAppend(ns: seq<U16>, n: U16)
    ensures SeenOf(ns + [n]) == SeenOf(ns) + {n}
  {
    var more := ns + [n];
    assert more[|ns|] == n;
    forall m | m in SeenOf(ns) ensures m in SeenOf(more) {
      var i :| 0 <= i < |ns| && ns[i] == m;
      assert more[i] == m;
    }
  }

  lemma GapTotalAppend(gaps: seq<(U16, U16)>, gap: (U16, U16))
    ensures GapTotal(gaps + [gap]) == GapTotal(gaps) + Width(gap)
  {
    assert (gaps + [gap])[..|gaps|] == gaps;
  }

  /** Stepping past a number that is `ahead` of the expected one. */
  lemma AheadArithmetic(total: int, n: U16)
    ensures var ahead := Ahead(n, total % 0x1_0000); (total + ahead + 1) % 0x1_0000 == After(n)
    ensures n == total % 0x1_0000 ==> Ahead(n, total % 0x1_0000) == 0
    ensures n != total % 0x1_0000 ==> Ahead(n, total % 0x1_0000) > 0
  {
  }

  lemma TrackPositioned(t: Tally, ns: seq<U16>, n: U16)
    requires Positioned(t, ns)
    ensures Positioned(Track(t, n), ns + [n])
  {
    hide Ahead, After;
    if ns != [] {
      AheadArithmetic(ns[0] + (|ns| - t.outOfOrder) + t.drops, n);
      assert (ns + [n])[0] == ns[0];
    } else {
      AheadArithmetic(n, n);
    }
  }

  lemma TrackCounts(t: Tally, ns: seq<U16>, n: U16)
    requires t.rxCount == |ns| && t.seen == SeenOf(ns) && t.duplicates == |ns| - |SeenOf(ns)|
    ensures var u := Track(t, n);
            && u.rxCount == |ns + [n]| && u.seen == SeenOf(ns + [n])
            && u.duplicates == |ns + [n]| - |SeenOf(ns + [n])|
  {
    hide SeenOf, Ahead, After;
    SeenOfAppend(ns, n);
    if n in t.seen {
      assert t.seen + {n} == t.seen;
    }
  }

  ghost predicate GapsAdd(t: Tally) {
    && t.drops == GapTotal(t.gaps)
    && forall i :: 0 <= i < |t.gaps| ==> 0 < Width(t.gaps[i]) < WRAP_THRESHOLD
  }

  lemma TrackGaps(t: Tally, n: U16)
    requires GapsAdd(t)
    ensures GapsAdd(Track(t, n))
  {
    hide Ahead, After;
    if t.expected.Some? {
      GapTotalAppend(t.gaps, (t.expected.value, n));
      AheadOfOther(n, t.expected.value);
    }
    hide GapTotal;
  }

  lemma TrackBalanced(t: Tally, ns: seq<U16>, n: U16)
    requires Balanced(t, ns)
    ensures Balanced(Track(t, n), ns + [n])
  {
    hide Positioned, SeenOf, GapsAdd, Track;
    TrackPositioned(t, ns, n);
    TrackCounts(t, ns, n);
    TrackGaps(t, n);
  }

  lemma AheadOfOther(n: U16, expected: U16)
    ensures n != expected ==> Ahead(n, expected) > 0
  {
  }

  lemma {:induction false} TrackAllBalanced(t: Tally, done: seq<U16>, ns: seq<U16>)
    requires Balanced(t, done)
    ensures Balanced(TrackAll(t, ns), done + ns)
    decreases |ns|
  {
    hide Balanced, Track;
    if ns == [] {
      assert done + ns == done;
    } else {
      TrackBalanced(t, done, ns[0]);
      TrackAllBalanced(Track(t, ns[0]), done + [ns[0]], ns[1..]);
      assert (done + [ns[0]]) + ns[1..] == done + ns;
    }
  }

  /** After any run of sequence numbers the books balance. */
  lemma Conservation(ns: seq<U16>)
    ensures Balanced(TrackAll(EMPTY, ns), ns)
  {
    TrackAllBalanced(EMPTY, [], ns);
    assert [] + ns == ns;
  }

  // ---------- a stream with nothing missing ----------

  ghost predicate CountsUp(ns: seq<U16>) {
    forall i :: 0 <= i < |ns| ==> ns[i] == (ns[0] + i) % 0x1_0000
  }

  /** The number at place `n` has been seen before exactly when the space has been gone around. */
  lemma SeenBefore(ns: seq<U16>, n: nat)
    requires CountsUp(ns) && n < |ns|
    ensures ns[n] in SeenOf(ns[..n]) <==> n >= 0x1_0000
  {
    if n >= 0x1_0000 {
      var i := n - 0x1_0000;
      OnceAround(ns[0] + i);
      assert ns[..n][i] == ns[n];
    }
    if ns[n] in SeenOf(ns[..n]) {
      var i :| 0 <= i < n && ns[..n][i] == ns[n];
      SameAround(ns[0], i, n);
    }
  }

  lemma OnceAround(v: nat)
    ensures v % 0x1_0000 == (v + 0x1_0000) % 0x1_0000
  {
  }

  lemma SameAround(s: nat, i: nat, n: nat)
    requires i < n && (s + i) % 0x1_0000 == (s + n) % 0x1_0000
    ensures n >= 0x1_0000
  {
  }

  /** What the tally of a stream with nothing missing looks like after its first `n` numbers. */
  ghost predicate Clean(t: Tally, ns: seq<U16>, n: nat)
    requires n <= |ns|
  {
    && t.seen == SeenOf(ns[..n])
    && t.drops == 0 && t.outOfOrder == 0 && t.gaps == []
    && t.duplicates == (if n > 0x1_0000 then n - 0x1_0000 else 0)
    && t.expected == if n == 0 then None else Some((ns[0] + n) % 0x1_0000)
  }

  lemma {:induction false} CleanFrom(t: Tally, ns: seq<U16>, n: nat)
    requires CountsUp(ns) && n <= |ns| && Clean(t, ns, n)
    ensures Clean(TrackAll(t, ns[n..]), ns, |ns|)
    decreases |ns| - n
  {
    hide SeenOf, CountsUp;
    if n < |ns| {
      CountsHere(ns, n);
      SeenBefore(ns, n);
      SeenOfAppend(ns[..n], ns[n]);
      assert ns[..n] + [ns[n]] == ns[..n + 1];
      NextInSpace(ns[0], n);
      assert Clean(Track(t, ns[n]), ns, n + 1);
      CleanFrom(Track(t, ns[n]), ns, n + 1);
      assert ns[n..][1..] == ns[n + 1..];
    }
  }

  lemma CountsHere(ns: seq<U16>, n: nat)
    requires CountsUp(ns) && n < |ns|
    ensures ns[n] == (ns[0] + n) % 0x1_0000
  {
  }

  lemma NextInSpace(s: U16, n: nat)
    ensures After((s + n) % 0x1_0000) == (s + n + 1) % 0x1_0000
  {
  }

  /**
   A stream with nothing missing, of any length and from any start, has no drops, no gaps and
   nothing out of order; but past one turn of the sequence space every frame is a duplicate.
   */
  lemma PerfectStream(ns: seq<U16>)
    requires CountsUp(ns)
    ensures var t := TrackAll(EMPTY, ns);
            && t.drops == 0 && t.gaps == [] && t.outOfOrder == 0
            && t.duplicates == (if |ns| > 0x1_0000 then |ns| - 0x1_0000 else 0)
  {
    assert ns[0..] == ns;
    assert SeenOf(ns[..0]) == {};
    CleanFrom(EMPTY, ns, 0);
  }
}
