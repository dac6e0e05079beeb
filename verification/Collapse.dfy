/** Folding solutions that differ only in a range the data cannot tell apart. */
module Collapse {
  import opened Sequences
  import opened Frame
  import opened Solve

  /** What two solutions must share to be one answer. */
  datatype FoldKey = FoldKey(position: int, byteLength: nat, bigEndian: bool, family: Family)

  function KeyOf(s: SolvedChecksum): FoldKey {
    FoldKey(s.target.position, s.target.byteLength, s.target.bigEndian, FamilyOf(s.specification))
  }

  /** An answer together with one range that explains the samples. */
  type Explanation = (FoldKey, CalcRange)

  function Explanations(key: FoldKey, ranges: seq<CalcRange>): multiset<Explanation> {
    if ranges == [] then multiset{}
    else Explanations(key, ranges[..|ranges| - 1]) + multiset{(key, ranges[|ranges| - 1])}
  }

  /** Every range an entry accounts for: its own and the ones folded into it. */
  function Accounts(s: SolvedChecksum): multiset<Explanation> {
    multiset{(KeyOf(s), RangeOf(s))} + Explanations(KeyOf(s), s.equivalentRanges)
  }

  function AllAccounts(ss: seq<SolvedChecksum>): multiset<Explanation> {
    if ss == [] then multiset{} else Accounts(ss[0]) + AllAccounts(ss[1..])
  }

  predicate Unfolded(ss: seq<SolvedChecksum>) {
    forall i :: 0 <= i < |ss| ==> ss[i].equivalentRanges == []
  }

  predicate NoWider(a: CalcRange, b: CalcRange) {
    b.calcStartByte < a.calcStartByte ||
    (b.calcStartByte == a.calcStartByte && b.calcEndByte >= a.calcEndByte)
  }

  predicate KeepsWidest(s: SolvedChecksum) {
    forall i :: 0 <= i < |s.equivalentRanges| ==> NoWider(s.equivalentRanges[i], RangeOf(s))
  }

  // ---------- the loop ----------

  lemma {:induction false} Fold1Appends(kept: seq<SolvedChecksum>, s: SolvedChecksum)
    requires forall j :: 0 <= j < |kept| ==> !Same(kept[j], s)
    ensures Fold1(kept, s) == kept + [s]
  {
    if kept != [] {
      Fold1Appends(kept[1..], s);
    }
  }

  lemma {:induction false} Fold1Updates(kept: seq<SolvedChecksum>, s: SolvedChecksum, j: nat)
    requires j < |kept| && Same(kept[j], s)
    requires forall i :: 0 <= i < j ==> !Same(kept[i], s)
    ensures Fold1(kept, s)
         == kept[j := kept[j].(equivalentRanges := kept[j].equivalentRanges + [RangeOf(s)])]
  {
    if j > 0 {
      Fold1Updates(kept[1..], s, j - 1);
    }
  }

  method FindSame(kept: seq<SolvedChecksum>, s: SolvedChecksum) returns (j: nat)
    ensures j <= |kept| && (j < |kept| ==> Same(kept[j], s))
    ensures forall k :: 0 <= k < j ==> !Same(kept[k], s)
  {
    hide Same;
    j := 0;
    while j < |kept| && !Same(kept[j], s)
      invariant j <= |kept|
      invariant forall k :: 0 <= k < j ==> !Same(kept[k], s)
    {
      j := j + 1;
    }
  }

  method CollapseSolved(solutions: seq<SolvedChecksum>) returns (kept: seq<SolvedChecksum>)
    ensures kept == Collapse(solutions)
  {
    hide Same, Fold1, Sort;
    var sorted := Sort(solutions, Widest());
    kept := [];
    for i := 0 to |sorted|
      invariant kept == FoldAll(sorted[..i])
    {
      assert sorted[..i + 1][..i] == sorted[..i];
      var solution := sorted[i];
      var j := FindSame(kept, solution);
      if j < |kept| {
        Fold1Updates(kept, solution, j);
        kept := kept[j := kept[j].(equivalentRanges := kept[j].equivalentRanges + [RangeOf(solution)])];
      } else {
        Fold1Appends(kept, solution);
        kept := kept + [solution];
      }
    }
    assert sorted[..|sorted|] == sorted;
  }

  // ---------- one entry per answer ----------

  function Keys(ss: seq<SolvedChecksum>): set<FoldKey> {
    if ss == [] then {} else {KeyOf(ss[0])} + Keys(ss[1..])
  }

  predicate DistinctKeys(ss: seq<SolvedChecksum>) {
    ss == [] || (KeyOf(ss[0]) !in Keys(ss[1..]) && DistinctKeys(ss[1..]))
  }

  lemma SameKey(k: SolvedChecksum, s: SolvedChecksum)
    ensures Same(k, s) <==> KeyOf(k) == KeyOf(s)
  {
    hide FamilyOf;
  }

  lemma {:induction false} Fold1Keys(kept: seq<SolvedChecksum>, s: SolvedChecksum)
    ensures Keys(Fold1(kept, s)) == Keys(kept) + {KeyOf(s)}
    ensures DistinctKeys(kept) ==> DistinctKeys(Fold1(kept, s))
  {
    hide FamilyOf, Same;
    if kept != [] {
      SameKey(kept[0], s);
      var r := Fold1(kept, s);
      if Same(kept[0], s) {
        assert r[1..] == kept[1..];
        assert KeyOf(r[0]) == KeyOf(kept[0]);
      } else {
        assert r[1..] == Fold1(kept[1..], s);
        Fold1Keys(kept[1..], s);
      }
    }
  }

  lemma {:induction false} FoldAllKeys(ss: seq<SolvedChecksum>)
    ensures DistinctKeys(FoldAll(ss))
  {
    hide Fold1, KeyOf;
    if ss != [] {
      FoldAllKeys(ss[..|ss| - 1]);
      Fold1Keys(FoldAll(ss[..|ss| - 1]), ss[|ss| - 1]);
    }
  }

  lemma {:induction false} KeyIn(ss: seq<SolvedChecksum>, i: nat)
    requires i < |ss|
    ensures KeyOf(ss[i]) in Keys(ss)
  {
    hide KeyOf;
    if i > 0 {
      KeyIn(ss[1..], i - 1);
    }
  }

  lemma {:induction false} DistinctKeysApart(ss: seq<SolvedChecksum>, i: nat, j: nat)
    requires DistinctKeys(ss) && i < j < |ss|
    ensures KeyOf(ss[i]) != KeyOf(ss[j])
  {
    hide KeyOf;
    if i == 0 {
      KeyIn(ss[1..], j - 1);
    } else {
      DistinctKeysApart(ss[1..], i - 1, j - 1);
    }
  }

  /** Every position, length, byte order and family is reported at most once. */
  lemma CollapseDistinct(solutions: seq<SolvedChecksum>, i: nat, j: nat)
    requires i < j < |Collapse(solutions)|
    ensures KeyOf(Collapse(solutions)[i]) != KeyOf(Collapse(solutions)[j])
  {
    FoldAllKeys(Sort(solutions, Widest()));
    DistinctKeysApart(Collapse(solutions), i, j);
  }

  // ---------- nothing lost, nothing invented ----------

  lemma AccountsAppend(k: SolvedChecksum, range: CalcRange)
    ensures Accounts(k.(equivalentRanges := k.equivalentRanges + [range]))
         == Accounts(k) + multiset{(KeyOf(k), range)}
  {
    hide FamilyOf;
    var ranges := k.equivalentRanges + [range];
    assert ranges[..|ranges| - 1] == k.equivalentRanges;
  }

  lemma {:induction false} Fold1Accounts(kept: seq<SolvedChecksum>, s: SolvedChecksum)
    requires s.equivalentRanges == []
    ensures AllAccounts(Fold1(kept, s)) == AllAccounts(kept) + multiset{(KeyOf(s), RangeOf(s))}
  {
    hide KeyOf, Same, Accounts;
    var r := Fold1(kept, s);
    if kept == [] {
      assert Accounts(s) == multiset{(KeyOf(s), RangeOf(s))} by { AccountsAlone(s); }
    } else {
      SameKey(kept[0], s);
      if Same(kept[0], s) {
        assert r[1..] == kept[1..];
        AccountsAppend(kept[0], RangeOf(s));
      } else {
        assert r[1..] == Fold1(kept[1..], s);
        Fold1Accounts(kept[1..], s);
      }
    }
  }

  lemma AccountsAlone(s: SolvedChecksum)
    requires s.equivalentRanges == []
    ensures Accounts(s) == multiset{(KeyOf(s), RangeOf(s))}
  {
    hide KeyOf;
  }

  function AsAnswers(ss: seq<SolvedChecksum>): multiset<Explanation> {
    if ss == [] then multiset{}
    else AsAnswers(ss[..|ss| - 1]) + multiset{(KeyOf(ss[|ss| - 1]), RangeOf(ss[|ss| - 1]))}
  }

  lemma {:induction false} FoldAllAccounts(ss: seq<SolvedChecksum>)
    requires Unfolded(ss)
    ensures AllAccounts(FoldAll(ss)) == AsAnswers(ss)
  {
    hide Fold1, KeyOf;
    if ss != [] {
      FoldAllAccounts(ss[..|ss| - 1]);
      Fold1Accounts(FoldAll(ss[..|ss| - 1]), ss[|ss| - 1]);
    }
  }

  lemma {:induction false} AsAnswersCons(s: SolvedChecksum, ss: seq<SolvedChecksum>)
    ensures AsAnswers([s] + ss) == multiset{(KeyOf(s), RangeOf(s))} + AsAnswers(ss)
  {
    hide KeyOf;
    if ss == [] {
      assert [s] + ss == [s];
      assert AsAnswers([s][..0]) == multiset{};
    } else {
      var n := |ss| - 1;
      assert ([s] + ss)[..n + 1] == [s] + ss[..n];
      AsAnswersCons(s, ss[..n]);
    }
  }

  lemma {:induction false} InsertAnswers(
    s: SolvedChecksum, ss: seq<SolvedChecksum>, le: (SolvedChecksum, SolvedChecksum) -> bool)
    ensures AsAnswers(Insert(s, ss, le)) == multiset{(KeyOf(s), RangeOf(s))} + AsAnswers(ss)
  {
    hide KeyOf, AsAnswers;
    if ss == [] || le(s, ss[0]) {
      assert [s] + ss == Insert(s, ss, le);
      AsAnswersCons(s, ss);
    } else {
      InsertAnswers(s, ss[1..], le);
      AsAnswersCons(ss[0], Insert(s, ss[1..], le));
      AsAnswersCons(ss[0], ss[1..]);
      assert ss == [ss[0]] + ss[1..];
    }
  }

  lemma {:induction false} SortAnswers(ss: seq<SolvedChecksum>, le: (SolvedChecksum, SolvedChecksum) -> bool)
    ensures AsAnswers(Sort(ss, le)) == AsAnswers(ss)
  {
    hide KeyOf, AsAnswers, Insert;
    if ss != [] {
      SortAnswers(ss[1..], le);
      InsertAnswers(ss[0], Sort(ss[1..], le), le);
      AsAnswersCons(ss[0], ss[1..]);
      assert ss == [ss[0]] + ss[1..];
    }
  }

  lemma SortUnfolded(ss: seq<SolvedChecksum>)
    requires Unfolded(ss)
    ensures Unfolded(Sort(ss, Widest()))
  {
    var sorted := Sort(ss, Widest());
    forall i | 0 <= i < |sorted| ensures sorted[i].equivalentRanges == [] {
      SortIn(ss, Widest(), sorted[i]);
    }
  }

  /** Every solution is accounted for exactly once, as an entry or as a range folded into one. */
  lemma CollapseConserves(solutions: seq<SolvedChecksum>)
    requires Unfolded(solutions)
    ensures AllAccounts(Collapse(solutions)) == AsAnswers(solutions)
  {
    SortUnfolded(solutions);
    SortAnswers(solutions, Widest());
    FoldAllAccounts(Sort(solutions, Widest()));
  }

  // ---------- every entry is an answer, and every answer has an entry ----------

  /** An entry as it was solved, without the ranges folded into it. */
  function Alone(s: SolvedChecksum): SolvedChecksum { s.(equivalentRanges := []) }

  lemma {:induction false} Fold1Sound(kept: seq<SolvedChecksum>, s: SolvedChecksum, i: nat)
    requires i < |Fold1(kept, s)|
    ensures Alone(Fold1(kept, s)[i]) == Alone(s) ||
            exists j :: 0 <= j < |kept| && Alone(Fold1(kept, s)[i]) == Alone(kept[j])
  {
    hide Same;
    if kept != [] {
      if i == 0 || Same(kept[0], s) {
        assert Alone(Fold1(kept, s)[i]) == Alone(kept[i]);
      } else {
        Fold1Sound(kept[1..], s, i - 1);
        if j :| 0 <= j < |kept[1..]| && Alone(Fold1(kept[1..], s)[i - 1]) == Alone(kept[1..][j]) {
          assert Alone(Fold1(kept, s)[i]) == Alone(kept[j + 1]);
        }
      }
    }
  }

  lemma {:induction false} FoldAllSound(ss: seq<SolvedChecksum>, i: nat)
    requires Unfolded(ss) && i < |FoldAll(ss)|
    ensures Alone(FoldAll(ss)[i]) in ss
  {
    hide Fold1;
    var n := |ss| - 1;
    var kept := FoldAll(ss[..n]);
    Fold1Sound(kept, ss[n], i);
    if Alone(FoldAll(ss)[i]) != ss[n] {
      var j :| 0 <= j < |kept| && Alone(FoldAll(ss)[i]) == Alone(kept[j]);
      FoldAllSound(ss[..n], j);
    }
  }

  /** What is reported was solved: every entry is one of the solutions, but for the ranges folded into it. */
  lemma CollapseSound(solutions: seq<SolvedChecksum>, i: nat)
    requires Unfolded(solutions) && i < |Collapse(solutions)|
    ensures Alone(Collapse(solutions)[i]) in solutions
  {
    hide FoldAll, Sort;
    SortUnfolded(solutions);
    FoldAllSound(Sort(solutions, Widest()), i);
    SortIn(solutions, Widest(), Alone(Collapse(solutions)[i]));
  }

  lemma {:induction false} AccountsIn(ss: seq<SolvedChecksum>, i: nat, r: CalcRange)
    requires i < |ss| && r in ss[i].equivalentRanges
    ensures (KeyOf(ss[i]), r) in AllAccounts(ss)
  {
    hide KeyOf;
    if i == 0 {
      ExplanationsIn(KeyOf(ss[0]), ss[0].equivalentRanges, r);
    } else {
      AccountsIn(ss[1..], i - 1, r);
    }
  }

  lemma {:induction false} ExplanationsIn(key: FoldKey, ranges: seq<CalcRange>, r: CalcRange)
    requires r in ranges
    ensures (key, r) in Explanations(key, ranges)
  {
    var n := |ranges| - 1;
    if ranges[n] != r {
      assert r in ranges[..n];
      ExplanationsIn(key, ranges[..n], r);
    }
  }

  lemma {:induction false} AnswerWith(ss: seq<SolvedChecksum>, key: FoldKey, r: CalcRange) returns (s: SolvedChecksum)
    requires (key, r) in AsAnswers(ss)
    ensures s in ss && KeyOf(s) == key && RangeOf(s) == r
  {
    hide KeyOf;
    var n := |ss| - 1;
    if (KeyOf(ss[n]), RangeOf(ss[n])) == (key, r) {
      s := ss[n];
    } else {
      s := AnswerWith(ss[..n], key, r);
    }
  }

  /** And every range folded into it is that of a solution that says the same thing. */
  lemma FoldedRangeSound(solutions: seq<SolvedChecksum>, i: nat, r: CalcRange) returns (s: SolvedChecksum)
    requires Unfolded(solutions) && i < |Collapse(solutions)| && r in Collapse(solutions)[i].equivalentRanges
    ensures s in solutions && KeyOf(s) == KeyOf(Collapse(solutions)[i]) && RangeOf(s) == r
  {
    hide KeyOf, Collapse, AllAccounts, AsAnswers;
    AccountsIn(Collapse(solutions), i, r);
    CollapseConserves(solutions);
    s := AnswerWith(solutions, KeyOf(Collapse(solutions)[i]), r);
  }

  lemma {:induction false} FoldAllKeysAre(ss: seq<SolvedChecksum>, key: FoldKey)
    ensures key in Keys(FoldAll(ss)) <==> exists i :: 0 <= i < |ss| && KeyOf(ss[i]) == key
  {
    hide Fold1, KeyOf;
    if ss != [] {
      var n := |ss| - 1;
      FoldAllKeysAre(ss[..n], key);
      Fold1Keys(FoldAll(ss[..n]), ss[n]);
      if i :| 0 <= i < n && KeyOf(ss[i]) == key {
        assert KeyOf(ss[..n][i]) == key;
      }
      if i :| 0 <= i < n && KeyOf(ss[..n][i]) == key {
        assert KeyOf(ss[i]) == key;
      }
    }
  }

  lemma {:induction false} KeyAt(ss: seq<SolvedChecksum>, key: FoldKey) returns (i: nat)
    requires key in Keys(ss)
    ensures i < |ss| && KeyOf(ss[i]) == key
  {
    hide KeyOf;
    if KeyOf(ss[0]) == key {
      i := 0;
    } else {
      i := KeyAt(ss[1..], key);
      i := i + 1;
    }
  }

  /** Nothing solved goes unreported: every solution has the entry of its own key. */
  lemma CollapseComplete(solutions: seq<SolvedChecksum>, s: SolvedChecksum) returns (i: nat)
    requires s in solutions
    ensures i < |Collapse(solutions)| && KeyOf(Collapse(solutions)[i]) == KeyOf(s)
  {
    hide KeyOf, FoldAll, Sort;
    var sorted := Sort(solutions, Widest());
    SortIn(solutions, Widest(), s);
    var j :| 0 <= j < |sorted| && sorted[j] == s;
    FoldAllKeysAre(sorted, KeyOf(s));
    assert KeyOf(sorted[j]) == KeyOf(s);
    i := KeyAt(FoldAll(sorted), KeyOf(s));
  }

  // ---------- the widest range wins ----------

  lemma {:induction false} Fold1Widest(kept: seq<SolvedChecksum>, s: SolvedChecksum, i: nat)
    requires s.equivalentRanges == []
    requires forall k :: 0 <= k < |kept| ==> KeepsWidest(kept[k]) && NoWider(RangeOf(s), RangeOf(kept[k]))
    requires i < |Fold1(kept, s)|
    ensures KeepsWidest(Fold1(kept, s)[i])
    ensures RangeOf(Fold1(kept, s)[i]) == RangeOf(s) ||
            exists k :: 0 <= k < |kept| && RangeOf(kept[k]) == RangeOf(Fold1(kept, s)[i])
  {
    hide Same;
    if kept != [] {
      var r := Fold1(kept, s);
      if i == 0 || Same(kept[0], s) {
        assert RangeOf(r[i]) == RangeOf(kept[i]);
      } else {
        Fold1Widest(kept[1..], s, i - 1);
        assert r[i] == Fold1(kept[1..], s)[i - 1];
        if k :| 0 <= k < |kept[1..]| && RangeOf(kept[1..][k]) == RangeOf(r[i]) {
          assert RangeOf(kept[k + 1]) == RangeOf(r[i]);
        }
      }
    }
  }

  lemma {:induction false} FoldAllWidest(ss: seq<SolvedChecksum>, i: nat)
    requires Unfolded(ss) && SortedBy(ss, Widest())
    requires i < |FoldAll(ss)|
    ensures KeepsWidest(FoldAll(ss)[i])
    ensures exists k :: 0 <= k < |ss| && RangeOf(ss[k]) == RangeOf(FoldAll(ss)[i])
  {
    hide Fold1, KeepsWidest;
    var n := |ss| - 1;
    var kept := FoldAll(ss[..n]);
    forall k | 0 <= k < |kept| ensures KeepsWidest(kept[k]) && NoWider(RangeOf(ss[n]), RangeOf(kept[k])) {
      FoldAllWidest(ss[..n], k);
      var j :| 0 <= j < |ss[..n]| && RangeOf(ss[..n][j]) == RangeOf(kept[k]);
      assert Widest()(ss[j], ss[n]);
    }
    Fold1Widest(kept, ss[n], i);
    if k :| 0 <= k < |kept| && RangeOf(kept[k]) == RangeOf(FoldAll(ss)[i]) {
      FoldAllWidest(ss[..n], k);
      var j :| 0 <= j < |ss[..n]| && RangeOf(ss[..n][j]) == RangeOf(kept[k]);
      assert RangeOf(ss[j]) == RangeOf(FoldAll(ss)[i]);
    }
  }

  /** No range folded into an entry is wider than the entry's own. */
  lemma CollapseWidest(solutions: seq<SolvedChecksum>, i: nat)
    requires Unfolded(solutions) && i < |Collapse(solutions)|
    ensures KeepsWidest(Collapse(solutions)[i])
  {
    WidestTotal();
    SortSorted(solutions, Widest());
    SortUnfolded(solutions);
    FoldAllWidest(Sort(solutions, Widest()), i);
  }

  lemma WidestTotal()
    ensures TotalPreorder(Widest())
  {
  }

  // ---------- offsets as written, and positions in a frame ----------

  /** Offsets written in order are positions in order, in frames of every length, unless their signs differ. */
  lemma OffsetOrderIff(a: int, b: int)
    requires a <= b
    ensures (forall len: nat :: ResolveByteIndex(a, len) <= ResolveByteIndex(b, len)) <==> !(a < 0 <= b)
  {
    if a < 0 <= b {
      var len := b - a + 1;
      assert ResolveByteIndex(a, len) > ResolveByteIndex(b, len);
    }
  }

  /**
   A range folded into an entry never starts before it, in a frame of any length, exactly when the two
   starts are not counted from different ends; and of two that start alike it never reaches further,
   exactly when the two ends are not.
   */
  lemma CollapseWidestInFrames(solutions: seq<SolvedChecksum>, i: nat, k: nat)
    requires Unfolded(solutions) && i < |Collapse(solutions)| && k < |Collapse(solutions)[i].equivalentRanges|
    ensures var w, r := RangeOf(Collapse(solutions)[i]), Collapse(solutions)[i].equivalentRanges[k];
            && ((forall len: nat :: ResolveByteIndex(w.calcStartByte, len) <= ResolveByteIndex(r.calcStartByte, len))
                <==> !(w.calcStartByte < 0 <= r.calcStartByte))
            && (w.calcStartByte == r.calcStartByte ==>
                  ((forall len: nat :: ResolveByteIndex(r.calcEndByte, len) <= ResolveByteIndex(w.calcEndByte, len))
                   <==> !(r.calcEndByte < 0 <= w.calcEndByte)))
  {
    hide Collapse, ResolveByteIndex;
    CollapseWidest(solutions, i);
    var w, r := RangeOf(Collapse(solutions)[i]), Collapse(solutions)[i].equivalentRanges[k];
    assert NoWider(r, w);
    OffsetOrderIff(w.calcStartByte, r.calcStartByte);
    if w.calcStartByte == r.calcStartByte {
      OffsetOrderIff(r.calcEndByte, w.calcEndByte);
    }
  }

  /** An exclusive or over the bytes from the first up to `end`, in the last byte. */
  function XorUpTo(end: int): SolvedChecksum {
    SolvedChecksum(SolveTarget(-1, 1, true, 0, end), Additive(XorOp, 0), 3, 0, [])
  }

  lemma XorsSorted()
    ensures Sort([XorUpTo(-1), XorUpTo(1)], Widest()) == [XorUpTo(1), XorUpTo(-1)]
  {
    var two := [XorUpTo(-1), XorUpTo(1)];
    assert two[1..] == [XorUpTo(1)] && [XorUpTo(1)][1..] == [];
    assert Sort([XorUpTo(1)], Widest()) == [XorUpTo(1)];
    assert Insert(XorUpTo(-1), [], Widest()) == [XorUpTo(-1)];
  }

  /** Of two ranges that end one byte in and one byte from the end, the first is kept; in four bytes it is narrower. */
  lemma NarrowerKept()
    ensures Collapse([XorUpTo(-1), XorUpTo(1)]) == [XorUpTo(1).(equivalentRanges := [CalcRange(0, -1)])]
    ensures ResolveByteIndex(1, 4) < ResolveByteIndex(-1, 4)
  {
    XorsSorted();
    var sorted := [XorUpTo(1), XorUpTo(-1)];
    assert sorted[..1] == [XorUpTo(1)] && [XorUpTo(1)][..0] == [];
    assert FoldAll([XorUpTo(1)]) == [XorUpTo(1)];
    Fold1Updates([XorUpTo(1)], XorUpTo(-1), 0);
    AppendNothing([CalcRange(0, -1)]);
  }
}
