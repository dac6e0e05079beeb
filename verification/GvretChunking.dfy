/**
 What cutting a stream does to the device end. Everything read together with a later handshake is
 lost, and a cut can save it; so the cuts do not matter exactly when there is nothing to save.
 */
module GvretChunking {
  import opened Common
  import opened Numbers
  import opened Sequences
  import opened Resync
  import opened Gvret
  import opened GvretClient
  import opened GvretClientStream

  // ---------- the handshakes a scan finds ----------

  /** Where the first pair is, or the end when there is none. */
  function FirstPair(s: seq<Octet>): (p: nat)
    ensures p <= |s|
  {
    if |s| < 2 then |s| else if SyncAt(s, 0) then 0 else 1 + FirstPair(s[1..])
  }

  lemma {:induction false} FirstPairIs(s: seq<Octet>, j: nat)
    ensures FirstPair(s) < |s| ==> SyncAt(s, FirstPair(s)) && FirstPair(s) + 1 < |s|
    ensures j < FirstPair(s) ==> !SyncAt(s, j)
    ensures SyncAt(s, j) ==> FirstPair(s) <= j
  {
    if |s| >= 2 && !SyncAt(s, 0) {
      FirstPairIs(s[1..], if j == 0 then 0 else j - 1);
      SyncOfSuffix(s, 1, FirstPair(s[1..]));
      if j > 0 {
        SyncOfSuffix(s, 1, j - 1);
      }
    }
  }

  lemma FirstPairAt(s: seq<Octet>, p: nat)
    requires SyncAt(s, p) && forall j: nat :: j < p ==> !SyncAt(s, j)
    ensures FirstPair(s) == p
  {
    hide SyncAt;
    PairInside(s, p);
    FirstPairIs(s, p);
  }

  lemma NoPair(s: seq<Octet>)
    ensures NoSync(s) <==> FirstPair(s) == |s|
  {
    hide SyncAt;
    FirstPairIs(s, 0);
    forall j: nat ensures FirstPair(s) == |s| ==> !SyncAt(s, j) {
      FirstPairIs(s, j);
      PairInside(s, j);
    }
  }

  lemma PairInside(s: seq<Octet>, j: nat)
    ensures SyncAt(s, j) ==> j + 1 < |s|
  {
  }

  /** A pair that the front alone shows is the first of the whole. */
  lemma FirstPairOfFront(a: seq<Octet>, c: seq<Octet>)
    requires FirstPair(a) < |a|
    ensures FirstPair(a + c) == FirstPair(a)
  {
    var p := FirstPair(a);
    FirstPairIs(a, 0);
    forall j: nat | j < p ensures !SyncAt(a + c, j) {
      FirstPairIs(a, j);
    }
    FirstPairAt(a + c, p);
  }

  /** Behind the front's own pairs, a pair needs at least one byte of what follows. */
  lemma FirstPairBehind(a: seq<Octet>, c: seq<Octet>)
    requires NoSync(a)
    ensures FirstPair(a + c) + 1 >= |a|
  {
    FirstPairIs(a + c, 0);
    assert FirstPair(a + c) + 1 < |a| ==> SyncAt(a, FirstPair(a + c));
  }

  lemma FirstPairOfSuffix(s: seq<Octet>, x: nat)
    requires x <= FirstPair(s) < |s|
    ensures FirstPair(s[x..]) == FirstPair(s) - x
  {
    var p := FirstPair(s);
    FirstPairIs(s, 0);
    SyncOfSuffix(s, x, p - x);
    forall j: nat | j < p - x ensures !SyncAt(s[x..], j) {
      SyncOfSuffix(s, x, j);
      FirstPairIs(s, x + j);
    }
    FirstPairAt(s[x..], p - x);
  }

  // ---------- what one read keeps ----------

  /** The bytes behind the last pair, or all of them. */
  function Behind(s: seq<Octet>): (r: seq<Octet>)
    ensures |r| <= |s|
  {
    s[LastSync(s, 0)..]
  }

  lemma {:induction false} LastSyncOfSuffix(s: seq<Octet>, i: nat, j: nat)
    requires i <= j <= |s|
    ensures LastSync(s[i..], j - i) == if LastSync(s, j) == 0 then 0 else LastSync(s, j) - i
    decreases |s| - j
  {
    hide SyncAt;
    if j + 1 < |s| {
      SyncOfSuffix(s, i, j - i);
      if SyncAt(s, j) {
        LastSyncOfSuffix(s, i, j + 2);
      } else {
        LastSyncOfSuffix(s, i, j + 1);
      }
    }
  }

  lemma BehindFirst(s: seq<Octet>)
    requires FirstPair(s) < |s|
    ensures FirstPair(s) + 2 <= |s| && Behind(s) == Behind(s[FirstPair(s) + 2..])
    ensures LastSync(s, 0) > 0
  {
    hide *;
    FirstPairIs(s, 0);
    ScanToFirst(s);
    PairThen(s, FirstPair(s));
    BehindAt(s, FirstPair(s) + 2);
  }

  lemma BehindAt(s: seq<Octet>, i: nat)
    requires 0 < i <= |s| && LastSync(s, 0) == if LastSync(s, i) > 0 then LastSync(s, i) else i
    ensures Behind(s) == Behind(s[i..])
  {
    hide LastSync;
    LastSyncOfSuffix(s, i, i);
    SuffixOfSuffix(s, i, LastSync(s[i..], 0));
  }

  lemma SuffixOfSuffix(s: seq<Octet>, i: nat, j: nat)
    requires i <= |s| && j <= |s| - i
    ensures s[i..][j..] == s[i + j..]
  {
  }

  lemma ScanToFirst(s: seq<Octet>)
    ensures LastSync(s, 0) == LastSync(s, FirstPair(s))
  {
    hide SyncAt, LastSync;
    forall j: nat | j < FirstPair(s) ensures !SyncAt(s, j) {
      FirstPairIs(s, j);
    }
    ScanFrom(s, 0, FirstPair(s));
  }

  lemma PairThen(s: seq<Octet>, p: nat)
    requires SyncAt(s, p)
    ensures p + 2 <= |s| && LastSync(s, p) == if LastSync(s, p + 2) > 0 then LastSync(s, p + 2) else p + 2
  {
  }

  lemma BehindNone(s: seq<Octet>)
    requires FirstPair(s) == |s|
    ensures Behind(s) == s && LastSync(s, 0) == 0
  {
    hide LastSync;
    NoPair(s);
    NoSyncNoCut(s);
  }

  /** Pairs found in the front are gone before the rest is looked at. */
  lemma {:induction false} BehindFront(a: seq<Octet>, c: seq<Octet>)
    ensures Behind(a + c) == Behind(Behind(a) + c)
    decreases |a|
  {
    hide Behind, SyncAt;
    if FirstPair(a) == |a| {
      BehindNone(a);
    } else {
      FirstPairOfFront(a, c);
      FirstPairIs(a, 0);
      BehindFirst(a);
      BehindFirst(a + c);
      PairInside(a, FirstPair(a));
      DropAppend(a, c, FirstPair(a) + 2);
      BehindFront(a[FirstPair(a) + 2..], c);
    }
  }

  /** A byte of a pair in front changes where the pairs are, but not the first command behind them. */
  lemma {:induction false} BehindShift(s: seq<Octet>)
    requires s != [] && s[0] == SYNC_BYTE
    ensures SkipToCommand(Behind(s)) == SkipToCommand(Behind(s[1..]))
    decreases |s|
  {
    hide Behind;
    if FirstPair(s) == |s| {
      NoPair(s);
      assert Ends(s, s[1..]);
      SuffixNoSync(s, s[1..]);
      NoPair(s[1..]);
      BehindNone(s);
      BehindNone(s[1..]);
    } else if SyncAt(s, 0) {
      BehindFirst(s);
      BehindShift(s[1..]);
      assert s[1..][1..] == s[2..];
    } else {
      FirstPairOfSuffix(s, 1);
      BehindFirst(s);
      BehindFirst(s[1..]);
      assert s[1..][FirstPair(s[1..]) + 2..] == s[FirstPair(s) + 2..];
    }
  }

  // ---------- one read of a latched decoder ----------

  /** What a latched decoder makes of bytes it sees together. */
  ghost function Read(s: seq<Octet>): (seq<ClientCommand>, seq<Octet>) {
    ClientReader();
    Run(ReadClient, Behind(s))
  }

  lemma FedIsRead(buf: seq<Octet>, chunk: seq<Octet>)
    ensures Fed(State(true, buf), chunk) == (State(true, Read(buf + chunk).1), Read(buf + chunk).0)
  {
    ClientReader();
    hide Run, ReadClient, Bounded, Steady, LastSync;
  }

  /** Nothing more is read of it, and no pair is in it: what every read leaves. */
  ghost predicate Settled(buf: seq<Octet>) {
    SkipToCommand(buf) == buf && ReadClient(buf).NeedMore? && NoSync(buf)
  }

  lemma ReadSettles(s: seq<Octet>)
    ensures Settled(Read(s).1) && Ends(Behind(s), Read(s).1)
  {
    ClientReader();
    hide Run, ReadClient, Bounded, Steady, LastSync, NoSync, Ends, SkipToCommand;
    RunLeaves(ReadClient, Behind(s));
    CutLeavesNoSync(s);
    SuffixNoSync(Behind(s), Read(s).1);
  }

  lemma ReadNothing(buf: seq<Octet>)
    requires Settled(buf)
    ensures Read(buf) == ([], buf)
  {
    ClientReader();
    hide ReadClient, Bounded, Steady, NoSync, SkipToCommand, LastSync;
    NoSyncNoCut(buf);
    RunWaits(ReadClient, buf);
    hide Run;
  }

  lemma ReadQuiet(s: seq<Octet>)
    requires NoSync(s)
    ensures Bounded(ReadClient) && Read(s) == Run(ReadClient, s)
  {
    ClientReader();
    hide Run, ReadClient, Bounded, Steady, NoSync, LastSync;
    NoSyncNoCut(s);
  }

  lemma ReadBehind(s: seq<Octet>, t: seq<Octet>)
    requires SkipToCommand(Behind(s)) == SkipToCommand(Behind(t))
    ensures Read(s) == Read(t)
  {
    ClientReader();
    hide Run, ReadClient, Bounded, Steady, Behind, SkipToCommand;
    RunSkips(ReadClient, Behind(s), Behind(t));
  }

  lemma ReadFront(a: seq<Octet>, c: seq<Octet>)
    ensures Read(a + c) == Read(Behind(a) + c)
  {
    hide Run, ReadClient, Behind, SkipToCommand, Read;
    BehindFront(a, c);
    ReadBehind(a + c, Behind(a) + c);
  }

  /** With no pair beyond it, a read and then another are one. */
  lemma QuietPieces(a: seq<Octet>, c: seq<Octet>)
    requires NoSync(a + c)
    ensures Read(a + c) == (Read(a).0 + Read(Read(a).1 + c).0, Read(Read(a).1 + c).1)
  {
    ClientReader();
    hide Run, ReadClient, Bounded, Steady, NoSync, SkipToCommand, Read, Ends, Settled;
    PrefixNoSync(a, c);
    ReadQuiet(a);
    ReadQuiet(a + c);
    ReadSettles(a);
    NoPair(a);
    BehindNone(a);
    LeftStaysQuiet(a, Read(a).1, c);
    ReadQuiet(Read(a).1 + c);
    RunInPieces(ReadClient, a, c);
  }

  lemma EndsAt(a: seq<Octet>, left: seq<Octet>, c: seq<Octet>)
    requires Ends(a, left)
    ensures |left| <= |a| && left + c == (a + c)[|a| - |left|..]
  {
  }

  lemma PairBeyond(s: seq<Octet>, x: nat)
    requires x <= FirstPair(s) < |s|
    ensures Behind(s) == Behind(s[x..])
  {
    hide FirstPair, Behind;
    FirstPairOfSuffix(s, x);
    BehindFirst(s);
    BehindFirst(s[x..]);
    SuffixOfSuffix(s, x, FirstPair(s) - x + 2);
  }

  lemma PairAcross(s: seq<Octet>, x: nat)
    requires x == FirstPair(s) + 1 <= |s|
    ensures SkipToCommand(Behind(s)) == SkipToCommand(Behind(s[x..]))
  {
    hide FirstPair, Behind, SkipToCommand;
    FirstPairIs(s, 0);
    PairBytes(s, x - 1);
    BehindFirst(s);
    BehindShift(s[x..]);
    SuffixOfSuffix(s, x, 1);
  }

  /** With a pair beyond it, what is read behind the pair is what would be read of all together. */
  lemma BrokenPieces(a: seq<Octet>, c: seq<Octet>, left: seq<Octet>)
    requires NoSync(a) && Ends(a, left) && FirstPair(a + c) < |a + c|
    ensures Read(a + c) == Read(left + c)
  {
    hide Run, ReadClient, NoSync, SkipToCommand, Read, Ends, Behind, FirstPair;
    var s := a + c;
    EndsAt(a, left, c);
    var x := |a| - |left|;
    FirstPairBehind(a, c);
    if x <= FirstPair(s) {
      PairBeyond(s, x);
    } else {
      PairAcross(s, x);
    }
    ReadBehind(s, s[x..]);
  }

  lemma PairBytes(s: seq<Octet>, p: nat)
    requires SyncAt(s, p)
    ensures p + 1 < |s| && s[p + 1] == SYNC_BYTE
  {
  }

  /** Two reads in place of one: what a later pair would have eaten comes out as well, and nothing else changes. */
  lemma TwoPieces(a: seq<Octet>, c: seq<Octet>)
    ensures var (cmds, left) := Read(a);
            var (more, final) := Read(left + c);
            && Read(a + c).1 == final
            && Read(a + c).0 == if FirstPair(Behind(a) + c) == |Behind(a) + c| then cmds + more else more
  {
    hide Run, ReadClient, NoSync, SkipToCommand, Read, Ends, Behind, Settled;
    var kept := Behind(a);
    ReadSettles(a);
    ReadFront(a, c);
    BehindQuiet(a);
    NoPair(kept + c);
    if FirstPair(kept + c) == |kept + c| {
      QuietPieces(kept, c);
    } else {
      BrokenPieces(kept, c, Read(a).1);
    }
  }

  lemma BehindQuiet(a: seq<Octet>)
    ensures NoSync(Behind(a)) && Read(Behind(a)) == Read(a)
  {
    hide Run, ReadClient, NoSync, SkipToCommand, Read, LastSync;
    CutLeavesNoSync(a);
    NoSyncNoCut(Behind(a));
    ReadBehind(Behind(a), a);
  }

  // ---------- what a handshake may stand behind ----------

  /**
   No handshake that a scan finds, from left to right, has a whole command between it and the one before
   it, its own first byte counted in.
   */
  ghost predicate NothingToSave(s: seq<Octet>)
    decreases |s|
  {
    ClientReader();
    var p := FirstPair(s);
    p + 1 < |s| ==> Run(ReadClient, s[..p + 1]).0 == [] && NothingToSave(s[p + 2..])
  }

  lemma NothingAfterAll(s: seq<Octet>)
    requires FirstPair(s) == |s|
    ensures NothingToSave(s)
  {
  }

  lemma SavesStep(s: seq<Octet>)
    requires FirstPair(s) < |s|
    ensures FirstPair(s) + 2 <= |s| && Bounded(ReadClient)
    ensures NothingToSave(s) <==> Run(ReadClient, s[..FirstPair(s) + 1]).0 == [] && NothingToSave(s[FirstPair(s) + 2..])
  {
    ClientReader();
    hide Run, ReadClient, Bounded, Steady, SyncAt;
    FirstPairIs(s, 0);
    PairInside(s, FirstPair(s));
  }

  lemma RunSkipsFirst(s: seq<Octet>)
    requires s != [] && s[0] == SYNC_BYTE
    ensures Bounded(ReadClient) && Run(ReadClient, s) == Run(ReadClient, s[1..])
  {
    ClientReader();
    hide Run, ReadClient, Bounded, Steady;
    assert SkipToCommand(s) == SkipToCommand(s[1..]);
    RunSkips(ReadClient, s, s[1..]);
  }

  lemma OneSyncByte(s: seq<Octet>)
    requires SyncAt(s, 0)
    ensures Bounded(ReadClient) && Run(ReadClient, s[..1]).0 == []
  {
    ClientReader();
    hide Run, Bounded, Steady;
    NothingReads();
    RunSkipsFirst(s[..1]);
    assert s[..1][1..] == [];
  }

  lemma NothingReads()
    ensures Bounded(ReadClient) && Run(ReadClient, []) == ([], [])
  {
    ClientReader();
    assert SkipToCommand([]) == [] && ReadClient([]).NeedMore?;
    hide Bounded, Steady, ReadClient;
  }

  lemma {:induction false} SavesShift(s: seq<Octet>)
    requires s != [] && s[0] == SYNC_BYTE
    ensures NothingToSave(s) <==> NothingToSave(s[1..])
    decreases |s|
  {
    hide Run, ReadClient, Bounded, NothingToSave, NoSync;
    if FirstPair(s) == |s| {
      NoPairBehind(s, 1);
      NothingAfterAll(s);
      NothingAfterAll(s[1..]);
    } else if SyncAt(s, 0) {
      SavesStep(s);
      OneSyncByte(s);
      SavesShift(s[1..]);
      SuffixOfSuffix(s, 1, 1);
    } else {
      SavesShiftApart(s);
    }
  }

  lemma NoPairBehind(s: seq<Octet>, i: nat)
    requires FirstPair(s) == |s| && i <= |s|
    ensures FirstPair(s[i..]) == |s[i..]|
  {
    hide FirstPair, NoSync;
    NoPair(s);
    EndsAfter(s, i);
    SuffixNoSync(s, s[i..]);
    NoPair(s[i..]);
  }

  lemma SavesShiftApart(s: seq<Octet>)
    requires s != [] && s[0] == SYNC_BYTE && 0 < FirstPair(s) < |s|
    ensures NothingToSave(s) <==> NothingToSave(s[1..])
  {
    hide Run, ReadClient, Bounded, NothingToSave, FirstPair, SyncAt;
    var p := FirstPair(s);
    FirstPairOfSuffix(s, 1);
    SavesStep(s);
    SavesStep(s[1..]);
    SuffixOfSuffix(s, 1, p + 1);
    RunSkipsFirst(s[..p + 1]);
    assert s[..p + 1][1..] == s[1..][..p];
  }

  // ---------- saving nothing, from one read to the next ----------

  lemma {:induction false} SavesFront(a: seq<Octet>, c: seq<Octet>)
    requires NothingToSave(a + c)
    ensures NothingToSave(Behind(a) + c)
    decreases |a|
  {
    hide Run, ReadClient, Bounded, NothingToSave, Behind, SyncAt;
    if FirstPair(a) == |a| {
      BehindNone(a);
    } else {
      FirstPairOfFront(a, c);
      BehindFirst(a);
      SavesStep(a + c);
      DropAppend(a, c, FirstPair(a) + 2);
      SavesFront(a[FirstPair(a) + 2..], c);
    }
  }

  /** The bytes of a first pair's front, read in two pieces: neither yields anything. */
  lemma SavesApart(a: seq<Octet>, w: seq<Octet>)
    ensures Bounded(ReadClient)
    ensures Run(ReadClient, a + w).0 == [] ==>
              Run(ReadClient, a).0 == [] && Run(ReadClient, Run(ReadClient, a).1 + w).0 == []
  {
    ClientReader();
    hide Run, ReadClient, Bounded, Steady;
    RunInPieces(ReadClient, a, w);
  }

  /** If there is nothing to save in a read and what follows, there is nothing in what it leaves and what follows. */
  lemma SavesLeft(a: seq<Octet>, c: seq<Octet>, left: seq<Octet>)
    requires NoSync(a) && NothingToSave(a + c)
    requires Bounded(ReadClient) && left == Run(ReadClient, a).1 && Settled(left) && Ends(a, left)
    ensures NothingToSave(left + c)
    ensures FirstPair(a + c) < |a + c| ==> Run(ReadClient, a).0 == []
  {
    hide Run, ReadClient, Bounded, NothingToSave, FirstPair, SyncAt, NoSync, Settled, Ends;
    var s, p := a + c, FirstPair(a + c);
    EndsAt(a, left, c);
    var x := |a| - |left|;
    if p == |s| {
      NoPairBehind(s, x);
      NothingAfterAll(s[x..]);
    } else {
      FirstPairBehind(a, c);
      SavesStep(s);
      var w := c[..p + 1 - |a|];
      assert s[..p + 1] == a + w;
      SavesApart(a, w);
      if x <= p {
        FirstPairOfSuffix(s, x);
        SavesStep(s[x..]);
        SuffixOfSuffix(s, x, p - x + 2);
        assert s[x..][..p - x + 1] == left + w;
      } else {
        FirstPairIs(s, 0);
        PairBytes(s, p);
        SuffixOfSuffix(s, x, 1);
        SavesShift(s[x..]);
      }
    }
  }

  lemma SavesNext(a: seq<Octet>, c: seq<Octet>)
    requires NothingToSave(a + c)
    ensures NothingToSave(Read(a).1 + c)
    ensures FirstPair(Behind(a) + c) < |Behind(a) + c| ==> Read(a).0 == []
  {
    ClientReader();
    hide Run, ReadClient, Bounded, Steady, NothingToSave, FirstPair, NoSync, Settled, Ends, Behind;
    SavesFront(a, c);
    ReadSettles(a);
    BehindQuiet(a);
    SavesLeft(Behind(a), c, Read(a).1);
  }

  // ---------- any way of cutting, once latched ----------

  /** However a stream is cut, a latched decoder ends with the bytes it would keep of all of it together. */
  lemma {:induction false} SameLeft(buf: seq<Octet>, chunks: seq<seq<Octet>>)
    requires Settled(buf)
    ensures FedAll(State(true, buf), chunks).0 == State(true, Read(buf + Flatten(chunks)).1)
    decreases |chunks|
  {
    hide Read, Settled, Fed, Behind, FirstPair, Ends;
    if chunks == [] {
      AppendNothing(buf);
      ReadNothing(buf);
    } else {
      AppendAssociative(buf, chunks[0], Flatten(chunks[1..]));
      FedIsRead(buf, chunks[0]);
      ReadSettles(buf + chunks[0]);
      TwoPieces(buf + chunks[0], Flatten(chunks[1..]));
      SameLeft(Read(buf + chunks[0]).1, chunks[1..]);
    }
  }

  /** With nothing to save, any cutting yields what all of it together yields. */
  lemma {:induction false} SameRead(buf: seq<Octet>, chunks: seq<seq<Octet>>)
    requires Settled(buf) && NothingToSave(buf + Flatten(chunks))
    ensures FedAll(State(true, buf), chunks).1 == Read(buf + Flatten(chunks)).0
    decreases |chunks|
  {
    hide Read, Settled, Fed, Behind, FirstPair, Ends, NothingToSave;
    if chunks == [] {
      AppendNothing(buf);
      ReadNothing(buf);
    } else {
      var all, more := buf + chunks[0], Flatten(chunks[1..]);
      AppendAssociative(buf, chunks[0], more);
      FedIsRead(buf, chunks[0]);
      ReadSettles(all);
      TwoPieces(all, more);
      SavesNext(all, more);
      SameRead(Read(all).1, chunks[1..]);
      AppendNothing(FedAll(State(true, Read(all).1), chunks[1..]).1);
    }
  }

  /** Where there is something to save, a cut between the two bytes of a pair saves it. */
  lemma {:induction false} SavingCut(s: seq<Octet>) returns (n: nat)
    requires !NothingToSave(s)
    ensures n <= |s|
    ensures Read(s[..n]).0 != []
    ensures FirstPair(Behind(s[..n]) + s[n..]) < |Behind(s[..n]) + s[n..]|
    decreases |s|
  {
    ClientReader();
    hide Run, ReadClient, Bounded, Steady, NothingToSave, FirstPair, Behind, Read, SyncAt, NoSync;
    if FirstPair(s) == |s| {
      NothingAfterAll(s);
    }
    var p := FirstPair(s);
    SavesStep(s);
    if Run(ReadClient, s[..p + 1]).0 != [] {
      n := p + 1;
      FrontQuiet(s);
      ReadQuiet(s[..n]);
      NoPair(s[..n]);
      BehindNone(s[..n]);
      assert s[..n] + s[n..] == s;
    } else {
      var k := SavingCut(s[p + 2..]);
      n := p + 2 + k;
      FrontPair(s, n);
      assert s[..n][p + 2..] == s[p + 2..][..k];
      BehindFirst(s[..n]);
      ReadSame(s[..n], s[..n][p + 2..]);
      SuffixOfSuffix(s, p + 2, k);
    }
  }

  lemma ReadSame(s: seq<Octet>, t: seq<Octet>)
    requires Behind(s) == Behind(t)
    ensures Read(s) == Read(t)
  {
  }

  lemma FrontQuiet(s: seq<Octet>)
    requires FirstPair(s) < |s|
    ensures NoSync(s[..FirstPair(s) + 1])
  {
    var n := FirstPair(s) + 1;
    forall j: nat ensures !SyncAt(s[..n], j) {
      FirstPairIs(s, j);
    }
  }

  lemma FrontPair(s: seq<Octet>, n: nat)
    requires FirstPair(s) < |s| && FirstPair(s) + 2 <= n <= |s|
    ensures FirstPair(s[..n]) == FirstPair(s) < |s[..n]|
  {
    var p := FirstPair(s);
    FirstPairIs(s, 0);
    forall j: nat | j < p ensures !SyncAt(s[..n], j) {
      FirstPairIs(s, j);
    }
    FirstPairAt(s[..n], p);
  }

  /** A front that yields something is more than a settled buffer. */
  lemma CutInside(buf: seq<Octet>, s: seq<Octet>, n: nat)
    requires Settled(buf) && n <= |buf + s| && Read((buf + s)[..n]).0 != []
    ensures n >= |buf|
  {
    ClientReader();
    hide Run, ReadClient, Bounded, Steady, NoSync, Read, SkipToCommand;
    if n < |buf| {
      assert (buf + s)[..n] == buf[..n] && buf == buf[..n] + buf[n..];
      ReadNothing(buf);
      ReadQuiet(buf);
      PrefixNoSync(buf[..n], buf[n..]);
      ReadQuiet(buf[..n]);
      SavesApart(buf[..n], buf[n..]);
      assert false;
    }
  }

  /** All cuttings of a stream give what the stream gives uncut. */
  ghost predicate CutsDoNotMatter(st: State, s: seq<Octet>) {
    forall chunks: seq<seq<Octet>> {:trigger FedAll(st, chunks)} ::
      Flatten(chunks) == s ==> FedAll(st, chunks).1 == FedAll(st, [s]).1
  }

  lemma TwoChunks(first: seq<Octet>, second: seq<Octet>)
    ensures Flatten([first, second]) == first + second
  {
    assert [first, second][1..] == [second] && [second][1..] == [];
    AppendNothing(second);
    assert Flatten([second]) == second + Flatten([second][1..]);
  }

  lemma TheCutMatters(buf: seq<Octet>, s: seq<Octet>) returns (n: nat)
    requires Settled(buf) && !NothingToSave(buf + s)
    ensures n <= |s| && FedAll(State(true, buf), [s[..n], s[n..]]).1 != FedAll(State(true, buf), [s]).1
  {
    hide Read, Settled, Fed, FedAll, Behind, FirstPair, Ends, NothingToSave;
    var t := buf + s;
    var k := SavingCut(t);
    CutInside(buf, s, k);
    n := k - |buf|;
    assert t[..k] == buf + s[..n] && t[k..] == s[n..];
    FedTwo(State(true, buf), s[..n], s[n..]);
    FedOne(State(true, buf), s);
    FedIsRead(buf, s);
    FedIsRead(buf, s[..n]);
    FedIsRead(Read(t[..k]).1, s[n..]);
    TwoPieces(t[..k], t[k..]);
    assert t[..k] + t[k..] == t;
    LongerDiffers(Read(t[..k]).0, Read(t).0);
  }

  lemma LongerDiffers<A>(a: seq<A>, b: seq<A>)
    requires a != []
    ensures a + b != b
  {
    assert |a + b| > |b|;
  }

  /**
   A latched decoder reads a stream the same under every cutting exactly when no handshake in it stands behind a
   whole command, its own first byte counted in. What it reads uncut is what lies behind the last handshake.
   */
  lemma LatchedIff(buf: seq<Octet>, s: seq<Octet>)
    requires Settled(buf)
    ensures Bounded(ReadClient)
    ensures CutsDoNotMatter(State(true, buf), s) <==> NothingToSave(buf + s)
    ensures FedAll(State(true, buf), [s]).1 == Run(ReadClient, (buf + s)[LastSync(buf + s, 0)..]).0
  {
    ClientReader();
    ReadUncut(buf, s);
    hide Run, ReadClient, Bounded, Read, Settled, Fed, FedAll, NothingToSave, LastSync;
    if NothingToSave(buf + s) {
      forall chunks: seq<seq<Octet>> | Flatten(chunks) == s
        ensures FedAll(State(true, buf), chunks).1 == FedAll(State(true, buf), [s]).1
      {
        SameRead(buf, chunks);
      }
    } else {
      var n := TheCutMatters(buf, s);
      TwoChunks(s[..n], s[n..]);
      assert s[..n] + s[n..] == s;
    }
  }

  lemma ReadUncut(buf: seq<Octet>, s: seq<Octet>)
    ensures Bounded(ReadClient)
    ensures FedAll(State(true, buf), [s]).1 == Read(buf + s).0 == Run(ReadClient, (buf + s)[LastSync(buf + s, 0)..]).0
  {
    ClientReader();
    hide Run, ReadClient, Bounded, Fed, FedAll, LastSync;
    FedOne(State(true, buf), s);
    FedIsRead(buf, s);
  }

  // ---------- before the first handshake ----------

  /** What comes behind the first handshake, if there is one. */
  function AfterFirst(s: seq<Octet>): seq<Octet>
  {
    var p := FirstPair(s);
    if p + 2 <= |s| then s[p + 2..] else []
  }

  lemma FreshWaits(buf: seq<Octet>, chunk: seq<Octet>)
    requires FirstPair(buf + chunk) == |buf + chunk|
    ensures Fed(State(false, buf), chunk) == (State(false, buf + chunk), [])
  {
    hide FirstPair;
    NoPair(buf + chunk);
    FeedBeforeSync(buf, chunk);
  }

  lemma FreshLatches(buf: seq<Octet>, chunk: seq<Octet>)
    requires FirstPair(buf + chunk) < |buf + chunk|
    ensures Fed(State(false, buf), chunk) == Fed(State(true, []), AfterFirst(buf + chunk))
  {
    hide FirstPair, Fed, AfterFirst, LastSync, Behind, Read;
    var all := buf + chunk;
    AfterFirstIs(all);
    BehindFirst(all);
    AppendNothing(AfterFirst(all));
    ReadSame(all, AfterFirst(all));
    FedIsRead([], AfterFirst(all));
    LatchingRead(buf, chunk);
  }

  lemma LatchingRead(buf: seq<Octet>, chunk: seq<Octet>)
    requires LastSync(buf + chunk, 0) > 0
    ensures Fed(State(false, buf), chunk) == (State(true, Read(buf + chunk).1), Read(buf + chunk).0)
  {
    ClientReader();
    hide Run, ReadClient, Bounded, Steady, LastSync;
  }

  /** Cut as it is, a stream reads to a fresh decoder as what lies behind its first handshake does to a latched one. */
  lemma {:induction false} FreshIsLatched(buf: seq<Octet>, chunks: seq<seq<Octet>>) returns (later: seq<seq<Octet>>)
    requires FirstPair(buf) == |buf| && FirstPair(buf + Flatten(chunks)) < |buf + Flatten(chunks)|
    ensures Flatten(later) == AfterFirst(buf + Flatten(chunks))
    ensures FedAll(State(false, buf), chunks) == FedAll(State(true, []), later)
    ensures chunks != [] && FirstPair(buf + chunks[0]) < |buf + chunks[0]| ==>
              later == [AfterFirst(buf + chunks[0])] + chunks[1..]
    decreases |chunks|
  {
    hide Fed, FirstPair, AfterFirst;
    if chunks == [] {
      AppendNothing(buf);
      assert false;
    }
    var all, more := buf + chunks[0], Flatten(chunks[1..]);
    AppendAssociative(buf, chunks[0], more);
    if FirstPair(all) == |all| {
      FreshWaits(buf, chunks[0]);
      later := FreshIsLatched(all, chunks[1..]);
      AppendNothing(FedAll(State(false, all), chunks[1..]).1);
    } else {
      FreshLatches(buf, chunks[0]);
      later := [AfterFirst(all)] + chunks[1..];
      assert later[1..] == chunks[1..];
      AfterFirstOf(all, more);
    }
  }

  lemma AfterFirstOf(a: seq<Octet>, c: seq<Octet>)
    requires FirstPair(a) < |a|
    ensures AfterFirst(a + c) == AfterFirst(a) + c
  {
    hide FirstPair, AfterFirst;
    FirstPairOfFront(a, c);
    AfterFirstIs(a);
    AfterFirstIs(a + c);
    DropAppend(a, c, FirstPair(a) + 2);
  }

  lemma AfterFirstIs(s: seq<Octet>)
    requires FirstPair(s) < |s|
    ensures FirstPair(s) + 2 <= |s| && AfterFirst(s) == s[FirstPair(s) + 2..]
  {
    hide FirstPair, SyncAt;
    FirstPairIs(s, 0);
    PairInside(s, FirstPair(s));
  }

  lemma {:induction false} FreshHearsNothing(buf: seq<Octet>, chunks: seq<seq<Octet>>)
    requires FirstPair(buf + Flatten(chunks)) == |buf + Flatten(chunks)|
    ensures FedAll(State(false, buf), chunks) == (State(false, buf + Flatten(chunks)), [])
    decreases |chunks|
  {
    hide Fed, FirstPair;
    if chunks == [] {
      AppendNothing(buf);
    } else {
      var all, more := buf + chunks[0], Flatten(chunks[1..]);
      AppendAssociative(buf, chunks[0], more);
      if FirstPair(all) < |all| {
        FirstPairOfFront(all, more);
      }
      FreshWaits(buf, chunks[0]);
      FreshHearsNothing(all, chunks[1..]);
      AppendNothing<ClientCommand>([]);
    }
  }

  lemma NothingIsSettled()
    ensures Settled([]) && FirstPair([]) == 0
  {
  }

  lemma FreshUncut(s: seq<Octet>)
    requires FirstPair(s) < |s|
    ensures FedAll(State(false, []), [s]) == FedAll(State(true, []), [AfterFirst(s)])
  {
    hide Fed, FedAll, FirstPair, AfterFirst;
    AppendNothing(s);
    FreshLatches([], s);
    FedOne(State(false, []), s);
    FedOne(State(true, []), AfterFirst(s));
  }

  lemma Slices(s: seq<Octet>, m: nat, n: nat)
    requires m + n <= |s|
    ensures s[..m + n][m..] == s[m..][..n] && s[m + n..] == s[m..][n..] && s[..m + n] + s[m + n..] == s
  {
  }

  lemma FreshFirstPiece(s: seq<Octet>, n: nat)
    requires FirstPair(s) < |s| && n <= |AfterFirst(s)|
    ensures FirstPair(s) + 2 + n <= |s|
    ensures var k, u := FirstPair(s) + 2 + n, AfterFirst(s);
            && FirstPair(s[..k]) < |s[..k]| && AfterFirst(s[..k]) == u[..n]
            && s[k..] == u[n..] && s[..k] + s[k..] == s
  {
    hide FirstPair, AfterFirst;
    AfterFirstIs(s);
    Slices(s, FirstPair(s) + 2, n);
    FrontPair(s, FirstPair(s) + 2 + n);
    AfterFirstIs(s[..FirstPair(s) + 2 + n]);
  }

  lemma TwoChunkParts(first: seq<Octet>, second: seq<Octet>)
    ensures [first, second][0] == first && [first, second][1..] == [second] && [first] + [second] == [first, second]
  {
  }

  lemma FreshTwoPieces(s: seq<Octet>, n: nat)
    requires FirstPair(s) < |s| && n <= |AfterFirst(s)|
    ensures FirstPair(s) + 2 + n <= |s|
    ensures var k, u := FirstPair(s) + 2 + n, AfterFirst(s);
            FedAll(State(false, []), [s[..k], s[k..]]) == FedAll(State(true, []), [u[..n], u[n..]])
  {
    FreshFirstPiece(s, n);
    NothingIsSettled();
    hide *;
    var k, u := FirstPair(s) + 2 + n, AfterFirst(s);
    TwoChunks(s[..k], s[k..]);
    AppendNothing(s);
    AppendNothing(s[..k]);
    var later := FreshIsLatched([], [s[..k], s[k..]]);
    TwoChunkParts(s[..k], s[k..]);
    TwoChunkParts(u[..n], u[n..]);
  }

  lemma FreshCutMatters(s: seq<Octet>) returns (k: nat)
    requires FirstPair(s) < |s| && !NothingToSave(AfterFirst(s))
    ensures k <= |s| && FedAll(State(false, []), [s[..k], s[k..]]).1 != FedAll(State(false, []), [s]).1
  {
    hide Fed, FedAll, NothingToSave, Settled, FirstPair, AfterFirst;
    NothingIsSettled();
    AppendNothing(AfterFirst(s));
    var n := TheCutMatters([], AfterFirst(s));
    FreshTwoPieces(s, n);
    FreshUncut(s);
    k := FirstPair(s) + 2 + n;
  }

  /** So a fresh decoder, from its second handshake on: what lies before the first is lost under every cutting. */
  lemma FreshIff(s: seq<Octet>)
    ensures CutsDoNotMatter(State(false, []), s) <==> NothingToSave(AfterFirst(s))
  {
    hide Fed, FedAll, NothingToSave, Settled, FirstPair, AfterFirst;
    AppendNothing(s);
    if FirstPair(s) == |s| {
      FreshAllAlike(s);
    } else if NothingToSave(AfterFirst(s)) {
      FreshAllRead(s);
    } else {
      var k := FreshCutMatters(s);
      TwoChunks(s[..k], s[k..]);
      assert s[..k] + s[k..] == s;
    }
  }

  lemma FreshAllAlike(s: seq<Octet>)
    requires FirstPair(s) == |s|
    ensures CutsDoNotMatter(State(false, []), s) && NothingToSave(AfterFirst(s))
  {
    hide Fed, FedAll, FirstPair;
    AppendNothing(s);
    NothingIsSettled();
    NothingAfterAll([]);
    OneChunk(s);
    hide NothingToSave, Flatten;
    forall chunks: seq<seq<Octet>> | Flatten(chunks) == s
      ensures FedAll(State(false, []), chunks).1 == FedAll(State(false, []), [s]).1
    {
      FreshHearsNothing([], chunks);
      FreshHearsNothing([], [s]);
    }
  }

  lemma FreshReads(s: seq<Octet>, chunks: seq<seq<Octet>>)
    requires FirstPair(s) < |s| && NothingToSave(AfterFirst(s)) && Flatten(chunks) == s
    ensures FedAll(State(false, []), chunks).1 == Read(AfterFirst(s)).0
  {
    hide Fed, FedAll, NothingToSave, Settled, FirstPair, AfterFirst, Read, Flatten;
    NothingIsSettled();
    AppendNothing(s);
    AppendNothing(AfterFirst(s));
    var later := FreshIsLatched([], chunks);
    SameRead([], later);
  }

  lemma FreshAllRead(s: seq<Octet>)
    requires FirstPair(s) < |s| && NothingToSave(AfterFirst(s))
    ensures CutsDoNotMatter(State(false, []), s)
  {
    OneChunk(s);
    hide Fed, FedAll, NothingToSave, FirstPair, AfterFirst, Read, Flatten;
    FreshReads(s, [s]);
    forall chunks: seq<seq<Octet>> | Flatten(chunks) == s
      ensures FedAll(State(false, []), chunks).1 == FedAll(State(false, []), [s]).1
    {
      FreshReads(s, chunks);
    }
  }

  lemma OneChunk(s: seq<Octet>)
    ensures Flatten([s]) == s
  {
    assert [s][1..] == [];
    AppendNothing(s);
  }

  // ---------- two streams that lose a command ----------

  lemma Reads(s: seq<Octet>, cmd: ClientCommand)
    requires NoSync(s) && s != [] && s[0] == CMD && ReadClient(s).Consume?
    requires ReadClient(s).msg == Some(cmd) && ReadClient(s).n <= |s| && NoCommand(s[ReadClient(s).n..])
    ensures Read(s) == ([cmd], [])
  {
    ClientReader();
    ReadQuiet(s);
    SkipAtCommand(s);
    NothingReads();
    RunSkips(ReadClient, s[ReadClient(s).n..], []);
    RunConsumes(ReadClient, s, Some(cmd), ReadClient(s).n);
    hide Run, Bounded, Steady;
    AppendNothing([cmd]);
  }

  lemma EndsInSync(s: seq<Octet>)
    requires |s| >= 2 && LastSync(s, 0) == |s|
    ensures Read(s) == ([], [])
  {
    ClientReader();
    NothingReads();
    hide Run, ReadClient, Bounded, Steady, LastSync;
    assert Behind(s) == [];
  }

  /** A command that one read would lose to a handshake, saved by a cut. */
  lemma Saved(first: seq<Octet>, second: seq<Octet>, cmd: ClientCommand)
    requires Read(first) == ([cmd], []) && Read(second) == ([], [])
    requires |first + second| >= 2 && LastSync(first + second, 0) == |first + second|
    ensures FedAll(State(true, []), [first + second]).1 == []
    ensures FedAll(State(true, []), [first, second]).1 == [cmd]
  {
    hide Fed, FedAll, Read, LastSync;
    EndsInSync(first + second);
    FedOne(State(true, []), first + second);
    FedTwo(State(true, []), first, second);
    FedIsRead([], first + second);
    FedIsRead([], first);
    FedIsRead([], second);
    AppendNothing(first);
    AppendNothing(second);
    AppendNothing(first + second);
    AppendNothing([cmd]);
  }

  /** A request with a handshake behind it is lost, and read if the read ends between them. */
  lemma ARequestLost()
    ensures FedAll(State(true, []), [[CMD, OP_DEV_INFO, SYNC_BYTE, SYNC_BYTE]]).1 == []
    ensures FedAll(State(true, []), [[CMD, OP_DEV_INFO], [SYNC_BYTE, SYNC_BYTE]]).1 == [AskDevInfo]
  {
    var first, second: seq<Octet> := [CMD, OP_DEV_INFO], [SYNC_BYTE, SYNC_BYTE];
    assert first + second == [CMD, OP_DEV_INFO, SYNC_BYTE, SYNC_BYTE];
    Reads(first, AskDevInfo);
    EndsInSync(second);
    LastPairEnds(first + second, 2);
    hide Fed, FedAll, Read, LastSync;
    Saved(first, second, AskDevInfo);
  }

  lemma LastPairEnds(s: seq<Octet>, p: nat)
    requires |s| == p + 2 && SyncAt(s, p) && forall j: nat :: j < p ==> !SyncAt(s, j)
    ensures LastSync(s, 0) == |s|
  {
    ScanFrom(s, 0, p);
  }

  /** A frame to be sent with one byte, which is that of a handshake, and then another such byte. */
  const ENDS_IN_SYNC: seq<Octet> := [CMD, OP_FRAME, 0, 0, 0, 0, 0, 1, SYNC_BYTE]

  lemma FrameIs()
    ensures TransmitOf(ENDS_IN_SYNC) == Transmit(0, 0, false, [SYNC_BYTE])
  {
    IdZero();
    hide LittleEndian, SplitId;
    var s := ENDS_IN_SYNC;
    assert s[8..9] == [SYNC_BYTE];
    assert s[2] == 0 && s[3] == 0 && s[4] == 0 && s[5] == 0 && s[6] == 0;
  }

  lemma IdZero()
    ensures LittleEndian(0, 0, 0, 0) == 0 && SplitId(0) == (0, false)
  {
    MaskedZero();
    ZeroBytes();
    hide MaskedId, LittleEndian, Byte0, Byte1, Byte2, Byte3;
    LittleEndianRoundTrip(0);
  }

  lemma ZeroBytes()
    ensures Byte0(0) == 0 && Byte1(0) == 0 && Byte2(0) == 0 && Byte3(0) == 0
  {
  }

  lemma MaskedZero()
    ensures MaskedId(0, false) == 0
  {
  }

  lemma FrameDecides()
    ensures ReadClient(ENDS_IN_SYNC) == Consume(Some(Transmit(0, 0, false, [SYNC_BYTE])), 9)
  {
    FrameIs();
    hide TransmitOf;
    assert ENDS_IN_SYNC[..9] == ENDS_IN_SYNC;
  }

  lemma FrameEndsInSync()
    ensures ENDS_IN_SYNC != [] && ENDS_IN_SYNC[0] == CMD && |ENDS_IN_SYNC| == 9
    ensures NoSync(ENDS_IN_SYNC) && NoCommand(ENDS_IN_SYNC[9..])
    ensures LastSync(ENDS_IN_SYNC + [SYNC_BYTE], 0) == 10
  {
    assert ENDS_IN_SYNC[9..] == [];
    hide LastSync;
    LastPairEnds(ENDS_IN_SYNC + [SYNC_BYTE], 8);
  }

  lemma FrameReads()
    ensures Read(ENDS_IN_SYNC) == ([Transmit(0, 0, false, [SYNC_BYTE])], [])
  {
    FrameDecides();
    FrameEndsInSync();
    hide *;
    Reads(ENDS_IN_SYNC, Transmit(0, 0, false, [SYNC_BYTE]));
  }

  /** What is read as a frame before the second byte comes is lost to the handshake the two make. */
  lemma AFrameLost()
    ensures FedAll(State(true, []), [ENDS_IN_SYNC + [SYNC_BYTE]]).1 == []
    ensures FedAll(State(true, []), [ENDS_IN_SYNC, [SYNC_BYTE]]).1 == [Transmit(0, 0, false, [SYNC_BYTE])]
  {
    FrameReads();
    SyncByteReads();
    FrameEndsInSync();
    hide *;
    Saved(ENDS_IN_SYNC, [SYNC_BYTE], Transmit(0, 0, false, [SYNC_BYTE]));
  }

  lemma SyncByteReads()
    ensures Read([SYNC_BYTE]) == ([], [])
  {
    ReadNothing([]) by {
      NothingIsSettled();
    }
    assert [SYNC_BYTE][1..] == [];
    assert Behind([SYNC_BYTE]) == [SYNC_BYTE] && Behind([]) == [];
    ReadBehind([SYNC_BYTE], []);
  }
}
