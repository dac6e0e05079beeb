/** The two CRC policies side by side. */
module RtuPolicies {
  import opened Common
  import opened Sequences
  import opened RtuStream
  import opened RtuCleanStream
  import opened RtuSafety

  predicate AllValid(msgs: seq<Message>) { forall i :: 0 <= i < |msgs| ==> msgs[i].crcValid }

  lemma AllValidAppend(a: seq<Message>, b: seq<Message>)
    ensures AllValid(a + b) <==> AllValid(a) && AllValid(b)
  {
    assert forall i :: 0 <= i < |b| ==> b[i] == (a + b)[|a| + i];
    assert forall i :: 0 <= i < |a| ==> a[i] == (a + b)[i];
  }

  /** They part only where the lenient one takes a layout whose check disagrees. */
  lemma DecideAlike(buf: seq<Byte>, atEnd: bool)
    ensures var lenient := Decide(Lenient, buf, atEnd);
            (lenient.Take? ==> lenient.crcValid) ==> Decide(Strict, buf, atEnd) == lenient
  {
    hide Candidates, FirstValid, FirstPlausible, FirstGuess;
  }

  /** A round of the drain loop that takes a message, and whether its check agrees. */
  lemma TakeFlag(config: Config, st: State, atEnd: bool)
    requires Decide(config.policy, SkipToAddress(config.deviceAddress, st.buf), atEnd).Take?
    ensures Drain(config, st, atEnd).1 != []
    ensures Drain(config, st, atEnd).1[0].crcValid
         == Decide(config.policy, SkipToAddress(config.deviceAddress, st.buf), atEnd).crcValid
  {
    hide Decide, Build, Candidates, Framed, Drain, SkipToAddress;
    var buf := SkipToAddress(config.deviceAddress, st.buf);
    var t := Decide(config.policy, buf, atEnd);
    TakeRound(config, st, atEnd);
    BuildKeepsRaw(st.lastRequest, st.pendingFrames, buf[..t.candidate.len], t.candidate.direction, t.crcValid);
  }

  /** If every message that the lenient policy takes has a check that agrees, the strict one does the same. */
  lemma {:induction false} DrainAlike(device: Option<Byte>, st: State, atEnd: bool)
    requires AllValid(Drain(Config(device, Lenient), st, atEnd).1)
    ensures Drain(Config(device, Strict), st, atEnd) == Drain(Config(device, Lenient), st, atEnd)
    decreases |st.buf|
  {
    hide Decide, Build, Candidates, Framed, Drain, SkipToAddress;
    var strict, lenient := Config(device, Strict), Config(device, Lenient);
    var buf := SkipToAddress(device, st.buf);
    DecideAlike(buf, atEnd);
    match Decide(Lenient, buf, atEnd)
    case Take(c, crcValid) =>
      TakeFlag(lenient, st, atEnd);
      TakeRound(lenient, st, atEnd);
      TakeRound(strict, st, atEnd);
      var (msg, last) := Build(st.lastRequest, st.pendingFrames, buf[..c.len], c.direction, crcValid);
      var next := State(buf[c.len..], if buf[c.len..] == [] then 0 else 1, last);
      AllValidAppend([msg], Drain(lenient, next, atEnd).1);
      DrainAlike(device, next, atEnd);
    case NoMessage =>
      if atEnd {
        LastRound(lenient, st, atEnd);
        LastRound(strict, st, atEnd);
      } else {
        DropRound(lenient, st);
        DropRound(strict, st);
        DrainAlike(device, st.(buf := buf[1..]), atEnd);
      }
    case NeedMore =>
      LastRound(lenient, st, atEnd);
      LastRound(strict, st, atEnd);
  }

  lemma PushAlike(device: Option<Byte>, st: State, bytes: seq<Byte>)
    requires AllValid(PushBytes(Config(device, Lenient), st, bytes).1)
    ensures PushBytes(Config(device, Strict), st, bytes) == PushBytes(Config(device, Lenient), st, bytes)
  {
    hide Drain, Evict;
    if bytes != [] {
      DrainAlike(device, st.(buf := st.buf + bytes), false);
    }
  }

  lemma {:induction false} RunAlike(device: Option<Byte>, st: State, chunks: seq<seq<Byte>>)
    requires AllValid(PushAll(Config(device, Lenient), st, chunks).1)
    ensures PushAll(Config(device, Strict), st, chunks) == PushAll(Config(device, Lenient), st, chunks)
    decreases |chunks|
  {
    hide PushBytes, AllValid;
    if chunks != [] {
      var (next, msgs) := PushBytes(Config(device, Lenient), st, chunks[0]);
      AllValidAppend(msgs, PushAll(Config(device, Lenient), next, chunks[1..]).1);
      PushAlike(device, st, chunks[0]);
      RunAlike(device, next, chunks[1..]);
    }
  }

  lemma HonestValid(device: Option<Byte>, msgs: seq<Message>)
    requires AllHonest(Config(device, Strict), msgs)
    ensures AllValid(msgs)
  {
    hide AddressMatches, ModbusCrc.Valid;
    forall i | 0 <= i < |msgs| ensures msgs[i].crcValid {
      assert Honest(Config(device, Strict), msgs[i]);
    }
  }

  /**
   From any state and over any run of pushes, the two policies give the same messages exactly when the
   lenient one gives none whose check disagrees; and then they end in the same state.
   */
  lemma PoliciesAgreeIff(device: Option<Byte>, st: State, chunks: seq<seq<Byte>>)
    ensures var strict := PushAll(Config(device, Strict), st, chunks);
            var lenient := PushAll(Config(device, Lenient), st, chunks);
            && (strict.1 == lenient.1 <==> AllValid(lenient.1))
            && (AllValid(lenient.1) ==> strict == lenient)
  {
    hide PushAll, Accounts, AllHonest, AllValid;
    RunAccounts(Config(device, Strict), st, chunks);
    HonestValid(device, PushAll(Config(device, Strict), st, chunks).1);
    if AllValid(PushAll(Config(device, Lenient), st, chunks).1) {
      RunAlike(device, st, chunks);
    }
  }

  /** So at the end of a stream. */
  lemma PoliciesFinishAlikeIff(device: Option<Byte>, st: State)
    ensures var strict, lenient := Finish(Config(device, Strict), st), Finish(Config(device, Lenient), st);
            && (strict.1 == lenient.1 <==> AllValid(lenient.1))
            && (AllValid(lenient.1) ==> strict == lenient)
  {
    hide Drain, Accounts, AllHonest, AllValid;
    DrainAccounts(Config(device, Strict), st, true);
    HonestValid(device, Finish(Config(device, Strict), st).1);
    if AllValid(Finish(Config(device, Lenient), st).1) {
      DrainAlike(device, st, true);
    }
  }

  // ---------- the condition on what the strict policy drops ----------

  /** A layout of the head that is complete and consistent with itself. */
  ghost predicate Guessable(buf: seq<Byte>) {
    |buf| >= 4 && exists c :: c in Candidates(buf) && c.len <= |buf| && IsPlausible(buf, c)
  }

  lemma {:induction false} GuessIn(cs: seq<Candidate>, buf: seq<Byte>)
    requires |buf| >= 2
    ensures FirstGuess(cs, buf).Some? <==> exists c :: c in cs && c.len <= |buf| && IsPlausible(buf, c)
  {
    hide IsPlausible;
    if cs != [] {
      GuessIn(cs[1..], buf);
      assert cs == [cs[0]] + cs[1..];
    }
  }

  /** Where the strict policy gives up, the lenient one guesses exactly when there is something to guess. */
  lemma GuessesIff(buf: seq<Byte>, atEnd: bool)
    requires Decide(Strict, buf, atEnd).NoMessage?
    ensures if Guessable(buf) then Decide(Lenient, buf, atEnd).Take? && !Decide(Lenient, buf, atEnd).crcValid
            else Decide(Lenient, buf, atEnd).NoMessage?
  {
    hide Candidates, FirstValid, FirstPlausible, FirstGuess, IsPlausible;
    if |buf| >= 4 {
      GuessIn(Candidates(buf), buf);
    }
  }

  lemma StrictFirst(buf: seq<Byte>, atEnd: bool)
    requires !Decide(Strict, buf, atEnd).NoMessage?
    ensures Decide(Lenient, buf, atEnd) == Decide(Strict, buf, atEnd)
    ensures Decide(Strict, buf, atEnd).Take? ==> Decide(Strict, buf, atEnd).crcValid
  {
    hide Candidates, FirstValid, FirstPlausible, FirstGuess;
  }

  /** The strict policy never gives up on a head that could be guessed at. */
  ghost predicate DropsNoLayout(device: Option<Byte>, st: State, atEnd: bool)
    decreases |st.buf|
  {
    var buf := SkipToAddress(device, st.buf);
    TakeIsFramed(Strict, buf, atEnd);
    match Decide(Strict, buf, atEnd)
    case Take(c, crcValid) =>
      var last := Build(st.lastRequest, st.pendingFrames, buf[..c.len], c.direction, crcValid).1;
      DropsNoLayout(device, State(buf[c.len..], if buf[c.len..] == [] then 0 else 1, last), atEnd)
    case NoMessage => !Guessable(buf) && (atEnd || DropsNoLayout(device, st.(buf := buf[1..]), atEnd))
    case NeedMore => true
  }

  lemma DropsTake(device: Option<Byte>, st: State, atEnd: bool) returns (msg: Message, next: State)
    requires Decide(Strict, SkipToAddress(device, st.buf), atEnd).Take?
    ensures |next.buf| < |st.buf| && msg.crcValid
    ensures |next.buf| <= |st.buf| && next.buf == st.buf[|st.buf| - |next.buf|..]
    ensures DropsNoLayout(device, st, atEnd) <==> DropsNoLayout(device, next, atEnd)
    ensures forall policy ::
              var config := Config(device, policy);
              Drain(config, st, atEnd) == (Drain(config, next, atEnd).0, [msg] + Drain(config, next, atEnd).1)
  {
    hide Decide, Build, Candidates, Framed, Drain, SkipToAddress, Guessable;
    var buf := SkipToAddress(device, st.buf);
    SkipStops(device, st.buf);
    StrictFirst(buf, atEnd);
    var t := Decide(Strict, buf, atEnd);
    var c := t.candidate;
    TakeIsFramed(Strict, buf, atEnd);
    var (m, last) := Build(st.lastRequest, st.pendingFrames, buf[..c.len], c.direction, t.crcValid);
    msg, next := m, State(buf[c.len..], if buf[c.len..] == [] then 0 else 1, last);
    TakeRound(Config(device, Strict), st, atEnd);
    TakeRound(Config(device, Lenient), st, atEnd);
    BuildKeepsRaw(st.lastRequest, st.pendingFrames, buf[..c.len], c.direction, t.crcValid);
    forall policy
      ensures var config := Config(device, policy);
              Drain(config, st, atEnd) == (Drain(config, next, atEnd).0, [msg] + Drain(config, next, atEnd).1)
    {
      match policy case Strict => case Lenient =>
    }
  }

  /** So it is exactly then that the lenient policy gives only messages whose check agrees. */
  lemma {:induction false} DrainGuessesIff(device: Option<Byte>, st: State, atEnd: bool)
    ensures AllValid(Drain(Config(device, Lenient), st, atEnd).1) <==> DropsNoLayout(device, st, atEnd)
    decreases |st.buf|
  {
    hide Decide, Build, Candidates, Framed, Drain, SkipToAddress, Guessable, AllValid;
    var lenient := Config(device, Lenient);
    var buf := SkipToAddress(device, st.buf);
    match Decide(Strict, buf, atEnd)
    case Take(_, _) =>
      var msg, next := DropsTake(device, st, atEnd);
      DrainGuessesIff(device, next, atEnd);
      AllValidAppend([msg], Drain(lenient, next, atEnd).1);
      OneValid(msg);
    case NoMessage =>
      GuessesIff(buf, atEnd);
      if Guessable(buf) {
        TakeFlag(lenient, st, atEnd);
        FirstNotValid(Drain(lenient, st, atEnd).1);
      } else if atEnd {
        LastRound(lenient, st, atEnd);
        NoneValid();
      } else {
        DropRound(lenient, st);
        DrainGuessesIff(device, st.(buf := buf[1..]), atEnd);
      }
    case NeedMore =>
      StrictFirst(buf, atEnd);
      LastRound(lenient, st, atEnd);
      NoneValid();
  }

  lemma OneValid(msg: Message)
    ensures AllValid([msg]) <==> msg.crcValid
  {
    assert [msg][0] == msg;
  }

  lemma NoneValid()
    ensures AllValid([])
  {
  }

  lemma FirstNotValid(msgs: seq<Message>)
    requires msgs != [] && !msgs[0].crcValid
    ensures !AllValid(msgs)
  {
  }

  /** The same over a run of pushes. */
  ghost predicate RunDropsNoLayout(device: Option<Byte>, st: State, chunks: seq<seq<Byte>>)
    decreases |chunks|
  {
    chunks == [] ||
    ((chunks[0] == [] || DropsNoLayout(device, st.(buf := st.buf + chunks[0]), false)) &&
     RunDropsNoLayout(device, PushBytes(Config(device, Strict), st, chunks[0]).0, chunks[1..]))
  }

  lemma PushGuessesIff(device: Option<Byte>, st: State, bytes: seq<Byte>)
    ensures AllValid(PushBytes(Config(device, Lenient), st, bytes).1) <==>
            bytes == [] || DropsNoLayout(device, st.(buf := st.buf + bytes), false)
  {
    hide Drain, DropsNoLayout;
    if bytes != [] {
      DrainGuessesIff(device, st.(buf := st.buf + bytes), false);
    }
  }

  lemma {:induction false} RunGuessesIff(device: Option<Byte>, st: State, chunks: seq<seq<Byte>>)
    ensures AllValid(PushAll(Config(device, Lenient), st, chunks).1) <==> RunDropsNoLayout(device, st, chunks)
    decreases |chunks|
  {
    hide PushBytes, AllValid, DropsNoLayout;
    if chunks == [] {
      NoneValid();
    } else {
      var (next, msgs) := PushBytes(Config(device, Lenient), st, chunks[0]);
      AllValidAppend(msgs, PushAll(Config(device, Lenient), next, chunks[1..]).1);
      PushGuessesIff(device, st, chunks[0]);
      if AllValid(msgs) {
        PushAlike(device, st, chunks[0]);
        RunGuessesIff(device, next, chunks[1..]);
      }
    }
  }

  /**
   Said of what the strict policy does with the stream: the two give the same messages exactly when it never gives
   up on a head at which a complete and plausible layout stands.
   */
  lemma PoliciesAgreeOnStreamIff(device: Option<Byte>, st: State, chunks: seq<seq<Byte>>)
    ensures PushAll(Config(device, Strict), st, chunks).1 == PushAll(Config(device, Lenient), st, chunks).1 <==>
            RunDropsNoLayout(device, st, chunks)
  {
    hide PushAll, AllValid, RunDropsNoLayout;
    PoliciesAgreeIff(device, st, chunks);
    RunGuessesIff(device, st, chunks);
  }

  // ---------- streams that no cutting parts them on ----------

  /** No run of the stream's bytes that the strict policy would give up on could be guessed at. */
  ghost predicate NothingToGuess(device: Option<Byte>, s: seq<Byte>) {
    forall i, j {:trigger s[i..j]} :: 0 <= i < j <= |s| && AddressMatches(device, s[i]) && Guessable(s[i..j]) ==>
      !Decide(Strict, s[i..j], false).NoMessage?
  }

  lemma HeadNotGuessed(device: Option<Byte>, s: seq<Byte>, i: nat, j: nat, buf: seq<Byte>)
    requires NothingToGuess(device, s) && i <= j <= |s| && buf == s[i..j]
    requires buf != [] && AddressMatches(device, buf[0]) && Decide(Strict, buf, false).NoMessage?
    ensures !Guessable(buf)
  {
    hide Decide, Guessable, AddressMatches;
    assert buf[0] == s[i];
  }

  lemma SuffixOfSlice(s: seq<Byte>, i: nat, j: nat, t: seq<Byte>) returns (k: nat)
    requires i <= j <= |s| && |t| <= j - i && t == s[i..j][j - i - |t|..]
    ensures i <= k <= j && t == s[k..j]
  {
    k := j - |t|;
  }

  lemma {:induction false} DrainNothingToGuess(device: Option<Byte>, s: seq<Byte>, i: nat, j: nat, st: State)
    requires NothingToGuess(device, s) && i <= j <= |s| && st.buf == s[i..j]
    ensures DropsNoLayout(device, st, false)
    decreases |st.buf|
  {
    hide Decide, Build, Candidates, Framed, SkipToAddress, Guessable, AddressMatches, NothingToGuess, Drain;
    var buf := SkipToAddress(device, st.buf);
    SkipStops(device, st.buf);
    var k := SuffixOfSlice(s, i, j, buf);
    match Decide(Strict, buf, false)
    case Take(_, _) =>
      var msg, next := DropsTake(device, st, false);
      var k2 := SuffixOfSlice(s, i, j, next.buf);
      DrainNothingToGuess(device, s, k2, j, next);
    case NoMessage =>
      DropRound(Config(device, Strict), st);
      HeadNotGuessed(device, s, k, j, buf);
      DrainNothingToGuess(device, s, k + 1, j, st.(buf := buf[1..]));
    case NeedMore =>
  }

  lemma PushLeavesSlice(config: Config, st: State, bytes: seq<Byte>)
    ensures var left := PushBytes(config, st, bytes).0.buf;
            var all := st.buf + bytes;
            |left| <= |all| && left == all[|all| - |left|..]
  {
    hide PushBytes, InOrder, Raws, AllHonest;
    PushAccounts(config, st, bytes);
  }

  lemma {:induction false} RunNothingToGuess(
    device: Option<Byte>, s: seq<Byte>, i: nat, j: nat, st: State, chunks: seq<seq<Byte>>)
    requires NothingToGuess(device, s) && i <= j <= |s| && st.buf == s[i..j] && Flatten(chunks) == s[j..]
    ensures RunDropsNoLayout(device, st, chunks)
    decreases |chunks|
  {
    hide PushBytes, DropsNoLayout, NothingToGuess;
    if chunks != [] {
      var k := j + |chunks[0]|;
      assert chunks[0] == s[j..][..|chunks[0]|] && Flatten(chunks[1..]) == s[j..][|chunks[0]|..];
      var all := st.buf + chunks[0];
      assert all == s[i..k];
      DrainNothingToGuess(device, s, i, k, st.(buf := all));
      PushLeavesSlice(Config(device, Strict), st, chunks[0]);
      var next := PushBytes(Config(device, Strict), st, chunks[0]).0;
      var i2 := SuffixOfSlice(s, i, k, next.buf);
      RunNothingToGuess(device, s, i2, k, next, chunks[1..]);
    }
  }

  /** On such a stream the policies are the same under every cutting. */
  lemma PoliciesAgreeUncut(device: Option<Byte>, last: Option<Outstanding>, chunks: seq<seq<Byte>>)
    requires NothingToGuess(device, Flatten(chunks))
    ensures PushAll(Config(device, Strict), State([], 0, last), chunks)
         == PushAll(Config(device, Lenient), State([], 0, last), chunks)
  {
    hide PushAll, AllValid, RunDropsNoLayout, NothingToGuess;
    var s := Flatten(chunks);
    assert s[0..0] == [] && s[0..] == s;
    RunNothingToGuess(device, s, 0, 0, State([], 0, last), chunks);
    PoliciesAgreeIff(device, State([], 0, last), chunks);
    PoliciesAgreeOnStreamIff(device, State([], 0, last), chunks);
  }
}
