/** Runs in which a message is said to span frames it has no byte in, or not all that it has. */
module RtuUndercount {
  import opened Common
  import opened Sequences
  import opened ModbusCrc
  import opened CrcSteps
  import opened RtuStream
  import opened RtuCleanStream
  import opened RtuSafety
  import opened RtuFrames
  import opened RtuTraces

  // ---------- the stream ----------

  /** The head of a write of four registers, and the start of what looks like its data. */
  const FIRST: seq<Byte> := [0x01, 0x10, 0x00, 0x00, 0x00, 0x04, 0x08, 0x01, 0x83, 0x02, 0xC0, 0xF1, 0x01, 0x83]

  const SECOND: seq<Byte> := [0x02, 0xC0, 0xF1]

  /** An exception response of device 1, twice in the stream: once within the first frame, once across both. */
  const ANSWER: seq<Byte> := [0x01, 0x83, 0x02, 0xC0, 0xF1]

  const STREAM: seq<Byte> := FIRST + SECOND

  const STRICT_ONE := Config(Some(0x01), Strict)

  const STREAM_CHECKS: seq<Word> :=
    [0xFFFF, 0x807E, 0xEC01, 0xC02D, 0x1D00, 0x001D, 0xCAC1, 0x560A,
     0xC717, 0xAFC6, 0x93AE, 0xEC12, 0x89AD, 0x7D89, 0x07FD, 0x4047]

  const ANSWER_CHECKS: seq<Word> := [0xFFFF, 0x807E, 0x8141, 0xF1C0]

  lemma FirstSteps()
    ensures Stepped(0xFFFF, 0x01) == 0x807E && Stepped(0x807E, 0x10) == 0xEC01
    ensures Stepped(0xEC01, 0x00) == 0xC02D && Stepped(0xC02D, 0x00) == 0x1D00
    ensures Stepped(0x1D00, 0x00) == 0x001D && Stepped(0x001D, 0x04) == 0xCAC1
    ensures Stepped(0xCAC1, 0x08) == 0x560A && Stepped(0x560A, 0x01) == 0xC717
  {
  }

  lemma LaterSteps()
    ensures Stepped(0xC717, 0x83) == 0xAFC6 && Stepped(0xAFC6, 0x02) == 0x93AE
    ensures Stepped(0x93AE, 0xC0) == 0xEC12 && Stepped(0xEC12, 0xF1) == 0x89AD
    ensures Stepped(0x89AD, 0x01) == 0x7D89 && Stepped(0x7D89, 0x83) == 0x07FD
    ensures Stepped(0x07FD, 0x02) == 0x4047
  {
  }

  lemma StreamSteps()
    ensures Steps(STREAM[..15], STREAM_CHECKS)
  {
    FirstSteps();
    LaterSteps();
    hide Stepped;
  }

  lemma AnswerSteps()
    ensures Steps(ANSWER[..3], ANSWER_CHECKS)
  {
  }

  /** Neither layout of the stream's head has a check that agrees. */
  lemma HeadInvalid()
    ensures !Valid(STREAM[..8]) && !Valid(STREAM)
  {
    StreamSteps();
    hide Steps, Stepped, Checksum;
    StepsAre(STREAM[..15], STREAM_CHECKS, 6);
    StepsAre(STREAM[..15], STREAM_CHECKS, 15);
    assert STREAM[..15][..6] == STREAM[..8][..6] && STREAM[..15][..15] == STREAM[..15];
  }

  lemma AnswerValid()
    ensures Valid(ANSWER)
  {
    AnswerSteps();
    hide Steps, Stepped, Checksum;
    StepsAre(ANSWER[..3], ANSWER_CHECKS, 3);
    assert ANSWER[..3][..3] == ANSWER[..3];
  }

  // ---------- what becomes of it ----------

  /** What the head of the stream could be: a write request of 17 bytes, or its 8-byte answer. */
  lemma HeadLayouts(buf: seq<Byte>)
    requires FIRST <= buf <= STREAM
    ensures |buf| >= 14
    ensures Candidates(buf) == [Candidate(17, Request), Candidate(8, Response)]
    ensures IsPlausible(buf, Candidate(17, Request))
  {
    assert buf[0] == 0x01 && buf[1] == 0x10 && buf[4] == 0x00 && buf[5] == 0x04 && buf[6] == 0x08;
  }

  /** Nothing can be said of the first frame alone, nor is anything lost. */
  lemma FirstWaits()
    ensures Push(STRICT_ONE, State([], 0, None), FIRST) == (State(FIRST, 1, None), [])
  {
    FirstDecides();
    hide Decide, Build;
    assert [] + FIRST == FIRST;
    NoSkip(Some(0x01), FIRST);
    DrainWaits(STRICT_ONE, State(FIRST, 1, None));
  }

  lemma FirstLength()
    ensures |FIRST| == 14 && FIRST[..8] == STREAM[..8] && FIRST <= STREAM
  {
  }

  lemma FirstInvalid()
    ensures |FIRST| >= 4 && FirstValid(Candidates(FIRST), FIRST) == None
  {
    HeadLayouts(FIRST);
    HeadInvalid();
    FirstLength();
    hide *;
    TwoInvalid(FIRST, Candidate(17, Request), Candidate(8, Response));
  }

  lemma TwoInvalid(buf: seq<Byte>, a: Candidate, b: Candidate)
    requires a.len <= |buf| ==> !Valid(buf[..a.len])
    requires b.len <= |buf| ==> !Valid(buf[..b.len])
    ensures FirstValid([a, b], buf) == None
  {
    hide Valid;
    assert [a, b][1..] == [b] && [b][1..] == [];
    assert FirstValid([b], buf) == None;
  }

  lemma FirstDecides()
    ensures Decide(Strict, FIRST, false) == NeedMore
  {
    HeadLayouts(FIRST);
    FirstLength();
    hide Valid, Candidates, IsPlausible, FIRST, STREAM, FirstValid, FirstGuess;
    FirstInvalid();
  }

  /** With the second frame the head is given up, and what lies before the answers skipped. */
  lemma HeadGoes()
    ensures Drain(STRICT_ONE, State(STREAM, 2, None), false)
         == Drain(STRICT_ONE, State(ANSWER + ANSWER, 2, None), false)
  {
    StreamDecides();
    hide Decide, Build, Drain;
    NoSkip(Some(0x01), STREAM);
    DropRound(STRICT_ONE, State(STREAM, 2, None));
    JunkSkipped();
    SameSkip(STRICT_ONE, State(STREAM[1..], 2, None), State(ANSWER + ANSWER, 2, None), false);
  }

  lemma StreamLength()
    ensures |STREAM| == 17 && STREAM[..17] == STREAM
  {
  }

  lemma NothingValid()
    ensures |STREAM| == 17 && FirstValid(Candidates(STREAM), STREAM) == None
  {
    HeadLayouts(STREAM);
    HeadInvalid();
    StreamLength();
    hide *;
    TwoInvalid(STREAM, Candidate(17, Request), Candidate(8, Response));
  }

  lemma StreamDecides()
    ensures Decide(Strict, STREAM, false) == NoMessage
  {
    HeadLayouts(STREAM);
    hide Valid, Candidates, IsPlausible, FirstValid, FirstGuess, POLY_REFLECTED, STREAM;
    NothingValid();
  }

  lemma JunkSkipped()
    ensures SkipToAddress(Some(0x01), STREAM[1..]) == SkipToAddress(Some(0x01), ANSWER + ANSWER)
  {
    var junk := STREAM[1..7];
    assert Junk(Some(0x01), junk);
    JunkIsSkipped(Some(0x01), junk);
    SkipAppends(Some(0x01), junk, ANSWER + ANSWER);
    assert STREAM[1..] == junk + (ANSWER + ANSWER);
    hide SkipToAddress;
  }

  lemma AnswersClean()
    ensures Clean(STRICT_ONE, [ANSWER, ANSWER])
  {
    AnswerValid();
    hide Valid;
    var two := [ANSWER, ANSWER];
    assert two[1..] == [ANSWER] && [ANSWER][1..] == [];
    assert Flatten([ANSWER]) == ANSWER + [] == ANSWER && Flatten(two) == ANSWER + ANSWER;
    assert Candidates(ANSWER) == [Candidate(5, Response)];
    assert IsPlausible(ANSWER, Candidate(5, Response));
    assert CleanHead(STRICT_ONE, ANSWER, ANSWER) && CleanHead(STRICT_ONE, ANSWER, ANSWER + ANSWER);
    assert Clean(STRICT_ONE, [ANSWER]);
  }

  lemma Overlay()
    ensures Flatten([FIRST, SECOND]) == STREAM
    ensures STREAM[7..12] == ANSWER && STREAM[12..17] == ANSWER
    ensures Span([FIRST, SECOND], 7, 12) == 1 && Span([FIRST, SECOND], 12, 17) == 2
  {
    var frames := [FIRST, SECOND];
    assert frames[1..] == [SECOND] && [SECOND][1..] == [];
    assert Flatten([SECOND]) == SECOND + [] == SECOND;
    assert Span([SECOND], -7, -2) == 0 && Span([SECOND], -2, 3) == 1;
  }

  lemma AnswersDelivered()
    ensures Counts(Push(STRICT_ONE, State([], 1, None), ANSWER + ANSWER).1) == [2, 1]
    ensures Raws(Push(STRICT_ONE, State([], 1, None), ANSWER + ANSWER).1) == [ANSWER, ANSWER]
  {
    AnswersClean();
    hide Clean, Push, Raws;
    var chunk := ANSWER + ANSWER;
    assert Flatten([ANSWER, ANSWER]) == chunk && Whole([ANSWER, ANSWER], 10) == 2 by {
      assert [ANSWER, ANSWER][1..] == [ANSWER] && [ANSWER][1..] == [];
      assert Flatten([ANSWER]) == ANSWER + [] == ANSWER;
      assert Whole([ANSWER], 5) == 1;
    }
    assert [] + chunk == chunk;
    PushCounts(STRICT_ONE, State([], 1, None), chunk, [ANSWER, ANSWER]);
    PushDelivers(STRICT_ONE, State([], 1, None), chunk, [ANSWER, ANSWER]);
  }

  /** The second frame does to what the first left what the two answers alone would have done. */
  lemma SecondFrame()
    ensures PushAllFrames(STRICT_ONE, State([], 0, None), [FIRST, SECOND]).1
         == Push(STRICT_ONE, State([], 1, None), ANSWER + ANSWER).1
  {
    FirstWaits();
    HeadGoes();
    var st := State(FIRST, 1, None);
    PushIs(STRICT_ONE, st, SECOND);
    PushIs(STRICT_ONE, State([], 1, None), ANSWER + ANSWER);
    PushAllTwo(STRICT_ONE, State([], 0, None), FIRST, SECOND);
    hide Push, Drain, PushAllFrames;
    assert [] + (ANSWER + ANSWER) == ANSWER + ANSWER;
    AppendNothing(Push(STRICT_ONE, st, SECOND).1);
  }

  /**
   Two answers, one within the first frame and one across both. Both come out with the second frame:
   the first is said to span two frames, though all its bytes came in one, and the second to span
   one, though its bytes came in two.
   */
  lemma CountsTooManyAndTooFew()
    ensures Flatten([FIRST, SECOND]) == STREAM && STREAM[7..12] == STREAM[12..17] == ANSWER
    ensures var msgs := PushAllFrames(STRICT_ONE, State([], 0, None), [FIRST, SECOND]).1;
            Raws(msgs) == [ANSWER, ANSWER] && Counts(msgs) == [2, 1]
    ensures Span([FIRST, SECOND], 7, 12) == 1 && Span([FIRST, SECOND], 12, 17) == 2
  {
    Overlay();
    AnswersDelivered();
    SecondFrame();
    hide Push, Span, Counts, Raws, PushAllFrames;
  }

  // ---------- a framed message between frames ----------

  /** Two frames of a message that has not all come: a framed message handed over now says it spans both. */
  lemma InterpretSpansWhatIsPending()
    ensures PushAllFrames(STRICT_ONE, State([], 0, None), [[0x01], [0x03]]) == (State([0x01, 0x03], 2, None), [])
    ensures Interpret(STRICT_ONE, State([0x01, 0x03], 2, None), ANSWER).1.Some?
    ensures Interpret(STRICT_ONE, State([0x01, 0x03], 2, None), ANSWER).1.value.frameCount == 2
  {
    TwoShortFrames();
    assert AtLeastOne(2) == 2;
    hide *;
    AnswerInterprets(State([0x01, 0x03], 2, None));
  }

  lemma TwoShortFrames()
    ensures PushAllFrames(STRICT_ONE, State([], 0, None), [[0x01], [0x03]]) == (State([0x01, 0x03], 2, None), [])
  {
    var none, one := State([], 0, None), State([0x01], 1, None);
    ShortFrame(none, 0x01);
    ShortFrame(one, 0x03);
    hide Push, PushAllFrames;
    assert none.buf + [0x01] == one.buf && one.buf + [0x03] == [0x01, 0x03];
    assert Push(STRICT_ONE, none, [0x01]) == (one, []);
    assert Push(STRICT_ONE, one, [0x03]) == (State([0x01, 0x03], 2, None), []);
    PushAllTwo(STRICT_ONE, none, [0x01], [0x03]);
    AppendNothing<Message>([]);
  }

  lemma ShortFrame(st: State, byte: Byte)
    requires |st.buf| < 3 && st.buf + [byte] != [] && (st.buf + [byte])[0] == 0x01
    ensures Push(STRICT_ONE, st, [byte]) == (State(st.buf + [byte], st.pendingFrames + 1, st.lastRequest), [])
  {
    hide Build;
    var fed := Fed(st, [byte]);
    PushIs(STRICT_ONE, st, [byte]);
    ShortWaits(Strict, fed.buf);
    NoSkip(Some(0x01), fed.buf);
    DrainWaits(STRICT_ONE, fed);
  }

  lemma AnswerInterprets(st: State)
    ensures Interpret(STRICT_ONE, st, ANSWER).1.Some?
    ensures Interpret(STRICT_ONE, st, ANSWER).1.value.frameCount == AtLeastOne(st.pendingFrames)
  {
    AnswerValid();
    InterpretCount(STRICT_ONE, st, ANSWER);
    hide Valid, Build;
    assert Candidates(ANSWER) == [Candidate(5, Response)];
    hide Candidates;
  }

  // ---------- a message behind what is left over ----------

  lemma FirstDecidesAtEnd()
    ensures Decide(Strict, FIRST, true) == NoMessage
  {
    HeadLayouts(FIRST);
    FirstLength();
    hide Valid, Candidates, IsPlausible, FIRST, STREAM, FirstValid, FirstGuess;
    FirstInvalid();
  }

  lemma FirstIsLeft()
    ensures Finish(STRICT_ONE, State(FIRST, 1, None)) == (State([], 0, None), [], FIRST)
  {
    FirstDecidesAtEnd();
    hide Decide, Build, Drain;
    NoSkip(Some(0x01), FIRST);
    LastRound(STRICT_ONE, State(FIRST, 1, None), true);
  }

  lemma OneAnswer()
    ensures FIRST[7..12] == ANSWER && Clean(STRICT_ONE, [ANSWER])
  {
    AnswersClean();
    hide CleanHead;
    assert [ANSWER, ANSWER][1..] == [ANSWER];
  }

  /** A truncated message is left over whole, and with it a message that lies behind its head. */
  lemma ResidueHidesAMessage()
    ensures Finish(STRICT_ONE, Push(STRICT_ONE, State([], 0, None), FIRST).0) == (State([], 0, None), [], FIRST)
    ensures FIRST[7..12] == ANSWER && Clean(STRICT_ONE, [ANSWER])
  {
    hide *;
    FirstWaits();
    FirstIsLeft();
    OneAnswer();
  }
}
