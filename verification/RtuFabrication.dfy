/** Streams whose every check is correct, under the two policies. */
module RtuFabrication {
  import opened Common
  import opened Sequences
  import opened ModbusCrc
  import opened CrcSteps
  import opened RtuStream
  import opened RtuCleanStream
  import opened RtuSafety
  import opened RtuNoisyStream
  import opened RtuPolicies

  // ---------- where the policies are the same ----------

  lemma InterpretAlike(device: Option<Byte>, st: State, raw: seq<Byte>)
    ensures Interpret(Config(device, Strict), st, raw) == Interpret(Config(device, Lenient), st, raw)
  {
  }

  lemma {:induction false} InterpretAllAlike(device: Option<Byte>, last: Option<Outstanding>, messages: seq<seq<Byte>>)
    ensures InterpretAll(Config(device, Strict), last, messages)
         == InterpretAll(Config(device, Lenient), last, messages)
    decreases |messages|
  {
    hide Interpret;
    if messages != [] {
      InterpretAlike(device, State([], 0, last), messages[0]);
      var st := Interpret(Config(device, Strict), State([], 0, last), messages[0]).0;
      InterpretAllAlike(device, st.lastRequest, messages[1..]);
    }
  }

  lemma {:induction false} NoisyCleanAlike(device: Option<Byte>, items: seq<Item>, tail: seq<Byte>)
    requires NoisyClean(Config(device, Strict), items, tail)
    ensures NoisyClean(Config(device, Lenient), items, tail)
  {
    hide Junk, ModbusCrc.Valid, IsPlausible, Candidates, AddressMatches;
    if items != [] {
      NoisyCleanAlike(device, items[1..], tail);
    }
  }

  /** On clean messages, with bytes between that start nothing, the policies are the same under every cutting. */
  lemma CleanPoliciesAgree(device: Option<Byte>, last: Option<Outstanding>, chunks: seq<seq<Byte>>,
                           items: seq<Item>, tail: seq<Byte>)
    requires NoisyClean(Config(device, Strict), items, tail) && Flatten(chunks) == Wire(items, tail)
    ensures PushAll(Config(device, Strict), State([], 0, last), chunks)
         == PushAll(Config(device, Lenient), State([], 0, last), chunks)
  {
    NothingSettled(device, last);
    hide PushAll, NoisyClean, Settled, InterpretAll, Flatten, Wire, Messages, AllValid;
    var st := State([], 0, last);
    AppendNothing(Flatten(chunks));
    NoisyCleanAlike(device, items, tail);
    InterpretAllAlike(device, last, Messages(items));
    NoisyStreamExact(Config(device, Strict), st, chunks, items, tail);
    NoisyStreamExact(Config(device, Lenient), st, chunks, items, tail);
    PoliciesAgreeIff(device, st, chunks);
  }

  lemma NothingSettled(device: Option<Byte>, last: Option<Outstanding>)
    ensures Settled(Config(device, Strict), State([], 0, last)) && Settled(Config(device, Lenient), State([], 0, last))
  {
  }

  // ---------- a stream on which they are not ----------

  /** A message of a function the layouts do not cover. */
  const UNKNOWN: seq<Byte> := [0x01, 0x08, 0x00, 0x00, 0x01, 0x05, 0x21, 0x98]

  /** A response with one register. */
  const RESPONSE: seq<Byte> := [0x01, 0x03, 0x02, 0x12, 0x34, 0xB5, 0x33]

  /** What the lenient policy makes of the end of one and the start of the other. */
  const FABRICATED: seq<Byte> := [0x01, 0x05, 0x21, 0x98, 0x01, 0x03, 0x02, 0x12]

  const DEVICE: Option<Byte> := Some(0x01)

  const FIRST_CHECKS: seq<Word> := [0xFFFF, 0x807E, 0xE601, 0xC027, 0x1A80, 0x60DA, 0x9821]

  const SECOND_CHECKS: seq<Word> := [0xFFFF, 0x807E, 0x2140, 0x31A1, 0xB570, 0x33B5]

  const THIRD_CHECKS: seq<Word> := [0xFFFF, 0x807E, 0x23C0, 0x48E3, 0x2308, 0x06E3, 0x8807]

  lemma SomeSteps()
    ensures Stepped(0xFFFF, 0x01) == 0x807E
    ensures Stepped(0x807E, 0x08) == 0xE601 && Stepped(0xE601, 0x00) == 0xC027 && Stepped(0xC027, 0x00) == 0x1A80
    ensures Stepped(0x1A80, 0x01) == 0x60DA && Stepped(0x60DA, 0x05) == 0x9821
  {
  }

  lemma MoreSteps()
    ensures Stepped(0x807E, 0x03) == 0x2140 && Stepped(0x2140, 0x02) == 0x31A1
    ensures Stepped(0x31A1, 0x12) == 0xB570 && Stepped(0xB570, 0x34) == 0x33B5
    ensures Stepped(0x807E, 0x05) == 0x23C0 && Stepped(0x23C0, 0x21) == 0x48E3 && Stepped(0x48E3, 0x98) == 0x2308
    ensures Stepped(0x2308, 0x01) == 0x06E3 && Stepped(0x06E3, 0x03) == 0x8807
  {
  }

  lemma ValidByChecks(m: seq<Byte>, values: seq<Word>)
    requires |m| >= 4 && Steps(m[..|m| - 2], values)
    ensures Valid(m) <==> BothBytes(m[|m| - 1], m[|m| - 2]) == values[|m| - 2]
  {
    hide Steps, Checksum, BothBytes;
    StepsAre(m[..|m| - 2], values, |m| - 2);
    StepsLength(m[..|m| - 2], values);
    assert m[..|m| - 2][..|m| - 2] == m[..|m| - 2];
  }

  lemma StepsLength(data: seq<Byte>, values: seq<Word>)
    requires Steps(data, values)
    ensures |values| == |data| + 1
  {
  }

  lemma UnknownValid()
    ensures Valid(UNKNOWN)
  {
    SomeSteps();
    hide Stepped, Valid;
    assert Steps(UNKNOWN[..6], FIRST_CHECKS);
    hide Steps;
    ValidByChecks(UNKNOWN, FIRST_CHECKS);
  }

  lemma ResponseValid()
    ensures Valid(RESPONSE)
  {
    SomeSteps();
    MoreSteps();
    hide Stepped, Valid;
    assert Steps(RESPONSE[..5], SECOND_CHECKS);
    hide Steps;
    ValidByChecks(RESPONSE, SECOND_CHECKS);
  }

  lemma FabricatedInvalid()
    ensures !Valid(FABRICATED)
  {
    SomeSteps();
    MoreSteps();
    hide Stepped, Valid;
    assert Steps(FABRICATED[..6], THIRD_CHECKS);
    hide Steps;
    ValidByChecks(FABRICATED, THIRD_CHECKS);
  }

  // ---------- round by round ----------

  /** The stream from the fifth byte on. */
  const FIFTH: seq<Byte> := FABRICATED + [0x34, 0xB5, 0x33]

  lemma Heads()
    ensures UNKNOWN + RESPONSE == UNKNOWN[..4] + FIFTH && FIFTH == FIFTH[..4] + RESPONSE && |FIFTH| == 11
    ensures FIFTH[..8] == FABRICATED && FIFTH[8..] == [0x34, 0xB5, 0x33]
  {
  }

  lemma NoLayout(policy: CrcPolicy, buf: seq<Byte>)
    requires |buf| >= 4 && buf[1] == 0x08
    ensures Decide(policy, buf, false) == NoMessage
  {
    assert Candidates(buf) == [];
  }

  lemma FifthLayout()
    ensures |FIFTH| >= 4 && Candidates(FIFTH) == [Candidate(8, Request)] && IsPlausible(FIFTH, Candidate(8, Request))
  {
    assert FIFTH[1] == 0x05;
  }

  lemma FifthDecides(policy: CrcPolicy)
    ensures Decide(policy, FIFTH, false) == if policy.Lenient? then Take(Candidate(8, Request), false) else NoMessage
  {
    FifthLayout();
    Heads();
    FabricatedInvalid();
    hide Valid, Candidates, IsPlausible, FIFTH, FABRICATED;
    OneLayout(FIFTH, Candidate(8, Request));
  }

  lemma OneLayout(buf: seq<Byte>, c: Candidate)
    requires |buf| >= 4 && c.len <= |buf| && IsPlausible(buf, c) && !Valid(buf[..c.len])
    ensures FirstValid([c], buf) == None && FirstPlausible([c], buf) == Some(c) && FirstGuess([c], buf) == Some(c)
  {
    hide Valid, IsPlausible;
    assert [c][1..] == [];
  }

  lemma ResponseClean(policy: CrcPolicy)
    ensures Clean(Config(DEVICE, policy), [RESPONSE]) && Flatten([RESPONSE]) == RESPONSE
  {
    ResponseValid();
    hide Valid;
    assert [RESPONSE][1..] == [];
    AppendNothing(RESPONSE);
    assert Flatten([RESPONSE]) == RESPONSE;
    assert Candidates(RESPONSE) == [Candidate(8, Request), Candidate(7, Response)];
    assert IsPlausible(RESPONSE, Candidate(7, Response));
    assert CleanHead(Config(DEVICE, policy), RESPONSE, RESPONSE);
    assert Clean(Config(DEVICE, policy), [RESPONSE][1..]);
  }

  /** A head that is given up, and junk behind it up to `rest`. */
  lemma GivenUp(config: Config, st: State, junk: seq<Byte>, rest: seq<Byte>)
    requires st.buf != [] && st.buf[1..] == junk + rest && AddressMatches(config.deviceAddress, st.buf[0])
    requires Junk(config.deviceAddress, junk) && rest != [] && AddressMatches(config.deviceAddress, rest[0])
    requires Decide(config.policy, st.buf, false).NoMessage?
    ensures Drain(config, st, false) == Drain(config, st.(buf := rest), false)
  {
    hide Decide, Drain, AddressMatches, Junk;
    NoSkip(config.deviceAddress, st.buf);
    DropRound(config, st);
    JunkAway(config, st.(buf := st.buf[1..]), junk, rest);
  }

  /** Both policies give up on the first message's head and come to its fifth byte. */
  lemma ToTheFifth(policy: CrcPolicy)
    ensures Drain(Config(DEVICE, policy), State(UNKNOWN + RESPONSE, 0, None), false)
         == Drain(Config(DEVICE, policy), State(FIFTH, 0, None), false)
  {
    var s := UNKNOWN + RESPONSE;
    NoLayout(policy, s);
    hide Decide, Drain;
    var junk: seq<Byte> := [0x08, 0x00, 0x00];
    assert s[1..] == junk + FIFTH;
    GivenUp(Config(DEVICE, policy), State(s, 0, None), junk, FIFTH);
  }

  lemma StrictGoesOn()
    ensures Drain(Config(DEVICE, Strict), State(FIFTH, 0, None), false)
         == Drain(Config(DEVICE, Strict), State(RESPONSE, 0, None), false)
  {
    FifthDecides(Strict);
    hide Decide, Drain;
    var junk: seq<Byte> := [0x05, 0x21, 0x98];
    assert FIFTH[1..] == junk + RESPONSE;
    GivenUp(Config(DEVICE, Strict), State(FIFTH, 0, None), junk, RESPONSE);
  }

  lemma DrainPush(config: Config, bytes: seq<Byte>)
    requires bytes != []
    ensures PushBytes(config, State([], 0, None), bytes).1 == Drain(config, State(bytes, 0, None), false).1
  {
    hide Drain, Evict;
    AppendNothing(bytes);
  }

  lemma StrictReadsSecond()
    ensures Raws(PushBytes(Config(DEVICE, Strict), State([], 0, None), UNKNOWN + RESPONSE).1) == [RESPONSE]
  {
    ToTheFifth(Strict);
    StrictGoesOn();
    ResponseClean(Strict);
    hide Drain, PushBytes, Clean, InterpretAll, UNKNOWN, RESPONSE;
    NotEmpties();
    DrainPush(Config(DEVICE, Strict), UNKNOWN + RESPONSE);
    DrainPush(Config(DEVICE, Strict), RESPONSE);
    AppendNothing(RESPONSE);
    OneWhole(RESPONSE);
    PushClean(Config(DEVICE, Strict), State([], 0, None), RESPONSE, [RESPONSE]);
    assert [RESPONSE][..1] == [RESPONSE];
    InterpretAllFaithful(Config(DEVICE, Strict), None, [RESPONSE]);
  }

  lemma NotEmpties()
    ensures RESPONSE != [] && UNKNOWN + RESPONSE != []
  {
  }

  lemma OneWhole(m: seq<Byte>)
    requires m != []
    ensures Whole([m], |m|) == 1
  {
    assert [m][1..] == [];
  }

  lemma LenientFabricates()
    ensures var msgs := PushBytes(Config(DEVICE, Lenient), State([], 0, None), UNKNOWN + RESPONSE).1;
            Raws(msgs) == [FABRICATED] && !msgs[0].crcValid
  {
    ToTheFifth(Lenient);
    FifthDecides(Lenient);
    Heads();
    NotEmpties();
    FifthStarts();
    hide Decide, Drain, PushBytes, Build, UNKNOWN, RESPONSE, FIFTH, FABRICATED, Framed;
    var config, st := Config(DEVICE, Lenient), State(FIFTH, 0, None);
    DrainPush(config, UNKNOWN + RESPONSE);
    NoSkip(DEVICE, FIFTH);
    DrainTakes(config, st, Candidate(8, Request), false);
    BuildKeepsRaw(None, 0, FABRICATED, Request, false);
    var last := Build(None, 0, FABRICATED, Request, false).1;
    TailStops(last);
    AppendNothing([Build(None, 0, FABRICATED, Request, false).0]);
  }

  lemma FifthStarts()
    ensures FIFTH != [] && AddressMatches(DEVICE, FIFTH[0])
  {
  }

  lemma TailStops(last: Option<Outstanding>)
    ensures Drain(Config(DEVICE, Lenient), State([0x34, 0xB5, 0x33], 1, last), false).1 == []
  {
    var tail: seq<Byte> := [0x34, 0xB5, 0x33];
    assert Junk(DEVICE, tail);
    JunkIsSkipped(DEVICE, tail);
    ShortWaits(Lenient, []);
    hide Decide, Build;
    LastRound(Config(DEVICE, Lenient), State(tail, 1, last), false);
  }

  /** Two messages with correct checks: the strict policy reads the second, the lenient one what nobody sent. */
  lemma PoliciesPart()
    ensures Valid(UNKNOWN) && Valid(RESPONSE)
    ensures Raws(PushBytes(Config(DEVICE, Strict), State([], 0, None), UNKNOWN + RESPONSE).1) == [RESPONSE]
    ensures Raws(PushBytes(Config(DEVICE, Lenient), State([], 0, None), UNKNOWN + RESPONSE).1) == [FABRICATED]
    ensures !Valid(FABRICATED)
  {
    hide *;
    UnknownValid();
    ResponseValid();
    FabricatedInvalid();
    StrictReadsSecond();
    LenientFabricates();
  }
}
