/**
 When a stream of whole messages can be misread: exactly when another layout at the head of one of them
 has a check that agrees too. Then some way of cutting the bytes gives other messages.
 */
module RtuAmbiguity {
  import opened Common
  import opened Sequences
  import opened RtuStream
  import opened RtuCleanStream
  import opened RtuSafety

  /** A message of the link: addressed, with a check that agrees, and of a plausible layout of its own length. */
  ghost predicate WellFormed(config: Config, m: seq<Byte>) {
    && |m| >= 4
    && AddressMatches(config.deviceAddress, m[0])
    && ModbusCrc.Valid(m)
    && exists c :: c in Candidates(m) && c.len == |m| && IsPlausible(m, c)
  }

  ghost predicate AllWellFormed(config: Config, messages: seq<seq<Byte>>) {
    forall i :: 0 <= i < |messages| ==> WellFormed(config, messages[i])
  }

  /** Another layout of the head of `stream`, complete within it, whose check agrees. */
  ghost predicate Rival(m: seq<Byte>, stream: seq<Byte>, c: Candidate) {
    |m| >= 4 && c in Candidates(m) && c.len != |m| && c.len <= |stream| && ModbusCrc.Valid(stream[..c.len])
  }

  /** However they are cut, these bytes are read as these messages. */
  ghost predicate AlwaysRead(config: Config, last: Option<Outstanding>, messages: seq<seq<Byte>>) {
    forall chunks: seq<seq<Byte>> {:trigger PushAll(config, State([], 0, last), chunks)} ::
      Flatten(chunks) == Flatten(messages) ==> Raws(PushAll(config, State([], 0, last), chunks).1) == messages
  }

  // ---------- the rival wins ----------

  lemma RivalCandidate(m: seq<Byte>, stream: seq<Byte>, c: Candidate)
    requires |m| >= 4 && m <= stream && Rival(m, stream, c)
    requires exists own :: own in Candidates(m) && own.len == |m|
    ensures c.len >= 5 && c in Candidates(stream[..c.len])
  {
    CandidateFramed(m, c);
    var buf := stream[..c.len];
    hide ModbusCrc.Valid;
    if c.len > |m| {
      hide Candidates;
      CandidatesOfPrefix(m, buf);
    } else {
      assert buf <= m;
      ShortLayouts(m, c);
      hide Candidates;
      CandidatesOfPrefix(buf, m);
    }
  }

  /** Where a layout may show later, none is shorter than the header that shows it. */
  lemma ShortLayouts(m: seq<Byte>, c: Candidate)
    requires |m| >= 4 && c in Candidates(m)
    ensures IsWriteMultiple(m[1]) && !IsException(m[1]) && !IsRead(m[1]) ==> c.len >= 8
  {
    hide IsException, IsRead, IsWriteSingle, IsWriteMultiple;
  }

  lemma {:induction false} LongestValid(cs: seq<Candidate>, buf: seq<Byte>, c: Candidate)
    requires Descending(cs) && c in cs && c.len == |buf| && ModbusCrc.Valid(buf)
    ensures FirstValid(cs, buf).Some? && FirstValid(cs, buf).value.len == |buf|
  {
    hide ModbusCrc.Valid;
    assert buf[..|buf|] == buf;
    if cs[0].len > |buf| {
      LongestValid(cs[1..], buf, c);
    }
  }

  lemma RivalDecides(config: Config, m: seq<Byte>, stream: seq<Byte>, c: Candidate) returns (t: Candidate)
    requires |m| >= 4 && m <= stream && Rival(m, stream, c)
    requires exists own :: own in Candidates(m) && own.len == |m|
    ensures c.len >= 5 && t.len == c.len && Decide(config.policy, stream[..c.len], false) == Take(t, true)
  {
    RivalCandidate(m, stream, c);
    var buf := stream[..c.len];
    LongestFirst(buf);
    hide ModbusCrc.Valid, Candidates, IsPlausible, FirstValid, FirstGuess, FirstPlausible;
    LongestValid(Candidates(buf), buf, c);
    t := FirstValid(Candidates(buf), buf).value;
  }

  /** Cut right behind it, the rival is what comes out. */
  lemma RivalRead(config: Config, last: Option<Outstanding>, m: seq<Byte>, stream: seq<Byte>, c: Candidate)
    requires WellFormed(config, m) && m <= stream && Rival(m, stream, c)
    ensures var msgs := PushBytes(config, State([], 0, last), stream[..c.len]).1;
            msgs != [] && msgs[0].raw == stream[..c.len]
  {
    hide ModbusCrc.Valid, Candidates, IsPlausible, Decide, Drain, AddressMatches, Build, Framed;
    var t := RivalDecides(config, m, stream, c);
    var buf := stream[..c.len];
    AppendNothing(buf);
    assert buf[0] == m[0];
    NoSkip(config.deviceAddress, buf);
    var st := State(buf, 0, last);
    DrainTakes(config, st, t, true);
    assert buf[..t.len] == buf;
    BuildKeepsRaw(last, 0, buf, t.direction, true);
  }

  lemma TwoPushes(config: Config, st: State, first: seq<Byte>, second: seq<Byte>)
    ensures PushBytes(config, st, first).1 <= PushAll(config, st, [first, second]).1
  {
    hide PushBytes;
    assert [first, second][1..] == [second];
  }

  lemma RivalMisreads(config: Config, last: Option<Outstanding>, messages: seq<seq<Byte>>, c: Candidate)
    returns (chunks: seq<seq<Byte>>)
    requires messages != [] && WellFormed(config, messages[0])
    requires Rival(messages[0], Flatten(messages), c)
    ensures Flatten(chunks) == Flatten(messages)
    ensures Raws(PushAll(config, State([], 0, last), chunks).1) != messages
  {
    hide ModbusCrc.Valid, Candidates, IsPlausible, PushBytes, AddressMatches, WellFormed, Flatten;
    var stream := Flatten(messages);
    HeadOfStream(messages);
    RivalLength(messages[0], stream, c);
    var first, second := stream[..c.len], stream[c.len..];
    chunks := [first, second];
    RivalRead(config, last, messages[0], stream, c);
    TwoPushes(config, State([], 0, last), first, second);
    TwoFlattened(first, second);
    assert first + second == stream;
    assert Raws(PushAll(config, State([], 0, last), chunks).1)[0] == first;
  }

  lemma RivalLength(m: seq<Byte>, stream: seq<Byte>, c: Candidate)
    requires Rival(m, stream, c)
    ensures c.len <= |stream| && c.len != |m|
  {
    hide ModbusCrc.Valid, Candidates;
  }

  lemma HeadOfStream(messages: seq<seq<Byte>>)
    requires messages != []
    ensures messages[0] <= Flatten(messages) && Flatten(messages) == messages[0] + Flatten(messages[1..])
  {
  }

  lemma TwoFlattened(first: seq<Byte>, second: seq<Byte>)
    ensures Flatten([first, second]) == first + second
  {
    assert [first, second][1..] == [second] && [second][1..] == [];
    AppendNothing(second);
    assert Flatten([second]) == second + Flatten([second][1..]);
  }

  // ---------- without a rival ----------

  lemma CleanOrRival(config: Config, messages: seq<seq<Byte>>)
    requires messages != [] && WellFormed(config, messages[0])
    ensures CleanHead(config, messages[0], Flatten(messages)) <==>
            forall c :: !Rival(messages[0], Flatten(messages), c)
  {
    hide ModbusCrc.Valid, Candidates, IsPlausible, AddressMatches, Flatten;
    HeadOfStream(messages);
    forall c: Candidate | c in Candidates(messages[0]) && c.len != |messages[0]| && c.len <= |Flatten(messages)|
      ensures ModbusCrc.Valid(Flatten(messages)[..c.len]) <==> Rival(messages[0], Flatten(messages), c)
    {
    }
  }

  /** A message that is clean in its stream is clean alone. */
  lemma CleanAlone(config: Config, m: seq<Byte>, stream: seq<Byte>)
    requires CleanHead(config, m, stream)
    ensures Clean(config, [m]) && Flatten([m]) == m
  {
    hide ModbusCrc.Valid, Candidates, IsPlausible, AddressMatches;
    assert [m][1..] == [];
    AppendNothing(m);
    assert Flatten([m]) == m;
    forall c | c in Candidates(m) && c.len != |m| && c.len <= |m| ensures !ModbusCrc.Valid(m[..c.len]) {
      assert m[..c.len] == stream[..c.len];
    }
    assert Clean(config, [m][1..]);
  }

  lemma OneRead(config: Config, last: Option<Outstanding>, m: seq<Byte>, stream: seq<Byte>)
    returns (after: Option<Outstanding>)
    requires CleanHead(config, m, stream)
    ensures var (next, msgs) := PushBytes(config, State([], 0, last), m);
            next == State([], 0, after) && Raws(msgs) == [m]
  {
    hide CleanHead, PushBytes, Clean, InterpretAll;
    CleanAlone(config, m, stream);
    AppendNothing(m);
    HeadFacts(config, m, stream);
    OneWhole(m);
    PushClean(config, State([], 0, last), m, [m]);
    assert [m][..1] == [m];
    InterpretAllFaithful(config, last, [m]);
    after := PushBytes(config, State([], 0, last), m).0.lastRequest;
    assert m + [] == m;
  }

  lemma OneWhole(m: seq<Byte>)
    requires m != []
    ensures Whole([m], |m|) == 1
  {
    assert [m][1..] == [];
  }

  lemma RawsAppend(a: seq<Message>, b: seq<Message>)
    ensures Raws(a + b) == Raws(a) + Raws(b)
  {
  }

  /** If some message has a rival, here are chunks that are not read as the messages. */
  lemma {:induction false} Misread(config: Config, last: Option<Outstanding>, messages: seq<seq<Byte>>)
    returns (chunks: seq<seq<Byte>>)
    requires AllWellFormed(config, messages) && !Clean(config, messages)
    ensures Flatten(chunks) == Flatten(messages)
    ensures Raws(PushAll(config, State([], 0, last), chunks).1) != messages
    decreases |messages|
  {
    hide CleanHead, PushBytes, WellFormed, Rival;
    assert messages != [] && WellFormed(config, messages[0]);
    CleanOrRival(config, messages);
    if c :| Rival(messages[0], Flatten(messages), c) {
      chunks := RivalMisreads(config, last, messages, c);
    } else {
      var after := OneRead(config, last, messages[0], Flatten(messages));
      var rest := Misread(config, after, messages[1..]);
      chunks := [messages[0]] + rest;
      assert chunks[1..] == rest;
      var (next, msgs) := PushBytes(config, State([], 0, last), messages[0]);
      RawsAppend(msgs, PushAll(config, next, rest).1);
      assert ([messages[0]] + Raws(PushAll(config, next, rest).1))[1..] == Raws(PushAll(config, next, rest).1);
    }
  }

  lemma CleanRead(config: Config, last: Option<Outstanding>, messages: seq<seq<Byte>>, chunks: seq<seq<Byte>>)
    requires AllWellFormed(config, messages) && Clean(config, messages) && Flatten(chunks) == Flatten(messages)
    ensures Raws(PushAll(config, State([], 0, last), chunks).1) == messages
  {
    hide PushAll, Clean, InterpretAll, Flatten, ModbusCrc.Valid, Candidates, IsPlausible, AddressMatches;
    AppendNothing(Flatten(chunks));
    assert messages != [] ==> WellFormed(config, messages[0]);
    CleanStreamExact(config, State([], 0, last), chunks, messages);
    InterpretAllFaithful(config, last, messages);
  }

  /**
   Messages of the link are read back under every cutting exactly when none has, at its head, another layout that
   is complete in what follows and has a check that agrees.
   */
  lemma AlwaysReadIff(config: Config, last: Option<Outstanding>, messages: seq<seq<Byte>>)
    requires AllWellFormed(config, messages)
    ensures AlwaysRead(config, last, messages) <==> Clean(config, messages)
  {
    hide PushAll, Clean, Flatten, AllWellFormed, Raws;
    if Clean(config, messages) {
      forall chunks: seq<seq<Byte>> | Flatten(chunks) == Flatten(messages)
        ensures Raws(PushAll(config, State([], 0, last), chunks).1) == messages
      {
        CleanRead(config, last, messages, chunks);
      }
    } else {
      var chunks := Misread(config, last, messages);
    }
  }

  // ---------- a message with a rival ----------

  /** A request to read, with the check that makes it one. */
  const SHORT_BODY: seq<Byte> := [0x01, 0x03, 0x10, 0x00, 0x00, 0x01]

  /** The same bytes as the start of a block of sixteen, and its check behind it. */
  function LongBody(): seq<Byte> { Sealed(SHORT_BODY) + [0, 0, 0, 0, 0, 0, 0, 0, 0, 0, 0] }

  function Twofold(): seq<Byte> { Sealed(LongBody()) }

  lemma TwofoldParts()
    ensures |Twofold()| == 21 && Twofold()[..8] == Sealed(SHORT_BODY)
    ensures Twofold()[0] == 0x01 && Twofold()[1] == 0x03 && Twofold()[2] == 0x10
  {
    hide ModbusCrc.Checksum, ModbusCrc.LowByte, TopByte;
    assert SHORT_BODY <= Sealed(SHORT_BODY) <= LongBody() <= Twofold();
    assert |Sealed(SHORT_BODY)| == 8;
  }

  lemma TwofoldLayouts(m: seq<Byte>)
    requires |m| == 21 && m[1] == 0x03 && m[2] == 0x10
    ensures Candidates(m) == [Candidate(21, Response), Candidate(8, Request)]
    ensures IsPlausible(m, Candidate(21, Response))
  {
  }

  lemma TwofoldWellFormed(config: Config)
    requires config.deviceAddress == Some(0x01)
    ensures WellFormed(config, Twofold())
  {
    TwofoldParts();
    TwofoldLayouts(Twofold());
    SealedIsValid(LongBody());
    hide ModbusCrc.Valid, Candidates, IsPlausible, Sealed, LongBody;
    assert Candidate(21, Response) in Candidates(Twofold());
  }

  lemma TwofoldRival()
    ensures Rival(Twofold(), Twofold(), Candidate(8, Request))
  {
    TwofoldParts();
    TwofoldLayouts(Twofold());
    SealedIsValid(SHORT_BODY);
    hide ModbusCrc.Valid, Candidates, Sealed, LongBody, Twofold;
  }

  lemma OneFlattened(m: seq<Byte>)
    ensures Flatten([m]) == m
  {
    assert [m][1..] == [];
    AppendNothing(m);
  }

  /** One message, and a cutting that makes another of it: a valid response, the head of which is a valid request. */
  lemma TwofoldIsMisread(config: Config, last: Option<Outstanding>)
    requires config.deviceAddress == Some(0x01)
    ensures WellFormed(config, Twofold()) && !Clean(config, [Twofold()])
    ensures !AlwaysRead(config, last, [Twofold()])
  {
    hide Twofold, WellFormed, AlwaysRead, Rival, CleanHead, Flatten;
    var m := Twofold();
    TwofoldWellFormed(config);
    TwofoldRival();
    OneFlattened(m);
    CleanOrRival(config, [m]);
    AlwaysReadIff(config, last, [m]);
  }
}
