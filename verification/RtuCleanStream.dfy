/**
 A stream of whole messages comes back as exactly those messages, however the bytes
 are cut up and under either CRC policy.
 */
module RtuCleanStream {
  import opened Common
  import opened Sequences
  import opened RtuProtocol
  import opened RtuStream

  /**
   A message at the head of a stream: addressed, plausible, with a valid check, and with no
   other layout of its head that the bytes of the stream would also validate.
   */
  ghost predicate CleanHead(config: Config, m: seq<Byte>, stream: seq<Byte>) {
    && |m| >= 4 && m <= stream
    && AddressMatches(config.deviceAddress, m[0])
    && ModbusCrc.Valid(m)
    && (exists c :: c in Candidates(m) && c.len == |m| && IsPlausible(m, c))
    && (forall c :: c in Candidates(m) && c.len != |m| && c.len <= |stream| ==> !ModbusCrc.Valid(stream[..c.len]))
  }

  ghost predicate Clean(config: Config, messages: seq<seq<Byte>>) {
    messages == [] ||
    (CleanHead(config, messages[0], Flatten(messages)) && Clean(config, messages[1..]))
  }

  // ---------- how candidates grow with the buffer ----------

  lemma CandidatesOfPrefix(p: seq<Byte>, s: seq<Byte>)
    requires |p| >= 4 && p <= s
    ensures Candidates(p) == Candidates(s) || (|p| < 7 && Candidates(p) == [Candidate(8, Response)])
  {
    hide IsException, IsRead, IsWriteSingle, IsWriteMultiple;
  }

  /** What a longer buffer finds plausible, its prefix did not rule out. */
  lemma PlausibleOfPrefix(p: seq<Byte>, s: seq<Byte>, c: Candidate)
    requires |p| >= 2 && p <= s && IsPlausible(s, c)
    ensures IsPlausible(p, c)
  {
    hide IsException, IsRead, IsWriteMultiple, FromFunctionCode, BothBytes;
  }

  lemma WriteResponsePlausible(p: seq<Byte>)
    requires |p| >= 2 && Candidates(p) == [Candidate(8, Response)]
    ensures IsPlausible(p, Candidate(8, Response))
  {
    hide IsRead, IsWriteSingle, IsException, FromFunctionCode, BothBytes;
    CodesApart(p[1]);
  }

  lemma CodesApart(code: Byte)
    ensures IsWriteMultiple(code) ==> !IsRead(code) && !IsException(code)
  {
  }

  lemma LongestFirst(buf: seq<Byte>)
    requires |buf| >= 2
    ensures Descending(Candidates(buf))
    ensures forall c :: c in Candidates(buf) ==> c.len <= 264
  {
    hide IsException, IsRead, IsWriteSingle, IsWriteMultiple;
  }

  predicate Descending(cs: seq<Candidate>) {
    forall i, j :: 0 <= i < j < |cs| ==> cs[i].len >= cs[j].len
  }

  // ---------- what is decided ----------

  lemma {:induction false} NoneValid(cs: seq<Candidate>, buf: seq<Byte>)
    requires forall c :: c in cs && c.len <= |buf| ==> !ModbusCrc.Valid(buf[..c.len])
    ensures FirstValid(cs, buf).None?
  {
    hide ModbusCrc.Valid;
    if cs != [] {
      NoneValid(cs[1..], buf);
    }
  }

  lemma {:induction false} PlausibleAtLeast(cs: seq<Candidate>, buf: seq<Byte>, c: Candidate)
    requires |buf| >= 2 && Descending(cs) && c in cs && IsPlausible(buf, c)
    ensures FirstPlausible(cs, buf).Some? && FirstPlausible(cs, buf).value.len >= c.len
  {
    hide IsPlausible;
    if !IsPlausible(buf, cs[0]) {
      PlausibleAtLeast(cs[1..], buf, c);
    }
  }

  lemma {:induction false} OnlyLength(cs: seq<Candidate>, buf: seq<Byte>, len: nat)
    requires len <= |buf| && ModbusCrc.Valid(buf[..len])
    requires forall c :: c in cs && c.len != len && c.len <= |buf| ==> !ModbusCrc.Valid(buf[..c.len])
    ensures FirstValid(cs, buf) == FirstOfLength(cs, len)
  {
    hide ModbusCrc.Valid;
    if cs != [] {
      OnlyLength(cs[1..], buf, len);
    }
  }

  lemma {:induction false} LengthFound(cs: seq<Candidate>, c: Candidate)
    requires c in cs
    ensures FirstOfLength(cs, c.len).Some? && FirstOfLength(cs, c.len).value.len == c.len
  {
    if cs[0].len != c.len {
      LengthFound(cs[1..], c);
    }
  }

  /** Part of a message is waited on. */
  lemma PartWaits(config: Config, m: seq<Byte>, stream: seq<Byte>, p: seq<Byte>)
    requires CleanHead(config, m, stream) && p <= m && |p| < |m|
    ensures Decide(config.policy, p, false).NeedMore?
  {
    hide ModbusCrc.Valid, IsPlausible, Candidates, Descending, AddressMatches;
    if |p| >= 4 {
      var t :| t in Candidates(m) && t.len == |m| && IsPlausible(m, t);
      CandidatesOfPrefix(p, m);
      LongestFirst(p);
      if Candidates(p) == Candidates(m) {
        forall c | c in Candidates(p) && c.len <= |p| ensures !ModbusCrc.Valid(p[..c.len]) {
          assert p[..c.len] == stream[..c.len];
        }
        NoneValid(Candidates(p), p);
        PlausibleOfPrefix(p, m, t);
        PlausibleAtLeast(Candidates(p), p, t);
      } else {
        NoneValid(Candidates(p), p);
        WriteResponsePlausible(p);
        PlausibleAtLeast(Candidates(p), p, Candidate(8, Response));
      }
    }
  }

  /** A whole message is taken, read as `Interpret` would read it. */
  lemma WholeIsTaken(config: Config, m: seq<Byte>, stream: seq<Byte>, p: seq<Byte>, atEnd: bool)
    requires CleanHead(config, m, stream) && m <= p <= stream
    ensures FirstOfLength(Candidates(m), |m|).Some?
    ensures Decide(config.policy, p, atEnd) == Take(FirstOfLength(Candidates(m), |m|).value, true)
    ensures FirstOfLength(Candidates(m), |m|).value.len == |m|
  {
    hide ModbusCrc.Valid, IsPlausible, Candidates, AddressMatches;
    var t :| t in Candidates(m) && t.len == |m| && IsPlausible(m, t);
    LengthFound(Candidates(m), t);
    CandidatesOfPrefix(m, p);
    assert p[..|m|] == m;
    forall c | c in Candidates(p) && c.len != |m| && c.len <= |p| ensures !ModbusCrc.Valid(p[..c.len]) {
      assert p[..c.len] == stream[..c.len];
    }
    OnlyLength(Candidates(p), p, |m|);
  }

  // ---------- draining part of a clean stream ----------

  /** How `Interpret` labels a run of framed messages, each from the state the one before left. */
  function InterpretAll(config: Config, last: Option<Outstanding>, messages: seq<seq<Byte>>)
    : (seq<Message>, Option<Outstanding>)
    decreases |messages|
  {
    if messages == [] then ([], last)
    else
      var (st, msg) := Interpret(config, State([], 0, last), messages[0]);
      var (rest, final) := InterpretAll(config, st.lastRequest, messages[1..]);
      (OneOrNone(msg) + rest, final)
  }

  function OneOrNone(msg: Option<Message>): seq<Message> {
    match msg case Some(m) => [m] case None => []
  }

  lemma InterpretAllStep(config: Config, last: Option<Outstanding>, messages: seq<seq<Byte>>)
    requires messages != []
    ensures var (st, msg) := Interpret(config, State([], 0, last), messages[0]);
            var (rest, final) := InterpretAll(config, st.lastRequest, messages[1..]);
            InterpretAll(config, last, messages) == (OneOrNone(msg) + rest, final)
  {
    hide Interpret;
  }

  /** How many of the messages lie wholly within the first `n` bytes. */
  function Whole(messages: seq<seq<Byte>>, n: nat): (k: nat)
    ensures k <= |messages|
  {
    if messages == [] || n < |messages[0]| then 0 else 1 + Whole(messages[1..], n - |messages[0]|)
  }

  /** How many of the first `n` bytes are left once those messages are gone. */
  function Left(messages: seq<seq<Byte>>, n: nat): (left: nat)
    ensures left <= n
  {
    if messages == [] || n < |messages[0]| then n else Left(messages[1..], n - |messages[0]|)
  }

  lemma InterpretsClean(config: Config, last: Option<Outstanding>, m: seq<Byte>, stream: seq<Byte>, pending: nat)
    requires CleanHead(config, m, stream) && pending <= 1
    ensures FirstOfLength(Candidates(m), |m|).Some?
    ensures var c := FirstOfLength(Candidates(m), |m|).value;
            && Framed(m, c.direction)
            && Interpret(config, State([], 0, last), m) ==
                 (var (msg, after) := Build(last, pending, m, c.direction, true); (State([], 0, after), Some(msg)))
  {
    hide ModbusCrc.Valid, IsPlausible, Candidates, Fields, Resolve;
    var t :| t in Candidates(m) && t.len == |m| && IsPlausible(m, t);
    LengthFound(Candidates(m), t);
    ChosenIn(Candidates(m), m, |m|);
  }

  lemma NoSkip(device: Option<Byte>, buf: seq<Byte>)
    requires buf == [] || AddressMatches(device, buf[0])
    ensures SkipToAddress(device, buf) == buf
  {
  }

  lemma DrainWaits(config: Config, st: State)
    requires SkipToAddress(config.deviceAddress, st.buf) == st.buf
    requires Decide(config.policy, st.buf, false).NeedMore?
    ensures Drain(config, st, false) == (st, [])
  {
    hide Decide, Build;
  }

  lemma DrainTakes(config: Config, st: State, c: Candidate, crcValid: bool)
    requires SkipToAddress(config.deviceAddress, st.buf) == st.buf
    requires Decide(config.policy, st.buf, false) == Take(c, crcValid)
    ensures c.len <= |st.buf| && Framed(st.buf[..c.len], c.direction)
    ensures var (msg, last) := Build(st.lastRequest, st.pendingFrames, st.buf[..c.len], c.direction, crcValid);
            var rest := st.buf[c.len..];
            var (final, msgs) := Drain(config, State(rest, if rest == [] then 0 else 1, last), false);
            Drain(config, st, false) == (final, [msg] + msgs)
  {
    TakeIsFramed(config.policy, st.buf, false);
    hide Decide, Build, Candidates;
  }

  /** Once a message is out, only the newest frame can still have bytes waiting. */
  function Pending(k: nat, before: nat, left: seq<Byte>): nat {
    if k == 0 then before else if left == [] then 0 else 1
  }

  /** The first messages of the stream come out as `Interpret` reads them; a part of the next stays. */
  ghost predicate Delivers(config: Config, st: State, messages: seq<seq<Byte>>) {
    var k := Whole(messages, |st.buf|);
    var left := Left(messages, |st.buf|);
    var (final, msgs) := Drain(config, st, false);
    && left <= |Flatten(messages[k..])|
    && final.buf == Flatten(messages[k..])[..left]
    && final.pendingFrames == Pending(k, st.pendingFrames, final.buf)
    && (msgs, final.lastRequest) == InterpretAll(config, st.lastRequest, messages[..k])
  }

  lemma PartStays(config: Config, st: State, messages: seq<seq<Byte>>)
    requires st.buf <= Flatten(messages) && st.pendingFrames <= 1
    requires messages == [] || |st.buf| < |messages[0]|
    requires Drain(config, st, false) == (st, [])
    ensures Delivers(config, st, messages)
  {
    hide Drain;
    assert messages[0..] == messages;
  }

  lemma InterpretAllCons(config: Config, last: Option<Outstanding>, messages: seq<seq<Byte>>, k: nat,
                         msg: Message, after: Option<Outstanding>)
    requires messages != [] && k <= |messages[1..]|
    requires Interpret(config, State([], 0, last), messages[0]) == (State([], 0, after), Some(msg))
    ensures var (rest, final) := InterpretAll(config, after, messages[1..][..k]);
            InterpretAll(config, last, messages[..k + 1]) == ([msg] + rest, final)
  {
    hide Interpret;
    assert messages[..k + 1][1..] == messages[1..][..k];
  }

  lemma WholeLeaves(config: Config, st: State, messages: seq<seq<Byte>>, msg: Message, next: State)
    requires messages != [] && |messages[0]| <= |st.buf| && next.buf == st.buf[|messages[0]|..]
    requires next.pendingFrames == if next.buf == [] then 0 else 1
    requires Interpret(config, State([], 0, st.lastRequest), messages[0]) == (State([], 0, next.lastRequest), Some(msg))
    requires Delivers(config, next, messages[1..])
    requires Drain(config, st, false) == (Drain(config, next, false).0, [msg] + Drain(config, next, false).1)
    ensures Delivers(config, st, messages)
  {
    hide Drain, Interpret, InterpretAll;
    var k := Whole(messages[1..], |next.buf|);
    assert messages[1..][k..] == messages[k + 1..];
    InterpretAllCons(config, st.lastRequest, messages, k, msg, next.lastRequest);
  }

  /** Draining the first bytes of a clean stream yields its whole messages and keeps the rest. */
  lemma {:induction false} DrainClean(config: Config, st: State, messages: seq<seq<Byte>>)
    requires Clean(config, messages) && st.buf <= Flatten(messages) && st.pendingFrames <= 1
    ensures Delivers(config, st, messages)
    decreases |messages|
  {
    hide ModbusCrc.Valid, IsPlausible, Candidates, Build, AddressMatches, Decide, CleanHead, Interpret,
         Drain, Delivers, Framed, FirstOfLength, InterpretAll;
    if messages == [] {
      NoSkip(config.deviceAddress, st.buf);
      ShortWaits(config.policy, st.buf);
      DrainWaits(config, st);
      PartStays(config, st, messages);
    } else {
      var m, stream := messages[0], Flatten(messages);
      HeadFacts(config, m, stream);
      NoSkip(config.deviceAddress, st.buf);
      if |st.buf| < |m| {
        PartWaits(config, m, stream, st.buf);
        DrainWaits(config, st);
        PartStays(config, st, messages);
      } else {
        assert st.buf[..|m|] == m && st.buf[|m|..] <= Flatten(messages[1..]);
        WholeIsTaken(config, m, stream, st.buf, false);
        var c := FirstOfLength(Candidates(m), |m|).value;
        DrainTakes(config, st, c, true);
        InterpretsClean(config, st.lastRequest, m, stream, st.pendingFrames);
        var (msg, last) := Build(st.lastRequest, st.pendingFrames, m, c.direction, true);
        var rest := st.buf[|m|..];
        var next := State(rest, if rest == [] then 0 else 1, last);
        DrainClean(config, next, messages[1..]);
        WholeLeaves(config, st, messages, msg, next);
      }
    }
  }

  lemma ShortWaits(policy: CrcPolicy, buf: seq<Byte>)
    requires |buf| < 4
    ensures Decide(policy, buf, false).NeedMore?
  {
  }

  lemma HeadFacts(config: Config, m: seq<Byte>, stream: seq<Byte>)
    requires CleanHead(config, m, stream)
    ensures 4 <= |m| <= 264 && m <= stream && AddressMatches(config.deviceAddress, m[0])
  {
    hide ModbusCrc.Valid, IsPlausible, AddressMatches;
    LongestFirst(m);
  }

  // ---------- any way of cutting the stream ----------

  function PushAll(config: Config, st: State, chunks: seq<seq<Byte>>): (State, seq<Message>)
    decreases |chunks|
  {
    if chunks == [] then (st, [])
    else
      var (next, msgs) := PushBytes(config, st, chunks[0]);
      var (final, more) := PushAll(config, next, chunks[1..]);
      (final, msgs + more)
  }

  lemma {:induction false} CleanSuffix(config: Config, messages: seq<seq<Byte>>, k: nat)
    requires Clean(config, messages) && k <= |messages|
    ensures Clean(config, messages[k..])
  {
    hide CleanHead;
    if k == 0 {
      assert messages[0..] == messages;
    } else {
      CleanSuffix(config, messages[1..], k - 1);
      assert messages[1..][k - 1..] == messages[k..];
    }
  }

  lemma {:induction false} WholeLength(messages: seq<seq<Byte>>, n: nat)
    requires n <= |Flatten(messages)|
    ensures var k := Whole(messages, n);
            && |Flatten(messages[..k])| + Left(messages, n) == n
            && (if k == |messages| then Left(messages, n) == 0 else Left(messages, n) < |messages[k]|)
  {
    if messages != [] && n >= |messages[0]| {
      var k := Whole(messages, n);
      WholeLength(messages[1..], n - |messages[0]|);
      assert messages[..k][1..] == messages[1..][..k - 1];
    }
  }

  lemma InterpretNone(config: Config, last: Option<Outstanding>)
    ensures InterpretAll(config, last, []) == ([], last)
  {
  }

  lemma {:induction false} InterpretAllSplit(
    config: Config, last: Option<Outstanding>, messages: seq<seq<Byte>>, k: nat)
    requires k <= |messages|
    ensures var (first, after) := InterpretAll(config, last, messages[..k]);
            var (rest, final) := InterpretAll(config, after, messages[k..]);
            InterpretAll(config, last, messages) == (first + rest, final)
    decreases |messages|
  {
    hide Interpret;
    if k == 0 {
      SplitNowhere(config, last, messages);
    } else {
      var st := Interpret(config, State([], 0, last), messages[0]).0;
      InterpretAllSplit(config, st.lastRequest, messages[1..], k - 1);
      SplitAfterFirst(config, last, messages, k);
    }
  }

  lemma SplitNowhere(config: Config, last: Option<Outstanding>, messages: seq<seq<Byte>>)
    ensures InterpretAll(config, last, messages[..0]) == ([], last)
    ensures messages[0..] == messages
    ensures [] + InterpretAll(config, last, messages).0 == InterpretAll(config, last, messages).0
  {
    hide Interpret;
  }

  lemma SplitAfterFirst(config: Config, last: Option<Outstanding>, messages: seq<seq<Byte>>, k: nat)
    requires 0 < k <= |messages|
    requires var after0 := Interpret(config, State([], 0, last), messages[0]).0.lastRequest;
             var (first, after) := InterpretAll(config, after0, messages[1..][..k - 1]);
             var (rest, final) := InterpretAll(config, after, messages[1..][k - 1..]);
             InterpretAll(config, after0, messages[1..]) == (first + rest, final)
    ensures var (first, after) := InterpretAll(config, last, messages[..k]);
            var (rest, final) := InterpretAll(config, after, messages[k..]);
            InterpretAll(config, last, messages) == (first + rest, final)
  {
    hide Interpret, InterpretAll, OneOrNone;
    assert messages[..k][0] == messages[0] && messages[..k][1..] == messages[1..][..k - 1];
    assert messages[1..][k - 1..] == messages[k..];
    InterpretAllStep(config, last, messages);
    InterpretAllStep(config, last, messages[..k]);
    var (st, msg) := Interpret(config, State([], 0, last), messages[0]);
    var (first, after) := InterpretAll(config, st.lastRequest, messages[1..][..k - 1]);
    AppendAssociative(OneOrNone(msg), first, InterpretAll(config, after, messages[k..]).0);
  }

  /** One push of a clean stream, from a buffer holding part of its next message. */
  lemma PushClean(config: Config, st: State, chunk: seq<Byte>, messages: seq<seq<Byte>>)
    requires Clean(config, messages) && st.buf + chunk <= Flatten(messages) && st.pendingFrames <= 1
    requires messages == [] || |st.buf| < |messages[0]|
    ensures var k := Whole(messages, |st.buf + chunk|);
            var (next, msgs) := PushBytes(config, st, chunk);
            && st.buf + chunk == Flatten(messages[..k]) + next.buf
            && next.pendingFrames == Pending(k, st.pendingFrames, next.buf)
            && (if k == |messages| then next.buf == [] else |next.buf| < |messages[k]|)
            && (msgs, next.lastRequest) == InterpretAll(config, st.lastRequest, messages[..k])
  {
    hide Drain, Interpret, Clean, Whole, Left, InterpretAll;
    var fed := st.(buf := st.buf + chunk);
    if chunk == [] {
      PushNoBytes(config, st, messages);
      assert fed.buf == st.buf;
    } else {
      DrainClean(config, fed, messages);
      DeliversFrom(config, fed, messages);
    }
  }

  lemma PushNoBytes(config: Config, st: State, messages: seq<seq<Byte>>)
    requires messages == [] || |st.buf| < |messages[0]|
    requires st.buf <= Flatten(messages)
    ensures Whole(messages, |st.buf|) == 0 && Flatten(messages[..0]) + st.buf == st.buf
    ensures messages == [] ==> st.buf == []
    ensures InterpretAll(config, st.lastRequest, messages[..0]) == ([], st.lastRequest)
  {
    AppendNothing(st.buf);
  }

  /** What is delivered and what stays are the whole buffer, and what stays fits. */
  lemma DeliversFrom(config: Config, st: State, messages: seq<seq<Byte>>)
    requires Clean(config, messages) && Delivers(config, st, messages) && st.buf <= Flatten(messages)
    ensures var k := Whole(messages, |st.buf|);
            var final := Drain(config, st, false).0;
            && st.buf == Flatten(messages[..k]) + final.buf
            && (if k == |messages| then final.buf == [] else |final.buf| < |messages[k]|)
            && |final.buf| <= MAX_BUFFER
  {
    hide Drain, Clean, Whole, Left, InterpretAll, Flatten;
    var k := Whole(messages, |st.buf|);
    WholeLength(messages, |st.buf|);
    FlattenSplit(messages, k);
    if k < |messages| {
      CleanSuffix(config, messages, k);
      NextFits(config, messages[k..]);
    }
  }

  lemma NextFits(config: Config, messages: seq<seq<Byte>>)
    requires messages != [] && Clean(config, messages)
    ensures 0 < |messages[0]| <= MAX_BUFFER
  {
    hide CleanHead;
    HeadFacts(config, messages[0], Flatten(messages));
  }

  /** What is left of a clean stream once its first messages are gone. */
  lemma RestOfStream(
    config: Config, read: seq<Byte>, more: seq<Byte>, messages: seq<seq<Byte>>, k: nat, left: seq<Byte>)
    requires Clean(config, messages) && k <= |messages|
    requires read + more == Flatten(messages) && read == Flatten(messages[..k]) + left
    ensures Clean(config, messages[k..]) && left + more == Flatten(messages[k..])
  {
    hide Clean, Flatten;
    FlattenSplit(messages, k);
    CleanSuffix(config, messages, k);
    AppendAssociative(Flatten(messages[..k]), left, more);
    SamePrefix(Flatten(messages[..k]), left + more, Flatten(messages[k..]));
  }

  /**
   Any concatenation of clean messages, cut any way at all, comes back as those messages in
   order with nothing left over, labelled as if each had been handed over already framed.
   */
  lemma {:induction false} CleanStreamExact(config: Config, st: State, chunks: seq<seq<Byte>>, messages: seq<seq<Byte>>)
    requires Clean(config, messages) && st.buf + Flatten(chunks) == Flatten(messages) && st.pendingFrames <= 1
    requires messages == [] || |st.buf| < |messages[0]|
    ensures var (final, msgs) := PushAll(config, st, chunks);
            && final.buf == []
            && (msgs, final.lastRequest) == InterpretAll(config, st.lastRequest, messages)
    decreases |chunks|
  {
    hide PushBytes, InterpretAll, Clean, Whole, Left;
    if chunks == [] {
      AllRead(st.buf, messages);
      InterpretNone(config, st.lastRequest);
    } else {
      AppendAssociative(st.buf, chunks[0], Flatten(chunks[1..]));
      PushClean(config, st, chunks[0], messages);
      var k := Whole(messages, |st.buf + chunks[0]|);
      var next := PushBytes(config, st, chunks[0]).0;
      InterpretAllSplit(config, st.lastRequest, messages, k);
      RestOfStream(config, st.buf + chunks[0], Flatten(chunks[1..]), messages, k, next.buf);
      CleanStreamExact(config, next, chunks[1..], messages[k..]);
    }
  }

  lemma AllRead(buf: seq<Byte>, messages: seq<seq<Byte>>)
    requires buf + Flatten([]) == Flatten(messages)
    requires messages == [] || |buf| < |messages[0]|
    ensures buf == [] && messages == []
  {
  }

  /** One message out per message in: same bytes, check agreed, one frame each. */
  lemma {:induction false} InterpretAllFaithful(config: Config, last: Option<Outstanding>, messages: seq<seq<Byte>>)
    requires Clean(config, messages)
    ensures var msgs := InterpretAll(config, last, messages).0;
            && |msgs| == |messages|
            && forall i :: 0 <= i < |msgs| ==> msgs[i].raw == messages[i] && msgs[i].crcValid && msgs[i].frameCount == 1
    decreases |messages|
  {
    hide CleanHead, Interpret, Candidates, Framed, Build;
    if messages != [] {
      HeadFacts(config, messages[0], Flatten(messages));
      InterpretsClean(config, last, messages[0], Flatten(messages), 0);
      var c := FirstOfLength(Candidates(messages[0]), |messages[0]|).value;
      BuildKeepsRaw(last, 0, messages[0], c.direction, true);
      InterpretAllFaithful(config, Build(last, 0, messages[0], c.direction, true).1, messages[1..]);
    }
  }

  lemma FieldsKeepRaw(raw: seq<Byte>, direction: Direction, crcValid: bool, frameCount: nat)
    requires Framed(raw, direction)
    ensures var msg := Fields(raw, direction, crcValid, frameCount);
            msg.raw == raw && msg.crcValid == crcValid && msg.frameCount == frameCount
  {
    hide ContentOf, Candidates;
  }

  predicate SameFrame(a: Message, b: Message) {
    a.raw == b.raw && a.crcValid == b.crcValid && a.frameCount == b.frameCount
  }

  lemma DirectKeepsFrame(last: Option<Outstanding>, msg: Message)
    ensures SameFrame(Direct(last, msg).0, msg)
  {
    hide IsWriteSingle;
  }

  lemma AddressKeepsFrame(last: Option<Outstanding>, msg: Message)
    ensures SameFrame(Address(last, msg).0, msg)
  {
  }

  lemma ResolveKeepsRaw(last: Option<Outstanding>, msg: Message)
    ensures SameFrame(Resolve(last, msg).0, msg)
  {
    DirectKeepsFrame(last, msg);
    AddressKeepsFrame(Direct(last, msg).1, Direct(last, msg).0);
    hide Direct, Address, Remember;
  }

  lemma BuildKeepsRaw(last: Option<Outstanding>, pending: nat, raw: seq<Byte>, direction: Direction, crcValid: bool)
    requires Framed(raw, direction)
    ensures var msg := Build(last, pending, raw, direction, crcValid).0;
            msg.raw == raw && msg.crcValid == crcValid && msg.frameCount == AtLeastOne(pending)
  {
    FieldsKeepRaw(raw, direction, crcValid, AtLeastOne(pending));
    ResolveKeepsRaw(last, Fields(raw, direction, crcValid, AtLeastOne(pending)));
    hide Fields, Resolve, Candidates;
  }

  // ---------- there are clean messages ----------

  function TopByte(w: Word): Byte { (w >> 8) as Byte }

  /** A body with its check behind it, low byte first. */
  function Sealed(body: seq<Byte>): seq<Byte> {
    var c := ModbusCrc.Checksum(body);
    body + [ModbusCrc.LowByte(c), TopByte(c)]
  }

  lemma BytesOfWord(w: Word)
    ensures BothBytes(TopByte(w), ModbusCrc.LowByte(w)) == w
  {
  }

  lemma SealedIsValid(body: seq<Byte>)
    requires |body| >= 2
    ensures ModbusCrc.Valid(Sealed(body))
  {
    hide ModbusCrc.Checksum, ModbusCrc.LowByte, TopByte, BothBytes;
    var m := Sealed(body);
    assert m[..|m| - 2] == body;
    BytesOfWord(ModbusCrc.Checksum(body));
  }

  /** An exception response has one layout, so nothing can be mistaken for it. */
  lemma ExceptionIsClean(config: Config, address: Byte)
    requires AddressMatches(config.deviceAddress, address)
    ensures Clean(config, [Sealed([address, 0x83, 0x02])])
  {
    hide AddressMatches, ModbusCrc.Checksum, ModbusCrc.LowByte, TopByte, ModbusCrc.Valid;
    var m := Sealed([address, 0x83, 0x02]);
    SealedIsValid([address, 0x83, 0x02]);
    assert [m][1..] == [] && Flatten([m]) == m + Flatten([m][1..]) == m;
    assert Candidates(m) == [Candidate(5, Response)];
    assert IsPlausible(m, Candidate(5, Response));
    assert CleanHead(config, m, Flatten([m]));
    assert Clean(config, [m][1..]);
  }
}
