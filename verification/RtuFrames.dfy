/** How many frames a message is said to span, when the stream arrives in frames. */
module RtuFrames {
  import opened Common
  import opened Sequences
  import opened RtuStream
  import opened RtuCleanStream
  import opened RtuSafety

  // ---------- counting frames changes nothing but the count ----------

  lemma FieldsCount(raw: seq<Byte>, direction: Direction, crcValid: bool, n: nat, m: nat)
    requires Framed(raw, direction)
    ensures Fields(raw, direction, crcValid, n) == Fields(raw, direction, crcValid, m).(frameCount := n)
  {
    hide ContentOf, Candidates;
  }

  lemma DirectCount(last: Option<Outstanding>, msg: Message, n: nat)
    ensures Direct(last, msg.(frameCount := n)) == (Direct(last, msg).0.(frameCount := n), Direct(last, msg).1)
  {
    hide IsWriteSingle;
  }

  lemma AddressCount(last: Option<Outstanding>, msg: Message, n: nat)
    ensures Address(last, msg.(frameCount := n)) == (Address(last, msg).0.(frameCount := n), Address(last, msg).1)
  {
  }

  lemma RememberCount(last: Option<Outstanding>, msg: Message, n: nat)
    ensures Remember(last, msg.(frameCount := n)) == Remember(last, msg)
  {
  }

  lemma ResolveCount(last: Option<Outstanding>, msg: Message, n: nat)
    ensures Resolve(last, msg.(frameCount := n)) == (Resolve(last, msg).0.(frameCount := n), Resolve(last, msg).1)
  {
    DirectCount(last, msg, n);
    var (directed, left) := Direct(last, msg);
    AddressCount(left, directed, n);
    var (addressed, left2) := Address(left, directed);
    RememberCount(left2, addressed, n);
    hide Direct, Address, Remember;
  }

  lemma BuildCount(last: Option<Outstanding>, p: nat, q: nat, raw: seq<Byte>, direction: Direction, crcValid: bool)
    requires Framed(raw, direction)
    ensures var (msg, after) := Build(last, q, raw, direction, crcValid);
            Build(last, p, raw, direction, crcValid) == (msg.(frameCount := AtLeastOne(p)), after)
  {
    FieldsCount(raw, direction, crcValid, AtLeastOne(p), AtLeastOne(q));
    ResolveCount(last, Fields(raw, direction, crcValid, AtLeastOne(q)), AtLeastOne(p));
    hide Fields, Resolve, Candidates;
  }

  /** The same outcome but for the first message's count, and for the count still pending if there was none. */
  ghost predicate SameButCount(a: (State, seq<Message>), b: (State, seq<Message>), p: nat) {
    if b.1 == [] then a == (b.0.(pendingFrames := p), [])
    else a == (b.0, [b.1[0].(frameCount := AtLeastOne(p))] + b.1[1..])
  }

  lemma TakeBoth(config: Config, st: State, p: nat, atEnd: bool)
    returns (msg: Message, final: State, msgs: seq<Message>)
    requires Decide(config.policy, SkipToAddress(config.deviceAddress, st.buf), atEnd).Take?
    ensures Drain(config, st, atEnd) == (final, [msg] + msgs)
    ensures Drain(config, st.(pendingFrames := p), atEnd) == (final, [msg.(frameCount := AtLeastOne(p))] + msgs)
  {
    hide Drain, Build, Decide, Framed, SkipToAddress, AtLeastOne;
    var buf := SkipToAddress(config.deviceAddress, st.buf);
    var t := Decide(config.policy, buf, atEnd);
    var c := t.candidate;
    TakeRound(config, st, atEnd);
    TakeRound(config, st.(pendingFrames := p), atEnd);
    BuildCount(st.lastRequest, p, st.pendingFrames, buf[..c.len], c.direction, t.crcValid);
    var last: Option<Outstanding>;
    msg, last := Build(st.lastRequest, st.pendingFrames, buf[..c.len], c.direction, t.crcValid).0,
                 Build(st.lastRequest, st.pendingFrames, buf[..c.len], c.direction, t.crcValid).1;
    var rest := buf[c.len..];
    var next := State(rest, if rest == [] then 0 else 1, last);
    final, msgs := Drain(config, next, atEnd).0, Drain(config, next, atEnd).1;
  }

  lemma OneSameButCount(msg: Message, final: State, msgs: seq<Message>, p: nat)
    ensures SameButCount((final, [msg.(frameCount := AtLeastOne(p))] + msgs), (final, [msg] + msgs), p)
  {
    assert ([msg] + msgs)[0] == msg && ([msg] + msgs)[1..] == msgs;
  }

  lemma TakeSameButCount(config: Config, st: State, p: nat, atEnd: bool)
    requires Decide(config.policy, SkipToAddress(config.deviceAddress, st.buf), atEnd).Take?
    ensures SameButCount(Drain(config, st.(pendingFrames := p), atEnd), Drain(config, st, atEnd), p)
  {
    hide Drain, Decide, SkipToAddress, SameButCount, AtLeastOne;
    var msg, final, msgs := TakeBoth(config, st, p, atEnd);
    OneSameButCount(msg, final, msgs, p);
  }

  lemma {:induction false} DrainSameButCount(config: Config, st: State, p: nat, atEnd: bool)
    ensures SameButCount(Drain(config, st.(pendingFrames := p), atEnd), Drain(config, st, atEnd), p)
    decreases |st.buf|
  {
    hide Decide, Drain, SameButCount;
    var buf := SkipToAddress(config.deviceAddress, st.buf);
    var counted := st.(pendingFrames := p);
    match Decide(config.policy, buf, atEnd)
    case Take(_, _) =>
      TakeSameButCount(config, st, p, atEnd);
    case NoMessage =>
      if atEnd {
        LastRound(config, st, atEnd);
        LastRound(config, counted, atEnd);
        NothingSameButCount(st.(buf := buf), p);
      } else {
        DropRound(config, st);
        DropRound(config, counted);
        DrainSameButCount(config, st.(buf := buf[1..]), p, atEnd);
        assert counted.(buf := buf[1..]) == st.(buf := buf[1..]).(pendingFrames := p);
      }
    case NeedMore =>
      LastRound(config, st, atEnd);
      LastRound(config, counted, atEnd);
      NothingSameButCount(st.(buf := buf), p);
  }

  lemma NothingSameButCount(st: State, p: nat)
    ensures SameButCount((st.(pendingFrames := p), []), (st, []), p)
  {
  }

  /**
   For any stream: a frame's payload yields the messages its bytes would have, and the first of
   them is said to span the frames pushed since the last message, with this one.
   */
  lemma PushIsPushBytes(config: Config, st: State, chunk: seq<Byte>)
    requires chunk != []
    ensures SameButCount(Push(config, st, chunk), PushBytes(config, st, chunk), st.pendingFrames + 1)
  {
    hide Drain;
    var fed := st.(buf := st.buf + chunk);
    DrainSameButCount(config, fed, st.pendingFrames + 1, false);
    EvictionNeverFires(config, fed, chunk);
    EvictionNeverFires(config, fed.(pendingFrames := st.pendingFrames + 1), chunk);
  }

  /** A message handed over already framed takes the count of whatever the stream has pending. */
  lemma InterpretCount(config: Config, st: State, raw: seq<Byte>)
    ensures var msg := Interpret(config, st, raw).1;
            msg.Some? ==>
              && msg.value.frameCount == AtLeastOne(st.pendingFrames)
              && (msg.value.frameCount == 1 <==> st.pendingFrames <= 1)
  {
    hide ModbusCrc.Valid, IsPlausible, Candidates, Build;
    if Interpret(config, st, raw).1.Some? {
      ChosenIn(Candidates(raw), raw, |raw|);
      var c := FirstOfLength(Candidates(raw), |raw|).value;
      BuildKeepsRaw(st.lastRequest, st.pendingFrames, raw, c.direction, ModbusCrc.Valid(raw));
    }
  }

  // ---------- spans ----------

  function PushAllFrames(config: Config, st: State, chunks: seq<seq<Byte>>): (State, seq<Message>)
    decreases |chunks|
  {
    if chunks == [] then (st, [])
    else
      var (next, msgs) := Push(config, st, chunks[0]);
      var (final, more) := PushAllFrames(config, next, chunks[1..]);
      (final, msgs + more)
  }

  /** Whether a chunk of `n` bytes at 0 has a byte in common with the interval. */
  predicate Meets(n: nat, from: int, to: int) {
    (if from < 0 then 0 else from) < (if to < n then to else n)
  }

  /** How many chunks, laid end to end from 0, have bytes in the interval. */
  function Span(chunks: seq<seq<Byte>>, from: int, to: int): nat {
    if chunks == [] then 0
    else
      (if Meets(|chunks[0]|, from, to) then 1 else 0)
      + Span(chunks[1..], from - |chunks[0]|, to - |chunks[0]|)
  }

  /** The span of each message, laid end to end from `at`. */
  function Spans(messages: seq<seq<Byte>>, chunks: seq<seq<Byte>>, at: int): (spans: seq<nat>)
    ensures |spans| == |messages|
    decreases |messages|
  {
    if messages == [] then []
    else [Span(chunks, at, at + |messages[0]|)] + Spans(messages[1..], chunks, at + |messages[0]|)
  }

  lemma {:induction false} SpanBefore(chunks: seq<seq<Byte>>, from: int, to: int)
    requires to <= 0
    ensures Span(chunks, from, to) == 0
    decreases |chunks|
  {
    if chunks != [] {
      SpanBefore(chunks[1..], from - |chunks[0]|, to - |chunks[0]|);
    }
  }

  /** Messages behind the first chunk do not see it. */
  lemma {:induction false} SpansPast(messages: seq<seq<Byte>>, chunks: seq<seq<Byte>>, at: int)
    requires chunks != [] && at >= |chunks[0]|
    ensures Spans(messages, chunks, at) == Spans(messages, chunks[1..], at - |chunks[0]|)
    decreases |messages|
  {
    if messages != [] {
      SpansPast(messages[1..], chunks, at + |messages[0]|);
    }
  }

  function Ones(n: nat): (ones: seq<nat>)
    ensures |ones| == n
  {
    if n == 0 then [] else [1] + Ones(n - 1)
  }

  ghost predicate NoneEmpty(messages: seq<seq<Byte>>) {
    forall i :: 0 <= i < |messages| ==> messages[i] != []
  }

  /** Messages within the first chunk see it alone. */
  lemma {:induction false} SpansInside(messages: seq<seq<Byte>>, chunks: seq<seq<Byte>>, at: int)
    requires chunks != [] && 0 <= at && at + |Flatten(messages)| <= |chunks[0]| && NoneEmpty(messages)
    ensures Spans(messages, chunks, at) == Ones(|messages|)
    decreases |messages|
  {
    if messages != [] {
      var end := at + |messages[0]|;
      SpanBefore(chunks[1..], at - |chunks[0]|, end - |chunks[0]|);
      SpansInside(messages[1..], chunks, end);
    }
  }

  lemma {:induction false} SpansSplit(messages: seq<seq<Byte>>, chunks: seq<seq<Byte>>, at: int, k: nat)
    requires k <= |messages|
    ensures Spans(messages, chunks, at) ==
            Spans(messages[..k], chunks, at) + Spans(messages[k..], chunks, at + |Flatten(messages[..k])|)
    decreases |messages|
  {
    if k == 0 {
      assert messages[0..] == messages && Flatten(messages[..0]) == [];
    } else {
      SpansSplit(messages[1..], chunks, at + |messages[0]|, k - 1);
      assert messages[..k][1..] == messages[1..][..k - 1];
      assert messages[1..][k - 1..] == messages[k..];
    }
  }

  /** What is expected of messages of which the first has `before` frames' bytes waiting already. */
  function Expected(messages: seq<seq<Byte>>, chunks: seq<seq<Byte>>, waiting: nat, before: nat): (counts: seq<nat>)
    ensures |counts| == |messages|
  {
    if messages == [] then []
    else
      var end := |messages[0]| - waiting;
      [before + Span(chunks, 0 - waiting, end)] + Spans(messages[1..], chunks, end)
  }

  function Counts(msgs: seq<Message>): (counts: seq<nat>)
    ensures |counts| == |msgs|
  {
    if msgs == [] then [] else [msgs[0].frameCount] + Counts(msgs[1..])
  }

  lemma {:induction false} CountsConcat(a: seq<Message>, b: seq<Message>)
    ensures Counts(a + b) == Counts(a) + Counts(b)
    decreases |a|
  {
    if a == [] {
      assert a + b == b;
    } else {
      assert (a + b)[1..] == a[1..] + b;
      CountsConcat(a[1..], b);
    }
  }

  lemma {:induction false} CountsOnes(msgs: seq<Message>)
    requires forall i :: 0 <= i < |msgs| ==> msgs[i].frameCount == 1
    ensures Counts(msgs) == Ones(|msgs|)
  {
    if msgs != [] {
      CountsOnes(msgs[1..]);
    }
  }

  // ---------- a byte stream counts no frames ----------

  lemma {:induction false} DrainCounts(config: Config, st: State, atEnd: bool)
    requires st.pendingFrames <= 1
    ensures var (final, msgs) := Drain(config, st, atEnd);
            final.pendingFrames <= 1 && Counts(msgs) == Ones(|msgs|)
    decreases |st.buf|
  {
    hide Decide, Drain, Framed, Build, SkipToAddress;
    var buf := SkipToAddress(config.deviceAddress, st.buf);
    match Decide(config.policy, buf, atEnd)
    case Take(c, crcValid) =>
      TakeRound(config, st, atEnd);
      BuildKeepsRaw(st.lastRequest, st.pendingFrames, buf[..c.len], c.direction, crcValid);
      var (msg, last) := Build(st.lastRequest, st.pendingFrames, buf[..c.len], c.direction, crcValid);
      var next := State(buf[c.len..], if buf[c.len..] == [] then 0 else 1, last);
      DrainCounts(config, next, atEnd);
      CountsConcat([msg], Drain(config, next, atEnd).1);
      assert Counts([msg]) == [1];
    case NoMessage =>
      if atEnd {
        LastRound(config, st, atEnd);
      } else {
        DropRound(config, st);
        DrainCounts(config, st.(buf := buf[1..]), atEnd);
      }
    case NeedMore =>
      LastRound(config, st, atEnd);
  }

  lemma {:induction false} OnesConcat(m: nat, n: nat)
    ensures Ones(m) + Ones(n) == Ones(m + n)
  {
    if m == 0 {
      assert [] + Ones(n) == Ones(n);
    } else {
      OnesConcat(m - 1, n);
      AppendAssociative([1], Ones(m - 1), Ones(n));
    }
  }

  /** Any stream fed as bytes, clean or not: every message is said to span one frame. */
  lemma {:induction false} ByteStreamCountsOne(config: Config, st: State, chunks: seq<seq<Byte>>)
    requires st.pendingFrames <= 1
    ensures var (final, msgs) := PushAll(config, st, chunks);
            final.pendingFrames <= 1 && Counts(msgs) == Ones(|msgs|)
    decreases |chunks|
  {
    hide Drain, Ones, Counts;
    if chunks == [] {
      assert Counts([]) == Ones(0) by {
        CountsOnes([]);
      }
    } else {
      var (next, msgs) := PushBytes(config, st, chunks[0]);
      if chunks[0] == [] {
        CountsOnes(msgs);
      } else {
        DrainCounts(config, st.(buf := st.buf + chunks[0]), false);
      }
      ByteStreamCountsOne(config, next, chunks[1..]);
      var more := PushAll(config, next, chunks[1..]).1;
      CountsConcat(msgs, more);
      OnesConcat(|msgs|, |more|);
    }
  }

  // ---------- one frame at a time ----------

  /** A chunk that completes nothing adds itself to what is waiting. */
  lemma ExpectedWaits(messages: seq<seq<Byte>>, chunks: seq<seq<Byte>>, waiting: nat, before: nat)
    requires chunks != [] && chunks[0] != []
    requires messages != [] ==> waiting + |chunks[0]| < |messages[0]|
    ensures Expected(messages, chunks, waiting, before) ==
            Expected(messages, chunks[1..], waiting + |chunks[0]|, before + 1)
  {
    if messages != [] {
      SpansPast(messages[1..], chunks, |messages[0]| - waiting);
    }
  }

  /** The message being waited for sees the chunk that completes it and none behind. */
  lemma CompletedSpan(chunks: seq<seq<Byte>>, waiting: nat, end: nat)
    requires chunks != [] && 0 < end <= |chunks[0]|
    ensures Span(chunks, 0 - waiting, end) == 1
  {
    SpanBefore(chunks[1..], 0 - waiting - |chunks[0]|, end - |chunks[0]|);
  }

  /** The messages behind it in the chunk see the chunk alone, and the last one what is left over. */
  lemma OthersCompleted(messages: seq<seq<Byte>>, chunks: seq<seq<Byte>>, end: nat, k: nat, left: nat)
    requires chunks != [] && k <= |messages| && NoneEmpty(messages)
    requires end + |Flatten(messages[..k])| + left == |chunks[0]|
    requires if k == |messages| then left == 0 else left < |messages[k]|
    ensures Spans(messages, chunks, end) ==
            Ones(k) + Expected(messages[k..], chunks[1..], left, if left == 0 then 0 else 1)
  {
    hide Spans, Span, Expected, Flatten, Ones;
    SpansSplit(messages, chunks, end, k);
    SpansInside(messages[..k], chunks, end);
    LastExpected(messages[k..], chunks, left);
  }

  /** A chunk that completes `k` messages ends the wait, and leaves at most its own bytes waiting. */
  lemma ExpectedCompletes(
    messages: seq<seq<Byte>>, chunks: seq<seq<Byte>>, waiting: nat, before: nat, k: nat, left: nat)
    requires chunks != [] && 0 < k <= |messages| && NoneEmpty(messages)
    requires waiting < |messages[0]|
    requires waiting + |chunks[0]| == |Flatten(messages[..k])| + left
    requires if k == |messages| then left == 0 else left < |messages[k]|
    ensures Expected(messages, chunks, waiting, before) ==
            ([before + 1] + Ones(k - 1))
            + Expected(messages[k..], chunks[1..], left, if left == 0 then 0 else 1)
  {
    hide Spans, Span, Ones;
    var end := |messages[0]| - waiting;
    var others := messages[1..];
    FlattenFirst(messages, k);
    CompletedSpan(chunks, waiting, end);
    OthersCompleted(others, chunks, end, k - 1, left);
    assert others[k - 1..] == messages[k..];
    assert Expected(messages, chunks, waiting, before) == [before + 1] + Spans(others, chunks, end);
    hide Expected;
    AppendAssociative(
      [before + 1], Ones(k - 1), Expected(messages[k..], chunks[1..], left, if left == 0 then 0 else 1));
  }

  lemma FlattenFirst(messages: seq<seq<Byte>>, k: nat)
    requires 0 < k <= |messages|
    ensures Flatten(messages[..k]) == messages[0] + Flatten(messages[1..][..k - 1])
  {
    assert messages[..k][0] == messages[0] && messages[..k][1..] == messages[1..][..k - 1];
  }

  /** The message a chunk leaves unfinished, if it leaves one, has that chunk's bytes waiting. */
  lemma LastExpected(messages: seq<seq<Byte>>, chunks: seq<seq<Byte>>, left: nat)
    requires chunks != [] && left <= |chunks[0]| && (if messages == [] then left == 0 else left < |messages[0]|)
    ensures Spans(messages, chunks, |chunks[0]| - left) ==
            Expected(messages, chunks[1..], left, if left == 0 then 0 else 1)
  {
    if messages != [] {
      SpansPast(messages[1..], chunks, |chunks[0]| - left + |messages[0]|);
    }
  }

  lemma CleanNotEmpty(config: Config, messages: seq<seq<Byte>>)
    requires Clean(config, messages)
    ensures NoneEmpty(messages)
  {
    hide CleanHead;
    forall i | 0 <= i < |messages| ensures messages[i] != [] {
      CleanSuffix(config, messages, i);
      NextFits(config, messages[i..]);
    }
  }

  lemma CleanPrefix(config: Config, messages: seq<seq<Byte>>, k: nat, last: Option<Outstanding>)
    requires Clean(config, messages) && k <= |messages|
    ensures var msgs := InterpretAll(config, last, messages[..k]).0;
            |msgs| == k && forall i :: 0 <= i < k ==> msgs[i].frameCount == 1 && msgs[i].raw == messages[i]
  {
    hide Interpret, CleanHead, Clean, InterpretAll;
    InterpretAllFaithful(config, last, messages);
    InterpretAllSplit(config, last, messages, k);
    PrefixLength(config, last, messages[..k]);
    var after := InterpretAll(config, last, messages[..k]).1;
    PrefixLength(config, after, messages[k..]);
    var msgs := InterpretAll(config, last, messages[..k]).0;
    var all := InterpretAll(config, last, messages).0;
    assert forall i :: 0 <= i < |msgs| ==> all[i] == msgs[i];
  }

  /** No more messages out than in. */
  lemma {:induction false} PrefixLength(config: Config, last: Option<Outstanding>, messages: seq<seq<Byte>>)
    ensures |InterpretAll(config, last, messages).0| <= |messages|
    decreases |messages|
  {
    hide Interpret;
    if messages != [] {
      PrefixLength(config, Interpret(config, State([], 0, last), messages[0]).0.lastRequest, messages[1..]);
    }
  }

  /** One frame of a clean stream: what it completes, counted, and what it leaves waiting. */
  lemma PushCounts(config: Config, st: State, chunk: seq<Byte>, messages: seq<seq<Byte>>)
    requires Clean(config, messages) && st.buf + chunk <= Flatten(messages) && chunk != []
    requires messages == [] || |st.buf| < |messages[0]|
    ensures var k := Whole(messages, |st.buf + chunk|);
            var (next, msgs) := Push(config, st, chunk);
            && st.buf + chunk == Flatten(messages[..k]) + next.buf
            && (if k == |messages| then next.buf == [] else |next.buf| < |messages[k]|)
            && next.pendingFrames == Pending(k, st.pendingFrames + 1, next.buf)
            && Counts(msgs) == (if k == 0 then [] else [st.pendingFrames + 1] + Ones(k - 1))
  {
    hide PushBytes, Push, InterpretAll, Clean, Whole;
    var quiet := st.(pendingFrames := 0);
    var k := Whole(messages, |st.buf + chunk|);
    PushClean(config, quiet, chunk, messages);
    PushIsPushBytes(config, quiet, chunk);
    CountedFromZero(config, st, chunk);
    CleanPrefix(config, messages, k, st.lastRequest);
    var msgs := PushBytes(config, quiet, chunk).1;
    if k > 0 {
      CountsOnes(msgs[1..]);
      CountsConcat([msgs[0].(frameCount := st.pendingFrames + 1)], msgs[1..]);
    }
  }

  /** The messages of that frame are the stream's own. */
  lemma PushDelivers(config: Config, st: State, chunk: seq<Byte>, messages: seq<seq<Byte>>)
    requires Clean(config, messages) && st.buf + chunk <= Flatten(messages) && chunk != []
    requires messages == [] || |st.buf| < |messages[0]|
    ensures Raws(Push(config, st, chunk).1) == messages[..Whole(messages, |st.buf + chunk|)]
  {
    hide PushBytes, Push, InterpretAll, Clean, Whole;
    var quiet := st.(pendingFrames := 0);
    var k := Whole(messages, |st.buf + chunk|);
    PushClean(config, quiet, chunk, messages);
    CountedFromZero(config, st, chunk);
    CleanPrefix(config, messages, k, st.lastRequest);
  }

  lemma CountedFromZero(config: Config, st: State, chunk: seq<Byte>)
    requires chunk != []
    ensures SameButCount(
              Push(config, st, chunk), PushBytes(config, st.(pendingFrames := 0), chunk), st.pendingFrames + 1)
  {
    hide Drain;
    var fed := State(st.buf + chunk, 0, st.lastRequest);
    DrainSameButCount(config, fed, st.pendingFrames + 1, false);
    EvictionNeverFires(config, fed, chunk);
    EvictionNeverFires(config, fed.(pendingFrames := st.pendingFrames + 1), chunk);
  }

  /** From any point of a clean stream, the counts are what is waiting and what is still to come. */
  lemma {:induction false} CountsFrom(config: Config, st: State, chunks: seq<seq<Byte>>, messages: seq<seq<Byte>>)
    requires Clean(config, messages) && st.buf + Flatten(chunks) == Flatten(messages)
    requires messages == [] || |st.buf| < |messages[0]|
    ensures Counts(PushAllFrames(config, st, chunks).1) == Expected(messages, chunks, |st.buf|, st.pendingFrames)
    decreases |chunks|
  {
    hide Push, Clean, Whole, Expected, Flatten, PushAllFrames, Counts;
    if chunks == [] {
      AllRead(st.buf, messages);
      ExpectedNone(chunks, st.pendingFrames);
      NoFrames(config, st);
    } else if chunks[0] == [] {
      EmptyFrameSkipped(config, st, chunks);
      CountsFrom(config, st, chunks[1..], messages);
      ExpectedSkips(messages, chunks, |st.buf|, st.pendingFrames);
    } else {
      OneFrameMore(config, st, chunks);
      AppendAssociative(st.buf, chunks[0], Flatten(chunks[1..]));
      PushCounts(config, st, chunks[0], messages);
      var k := Whole(messages, |st.buf + chunks[0]|);
      var (next, msgs) := Push(config, st, chunks[0]);
      RestOfStream(config, st.buf + chunks[0], Flatten(chunks[1..]), messages, k, next.buf);
      CountsFrom(config, next, chunks[1..], messages[k..]);
      CountsConcat(msgs, PushAllFrames(config, next, chunks[1..]).1);
      ExpectedStep(config, messages, chunks, |st.buf|, st.pendingFrames, k, next.buf);
    }
  }

  lemma NoFrames(config: Config, st: State)
    ensures Counts(PushAllFrames(config, st, []).1) == []
  {
  }

  lemma EmptyFrameSkipped(config: Config, st: State, chunks: seq<seq<Byte>>)
    requires chunks != [] && chunks[0] == []
    ensures PushAllFrames(config, st, chunks) == PushAllFrames(config, st, chunks[1..])
    ensures Flatten(chunks) == Flatten(chunks[1..])
  {
    hide Push;
    PushNothing(config, st);
    assert [] + PushAllFrames(config, st, chunks[1..]).1 == PushAllFrames(config, st, chunks[1..]).1;
  }

  lemma OneFrameMore(config: Config, st: State, chunks: seq<seq<Byte>>)
    requires chunks != []
    ensures Flatten(chunks) == chunks[0] + Flatten(chunks[1..])
    ensures var (next, msgs) := Push(config, st, chunks[0]);
            PushAllFrames(config, st, chunks).1 == msgs + PushAllFrames(config, next, chunks[1..]).1
  {
    hide Push;
  }

  lemma ExpectedNone(chunks: seq<seq<Byte>>, before: nat)
    ensures Expected([], chunks, 0, before) == []
  {
  }

  lemma PushNothing(config: Config, st: State)
    ensures Push(config, st, []) == (st, [])
  {
  }

  lemma ExpectedSkips(messages: seq<seq<Byte>>, chunks: seq<seq<Byte>>, waiting: nat, before: nat)
    requires chunks != [] && chunks[0] == []
    ensures Expected(messages, chunks, waiting, before) == Expected(messages, chunks[1..], waiting, before)
  {
    if messages != [] {
      SpansSkip(messages[1..], chunks, |messages[0]| - waiting);
    }
  }

  lemma {:induction false} SpansSkip(messages: seq<seq<Byte>>, chunks: seq<seq<Byte>>, at: int)
    requires chunks != [] && chunks[0] == []
    ensures Spans(messages, chunks, at) == Spans(messages, chunks[1..], at)
    decreases |messages|
  {
    if messages != [] {
      SpansSkip(messages[1..], chunks, at + |messages[0]|);
    }
  }

  lemma ExpectedStep(config: Config, messages: seq<seq<Byte>>, chunks: seq<seq<Byte>>, waiting: nat, before: nat,
                     k: nat, left: seq<Byte>)
    requires Clean(config, messages) && chunks != [] && chunks[0] != [] && k <= |messages|
    requires messages == [] || waiting < |messages[0]|
    requires waiting + |chunks[0]| == |Flatten(messages[..k])| + |left|
    requires if k == |messages| then left == [] else |left| < |messages[k]|
    ensures Expected(messages, chunks, waiting, before) ==
            (if k == 0 then [] else [before + 1] + Ones(k - 1))
            + Expected(messages[k..], chunks[1..], |left|, Pending(k, before + 1, left))
  {
    CleanNotEmpty(config, messages);
    hide Expected, Clean, Span, Spans, Ones, Pending, NoneEmpty;
    if k == 0 {
      ExpectedStays(messages, chunks, waiting, before, left);
    } else {
      ExpectedMoves(messages, chunks, waiting, before, k, left);
    }
  }

  lemma ExpectedStays(messages: seq<seq<Byte>>, chunks: seq<seq<Byte>>, waiting: nat, before: nat, left: seq<Byte>)
    requires NoneEmpty(messages) && chunks != [] && chunks[0] != []
    requires messages == [] || waiting < |messages[0]|
    requires waiting + |chunks[0]| == |Flatten(messages[..0])| + |left|
    requires if messages == [] then left == [] else |left| < |messages[0]|
    ensures Expected(messages, chunks, waiting, before) ==
            [] + Expected(messages[0..], chunks[1..], |left|, Pending(0, before + 1, left))
  {
    hide Expected, Span, Spans;
    assert messages[0..] == messages && messages[..0] == [];
    ExpectedWaits(messages, chunks, waiting, before);
    AppendNothing(Expected(messages, chunks[1..], |left|, before + 1));
  }

  lemma ExpectedMoves(messages: seq<seq<Byte>>, chunks: seq<seq<Byte>>, waiting: nat, before: nat,
                      k: nat, left: seq<Byte>)
    requires NoneEmpty(messages) && chunks != [] && chunks[0] != [] && 0 < k <= |messages|
    requires waiting < |messages[0]|
    requires waiting + |chunks[0]| == |Flatten(messages[..k])| + |left|
    requires if k == |messages| then left == [] else |left| < |messages[k]|
    ensures Expected(messages, chunks, waiting, before) ==
            [before + 1] + Ones(k - 1) + Expected(messages[k..], chunks[1..], |left|, Pending(k, before + 1, left))
  {
    hide Expected, Span, Spans, Ones;
    ExpectedCompletes(messages, chunks, waiting, before, k, |left|);
  }

  /** On a clean stream each message's count is the number of frames with bytes of it. */
  lemma FrameCountsAreSpans(config: Config, chunks: seq<seq<Byte>>, messages: seq<seq<Byte>>)
    requires Clean(config, messages) && Flatten(chunks) == Flatten(messages)
    ensures Counts(PushAllFrames(config, State([], 0, None), chunks).1) == Spans(messages, chunks, 0)
  {
    CleanNotEmpty(config, messages);
    assert [] + Flatten(chunks) == Flatten(messages);
    CountsFrom(config, State([], 0, None), chunks, messages);
    hide Span;
  }

  lemma OnlyMessage(config: Config, m: seq<Byte>)
    requires Clean(config, [m])
    ensures m != [] && Flatten([m]) == m && Whole([m], |m|) == 1
  {
    hide Clean;
    CleanNotEmpty(config, [m]);
    assert [m][0] == m && [m][1..] == [];
    assert Flatten([m][1..]) == [] && m + [] == m;
  }

  lemma PushAllTwo(config: Config, st: State, a: seq<Byte>, b: seq<Byte>)
    ensures var (next, msgs) := Push(config, st, a);
            var (final, more) := Push(config, next, b);
            PushAllFrames(config, st, [a, b]) == (final, msgs + more)
  {
    hide Push;
    var (next, msgs) := Push(config, st, a);
    var (final, more) := Push(config, next, b);
    assert [a, b][1..] == [b] && [b][1..] == [];
    AppendNothing(more);
    assert PushAllFrames(config, next, [b]) == (final, more + []);
  }

  lemma JunkThenMessage(config: Config, junk: seq<Byte>, m: seq<Byte>)
    requires junk != [] && SkipToAddress(config.deviceAddress, junk) == []
    ensures PushAllFrames(config, State([], 0, None), [junk, m]).1 == Push(config, State([], 1, None), m).1
  {
    hide *;
    JunkLeavesNothing(config, junk);
    PushAllTwo(config, State([], 0, None), junk, m);
    AppendNothing(Push(config, State([], 1, None), m).1);
  }

  lemma JunkCounts(config: Config, junk: seq<Byte>, m: seq<Byte>)
    requires junk != [] && SkipToAddress(config.deviceAddress, junk) == []
    requires Clean(config, [m])
    ensures Counts(PushAllFrames(config, State([], 0, None), [junk, m]).1) == [2]
  {
    hide *;
    JunkThenMessage(config, junk, m);
    OneFrameCounted(config, State([], 1, None), m);
  }

  /** A frame of nothing but junk is counted in the message that follows it, whose bytes are all in its own frame. */
  lemma JunkFramesAreCounted(config: Config, junk: seq<Byte>, m: seq<Byte>)
    requires junk != [] && SkipToAddress(config.deviceAddress, junk) == []
    requires Clean(config, [m])
    ensures Counts(PushAllFrames(config, State([], 0, None), [junk, m]).1) == [2]
    ensures Span([junk, m], |junk|, |junk| + |m|) == 1
  {
    hide *;
    JunkCounts(config, junk, m);
    JunkSpan(config, junk, m);
  }

  lemma OneFrameCounted(config: Config, st: State, m: seq<Byte>)
    requires Clean(config, [m]) && st.buf == []
    ensures Counts(Push(config, st, m).1) == [st.pendingFrames + 1]
  {
    hide Push, Clean, Whole;
    OnlyMessage(config, m);
    assert [] + m == m;
    PushCounts(config, st, m, [m]);
    assert Ones(0) == [];
    assert [st.pendingFrames + 1] + [] == [st.pendingFrames + 1];
  }

  lemma JunkSpan(config: Config, junk: seq<Byte>, m: seq<Byte>)
    requires Clean(config, [m])
    ensures Span([junk, m], |junk|, |junk| + |m|) == 1
  {
    hide Clean;
    CleanNotEmpty(config, [m]);
    assert [m][0] != [];
    assert [junk, m][1..] == [m] && [m][1..] == [];
    assert Span([m], 0, |m|) == 1;
  }

  lemma JunkLeavesNothing(config: Config, junk: seq<Byte>)
    requires junk != [] && SkipToAddress(config.deviceAddress, junk) == []
    ensures Push(config, State([], 0, None), junk) == (State([], 1, None), [])
  {
    hide ModbusCrc.Valid, IsPlausible, Candidates, Build;
    assert [] + junk == junk;
    LastRound(config, State(junk, 1, None), false);
  }
}
