/** The reassembler itself: a buffer, a frame count and the outstanding request, updated in place. */
module RtuReassembler {
  import opened Common
  import opened RtuStream
  import RtuSafety

  /** What one pass over the head of the buffer achieved. */
  datatype Outcome = Recovered(msg: Message) | Nothing | Waiting

  /** The messages so far, and what the current state still yields, are what the first state yields. */
  ghost predicate Progress(config: Config, atEnd: bool, first: State, out: seq<Message>, now: State) {
    Drain(config, first, atEnd) == (Drain(config, now, atEnd).0, out + Drain(config, now, atEnd).1)
  }

  lemma ProgressStart(config: Config, atEnd: bool, first: State)
    ensures Progress(config, atEnd, first, [], first)
  {
    hide Drain;
    assert [] + Drain(config, first, atEnd).1 == Drain(config, first, atEnd).1;
  }

  lemma ProgressTake(
    config: Config, atEnd: bool, first: State, out: seq<Message>, before: State, msg: Message, now: State)
    requires Progress(config, atEnd, first, out, before)
    requires Drain(config, before, atEnd) == (Drain(config, now, atEnd).0, [msg] + Drain(config, now, atEnd).1)
    ensures Progress(config, atEnd, first, out + [msg], now)
  {
    hide Drain;
    assert (out + [msg]) + Drain(config, now, atEnd).1 == out + ([msg] + Drain(config, now, atEnd).1);
  }

  lemma ProgressSame(config: Config, atEnd: bool, first: State, out: seq<Message>, before: State, now: State)
    requires Progress(config, atEnd, first, out, before)
    requires Drain(config, before, atEnd) == Drain(config, now, atEnd)
    ensures Progress(config, atEnd, first, out, now)
  {
    hide Drain;
  }

  lemma ProgressStop(config: Config, atEnd: bool, first: State, out: seq<Message>, before: State, now: State)
    requires Progress(config, atEnd, first, out, before)
    requires Drain(config, before, atEnd) == (now, [])
    ensures Drain(config, first, atEnd) == (now, out)
  {
    hide Drain;
    assert out + [] == out;
  }

  class ModbusRtuStream {
    const deviceAddress: Option<Byte>
    const policy: CrcPolicy
    var buf: seq<Byte>
    /** Frames whose bytes are still unconsumed in `buf`. */
    var pendingFrames: nat
    var lastRequest: Option<Outstanding>

    function Configured(): Config { Config(deviceAddress, policy) }

    function Now(): State
      reads this
    {
      State(buf, pendingFrames, lastRequest)
    }

    constructor (deviceAddress: Option<Byte>, policy: CrcPolicy)
      ensures Configured() == Config(deviceAddress, policy)
      ensures Now() == State([], 0, None)
    {
      this.deviceAddress, this.policy := deviceAddress, policy;
      buf, pendingFrames, lastRequest := [], 0, None;
    }

    /** Discard anything before a byte a message can start with. */
    method SkipAhead()
      modifies this`buf
      ensures buf == SkipToAddress(deviceAddress, old(buf))
    {
      var skip := 0;
      while skip < |buf| && !AddressMatches(deviceAddress, buf[skip])
        invariant skip <= |buf|
        invariant SkipToAddress(deviceAddress, buf) == SkipToAddress(deviceAddress, buf[skip..])
      {
        hide AddressMatches;
        assert buf[skip..][1..] == buf[skip + 1..];
        skip := skip + 1;
      }
      buf := buf[skip..];
    }

    /** Turn framed bytes into a message, updating the outstanding request. */
    method BuildMessage(raw: seq<Byte>, direction: Direction, crcValid: bool) returns (msg: Message)
      requires Framed(raw, direction)
      modifies this`lastRequest
      ensures (msg, lastRequest) == Build(old(lastRequest), pendingFrames, raw, direction, crcValid)
    {
      hide Fields, Candidates, IsWriteSingle;
      msg := Fields(raw, direction, crcValid, AtLeastOne(pendingFrames));
      if IsWriteSingle(msg.code) {
        var answers := lastRequest.Some? && lastRequest.value.code == msg.code;
        msg := msg.(direction := if answers then Response else Request);
        lastRequest := None;
      }
      if msg.direction.Response? && msg.startRegister.None? {
        match lastRequest
        case Some(request) =>
          msg := msg.(startRegister := Some(request.start), quantity := Some(request.quantity));
          lastRequest := None;
        case None =>
      }
      if msg.direction.Request? {
        lastRequest := Some(Outstanding(msg.code, OrZero(msg.startRegister), OrZero(msg.quantity)));
      }
    }

    /** Try to consume one message from the head of the buffer. */
    method TakeMessage(atEnd: bool) returns (step: Outcome)
      modifies this
      ensures var d := Decide(policy, old(buf), atEnd);
              match d
              case NeedMore => step.Waiting? && Now() == old(Now())
              case NoMessage => step.Nothing? && Now() == old(Now())
              case Take(c, crcValid) =>
                && c.len <= |old(buf)| && Framed(old(buf)[..c.len], c.direction)
                && var (msg, last) :=
                     Build(old(lastRequest), old(pendingFrames), old(buf)[..c.len], c.direction, crcValid);
                   step == Recovered(msg) && Now() == State(old(buf)[c.len..], old(pendingFrames), last)
    {
      hide Build, Candidates, Framed, FirstValid, FirstPlausible, FirstGuess;
      TakeIsFramed(policy, buf, atEnd);
      if |buf| < 4 {
        return Waiting;
      }
      var candidates := Candidates(buf);
      var valid := FirstValid(candidates, buf);
      if valid.Some? {
        step := Consume(valid.value, true);
        return;
      }
      var awaited := FirstPlausible(candidates, buf);
      if !atEnd && awaited.Some? && awaited.value.len > |buf| {
        return Waiting;
      }
      var guess := FirstGuess(candidates, buf);
      if policy.Lenient? && guess.Some? {
        step := Consume(guess.value, false);
        return;
      }
      step := Nothing;
    }

    /** Consume a candidate's bytes off the head of the buffer. */
    method Consume(c: Candidate, crcValid: bool) returns (step: Outcome)
      requires c.len <= |buf| && Framed(buf[..c.len], c.direction)
      modifies this
      ensures var (msg, last) := Build(old(lastRequest), old(pendingFrames), old(buf)[..c.len], c.direction, crcValid);
              step == Recovered(msg) && Now() == State(old(buf)[c.len..], old(pendingFrames), last)
    {
      hide Build, Framed;
      var raw := buf[..c.len];
      buf := buf[c.len..];
      var msg := BuildMessage(raw, c.direction, crcValid);
      step := Recovered(msg);
    }

    /** Drain every message the buffer can yield. */
    method DrainMessages(atEnd: bool) returns (out: seq<Message>)
      modifies this
      ensures (Now(), out) == Drain(Configured(), old(Now()), atEnd)
    {
      hide Build, Candidates, Framed, Decide, Drain, Progress, SkipToAddress;
      ghost var config, first := Configured(), Now();
      out := [];
      ProgressStart(config, atEnd, first);
      var running := true;
      while running
        invariant running ==> Progress(config, atEnd, first, out, Now())
        invariant !running ==> Drain(config, first, atEnd) == (Now(), out)
        decreases running, |buf|
      {
        ghost var before, sofar := Now(), out;
        SkipAhead();
        var step := TakeMessage(atEnd);
        match step
        case Recovered(msg) =>
          RtuSafety.TakeRound(config, before, atEnd);
          pendingFrames := if buf == [] then 0 else 1;
          out := out + [msg];
          ProgressTake(config, atEnd, first, sofar, before, msg, Now());
        case Nothing =>
          if !atEnd {
            RtuSafety.DropRound(config, before);
            buf := buf[1..];
            ProgressSame(config, atEnd, first, out, before, Now());
          } else {
            RtuSafety.LastRound(config, before, atEnd);
            ProgressStop(config, atEnd, first, out, before, Now());
            running := false;
          }
        case Waiting =>
          RtuSafety.LastRound(config, before, atEnd);
          ProgressStop(config, atEnd, first, out, before, Now());
          running := false;
      }
    }

    /** Raw bytes from a serial line, which has no frames to count. */
    method FeedBytes(bytes: seq<Byte>) returns (out: seq<Message>)
      modifies this
      ensures (Now(), out) == PushBytes(Configured(), old(Now()), bytes)
    {
      hide Drain;
      if bytes == [] {
        return [];
      }
      buf := buf + bytes;
      out := DrainMessages(false);
      if |buf| > MAX_BUFFER {
        buf := buf[|buf| - MAX_BUFFER..];
      }
    }

    /** One frame's payload. */
    method Feed(bytes: seq<Byte>) returns (out: seq<Message>)
      modifies this
      ensures (Now(), out) == Push(Configured(), old(Now()), bytes)
    {
      hide PushBytes;
      if bytes == [] {
        return [];
      }
      pendingFrames := pendingFrames + 1;
      out := FeedBytes(bytes);
    }

    /** End of stream: what the buffer can still yield, and the bytes left over. */
    method End() returns (out: seq<Message>, residue: seq<Byte>)
      modifies this
      ensures (Now(), out, residue) == Finish(Configured(), old(Now()))
    {
      hide Drain;
      out := DrainMessages(true);
      pendingFrames := 0;
      residue := buf;
      buf := [];
    }

    /** One message somebody else already framed; the buffer is never touched. */
    method InterpretFramed(raw: seq<Byte>) returns (msg: Option<Message>)
      modifies this
      ensures (Now(), msg) == Interpret(Configured(), old(Now()), raw)
      ensures buf == old(buf) && pendingFrames == old(pendingFrames)
    {
      hide Build, Candidates, ModbusCrc.Valid, IsPlausible;
      if |raw| < 4 || !AddressMatches(deviceAddress, raw[0]) {
        return None;
      }
      ChosenIn(Candidates(raw), raw, |raw|);
      var chosen := FirstOfLength(Candidates(raw), |raw|);
      if chosen.None? {
        return None;
      }
      var crcValid := ModbusCrc.Valid(raw);
      if !crcValid && !IsPlausible(raw, chosen.value) {
        return None;
      }
      var built := BuildMessage(raw, chosen.value.direction, crcValid);
      msg := Some(built);
    }
  }
}
