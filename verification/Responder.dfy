/** The reply half of Test Pattern: feed it a frame, transmit what it hands back. */
module Responder {
  import opened Common
  import opened Numbers
  import opened Sequences
  import opened Dlc
  import opened TestPattern
  import opened SequenceTracking

  const CAPABILITY_FD := 1

  const STATUS_RX_COUNT: Octet := 0
  const STATUS_TX_COUNT: Octet := 1
  const STATUS_DROPS: Octet := 2
  const STATUS_FPS: Octet := 3

  /** A frame on the bus, received or to be transmitted. */
  datatype CanFrame = CanFrame(arbId: U32, extended: bool, fd: bool, data: seq<Octet>)

  datatype State = State(
    capabilities: Octet, bus: Octet, run: Option<Octet>, startedUs: nat, txCount: nat, sequence: Tally)
  {
    predicate Fd() { capabilities % 2 == CAPABILITY_FD }
  }

  /** Built in kind: the request's id width, and CAN FD where this end can. */
  function Build(st: State, m: Message, flags: Flags, extended: bool, fd: bool): CanFrame {
    var data := Encode(m, flags);
    CanFrame(
      if extended then ExtendedId(m.ArbId()) else m.ArbId(),
      extended,
      fd && st.Fd(),
      if fd && st.Fd() then Padded(data, DlcToLen(LenToDlc(|data|), true)) else data)
  }

  /** Frames received per second since the run began, or 0 where that cannot be computed. */
  function FramesPerSecond(rxCount: nat, startedUs: nat, nowUs: nat): nat {
    var elapsed := if nowUs > startedUs then nowUs - startedUs else 0;
    if rxCount * 1_000_000 >= 0x1_0000_0000_0000_0000 || elapsed == 0 then 0
    else rxCount * 1_000_000 / elapsed
  }

  /** A counter is 24 bits on the wire, and saturates. */
  function StatusOf(field: Octet, value: nat): Message {
    Status(field, if value < 0x00FF_FFFF then value else 0x00FF_FFFF)
  }

  function Report(st: State, nowUs: nat): seq<Message> {
    [StatusOf(STATUS_RX_COUNT, st.sequence.rxCount),
     StatusOf(STATUS_TX_COUNT, st.txCount),
     StatusOf(STATUS_DROPS, st.sequence.drops),
     StatusOf(STATUS_FPS, FramesPerSecond(st.sequence.rxCount, st.startedUs, nowUs))]
  }

  /** Build every message, counting each as transmitted. */
  function BuildAll(st: State, ms: seq<Message>, flags: Flags, extended: bool, fd: bool): (r: seq<CanFrame>)
    ensures |r| == |ms|
  {
    if ms == [] then [] else [Build(st, ms[0], flags, extended, fd)] + BuildAll(st, ms[1..], flags, extended, fd)
  }

  function Transmit(st: State, ms: seq<Message>, flags: Flags, extended: bool, fd: bool): (State, seq<CanFrame>) {
    (st.(txCount := st.txCount + |ms|), BuildAll(st, ms, flags, extended, fd))
  }

  function OnControl(st: State, c: Command, flags: Flags, extended: bool, fd: bool, nowUs: nat)
    : (State, seq<CanFrame>)
  {
    match c
    case Hello => Transmit(st, [Control(HelloReply(st.capabilities, st.bus))], flags, extended, fd)
    case Start(_, run) => (st.(run := Some(run), startedUs := nowUs, txCount := 0, sequence := EMPTY), [])
    case Stop => (st.(run := None), [])
    case RequestStatus => Transmit(st, Report(st, nowUs), flags, extended, fd)
    case _ => (st, [])
  }

  /** The messages the initiator numbers. */
  function Numbered(m: Message): Option<U16> {
    match m
    case PingRequest(n) => Some(n)
    case LatencyProbe(n, _) => Some(n)
    case Throughput(n, _) => Some(n)
    case _ => None
  }

  function Answer(m: Message): seq<Message> {
    match m
    case PingRequest(n) => [PingReply(n)]
    case LatencyProbe(n, tsUs) => [LatencyReply(n, tsUs)]
    case _ => []
  }

  function Echo(st: State, code: nat, f: CanFrame): (State, seq<CanFrame>)
    requires code < 16
  {
    (st.(txCount := st.txCount + 1, sequence := st.sequence.(rxCount := st.sequence.rxCount + 1)),
     [CanFrame(SWEEP_ECHO_BASE + code, f.extended, f.fd, f.data)])
  }

  /** A message of this responder's own run. */
  function OnOwn(st: State, m: Message, flags: Flags, extended: bool, fd: bool): (State, seq<CanFrame>) {
    var tracked := match Numbered(m)
      case Some(n) => st.(sequence := Track(st.sequence, n))
      case None => st;
    Transmit(tracked, Answer(m), flags, extended, fd)
  }

  function OnFrame(st: State, f: CanFrame, nowUs: nat): (State, seq<CanFrame>) {
    match SweepCode(f.arbId)
    case Some((code, isEcho)) => if isEcho || st.run.None? then (st, []) else Echo(st, code, f)
    case None =>
      match Decode(f.data)
      case None => (st, [])
      case Some((Control(c), flags)) => OnControl(st, c, flags, f.extended, f.fd, nowUs)
      case Some((m, flags)) =>
        if st.run != Some(flags.run) then (st, []) else OnOwn(st, m, flags, f.extended, f.fd)
  }

  class TestResponder {
    const capabilities: Octet
    const bus: Octet
    var run: Option<Octet>
    var startedUs: nat
    var txCount: nat
    var sequence: SequenceTracker

    ghost predicate Valid()
      reads this, sequence
    {
      sequence.Valid()
    }

    ghost function Now(): State
      reads this, sequence, sequence.seen
      requires Valid()
    {
      State(capabilities, bus, run, startedUs, txCount, sequence.Now())
    }

    /** The tracker is the one from before, or a new one. */
    twostate predicate SameTracker()
      reads this
    {
      sequence == old(sequence) || (fresh(sequence) && fresh(sequence.seen))
    }

    constructor (capabilities: Octet, bus: Octet)
      ensures Valid() && fresh(sequence) && fresh(sequence.seen)
      ensures Now() == State(capabilities, bus, None, 0, 0, EMPTY)
    {
      this.capabilities, this.bus := capabilities, bus;
      run, startedUs, txCount := None, 0, 0;
      sequence := new SequenceTracker();
    }

    method BuildFrame(m: Message, flags: Flags, extended: bool, fd: bool) returns (f: CanFrame)
      requires Valid()
      modifies this`txCount
      ensures Valid() && Now() == old(Now()).(txCount := old(txCount) + 1)
      ensures f == Build(old(Now()), m, flags, extended, fd)
    {
      hide Encode, Padded, LenToDlc, DlcToLen;
      txCount := txCount + 1;
      var data := Encode(m, flags);
      var asFd := fd && capabilities % 2 == CAPABILITY_FD;
      if asFd {
        data := Padded(data, DlcToLen(LenToDlc(|data|), true));
      }
      f := CanFrame(if extended then ExtendedId(m.ArbId()) else m.ArbId(), extended, asFd, data);
    }

    method BuildFrames(ms: seq<Message>, flags: Flags, extended: bool, fd: bool) returns (out: seq<CanFrame>)
      requires Valid()
      modifies this`txCount
      ensures Valid() && (Now(), out) == Transmit(old(Now()), ms, flags, extended, fd)
    {
      hide Build;
      out := [];
      ghost var first := Now();
      var i := 0;
      while i < |ms|
        invariant 0 <= i <= |ms| && Valid()
        invariant Now() == first.(txCount := first.txCount + i)
        invariant BuildAll(first, ms, flags, extended, fd) == out + BuildAll(first, ms[i..], flags, extended, fd)
      {
        assert ms[i..][1..] == ms[i + 1..];
        SameBuild(first, Now(), ms[i], flags, extended, fd);
        var f := BuildFrame(ms[i], flags, extended, fd);
        AppendAssociative(out, [f], BuildAll(first, ms[i + 1..], flags, extended, fd));
        out := out + [f];
        i := i + 1;
      }
      assert ms[i..] == [] && out + [] == out;
    }

    method HandleControl(c: Command, flags: Flags, extended: bool, fd: bool, nowUs: nat) returns (out: seq<CanFrame>)
      requires Valid()
      modifies this, sequence, sequence.seen
      ensures Valid() && SameTracker()
      ensures (Now(), out) == OnControl(old(Now()), c, flags, extended, fd, nowUs)
    {
      hide Transmit, StatusOf, FramesPerSecond, SeenIn;
      match c
      case Hello =>
        out := BuildFrames([Control(HelloReply(capabilities, bus))], flags, extended, fd);
      case Start(_, newRun) =>
        run := Some(newRun);
        startedUs := nowUs;
        txCount := 0;
        sequence := new SequenceTracker();
        out := [];
      case Stop =>
        run := None;
        out := [];
      case RequestStatus =>
        var fps := FramesPerSecond(sequence.rxCount, startedUs, nowUs);
        var report := [StatusOf(STATUS_RX_COUNT, sequence.rxCount), StatusOf(STATUS_TX_COUNT, txCount),
                       StatusOf(STATUS_DROPS, sequence.drops), StatusOf(STATUS_FPS, fps)];
        assert report == Report(Now(), nowUs);
        out := BuildFrames(report, flags, extended, fd);
      case _ =>
        out := [];
    }

    /** Handle one received frame. */
    method Handle(f: CanFrame, nowUs: nat) returns (out: seq<CanFrame>)
      requires Valid()
      modifies this, sequence, sequence.seen
      ensures Valid() && SameTracker()
      ensures (Now(), out) == OnFrame(old(Now()), f, nowUs)
    {
      hide Transmit, Track, OnControl, SeenIn, Decode;
      match SweepCode(f.arbId)
      case Some((code, isEcho)) =>
        if isEcho || run.None? {
          return [];
        }
        sequence.rxCount := sequence.rxCount + 1;
        txCount := txCount + 1;
        out := [CanFrame(SWEEP_ECHO_BASE + code, f.extended, f.fd, f.data)];
      case None =>
        var decoded := Decode(f.data);
        if decoded.None? {
          return [];
        }
        var (m, flags) := decoded.value;
        if m.Control? {
          out := HandleControl(m.command, flags, f.extended, f.fd, nowUs);
          return;
        }
        if run != Some(flags.run) {
          return [];
        }
        var n := Numbered(m);
        if n.Some? {
          sequence.Record(n.value);
        }
        out := BuildFrames(Answer(m), flags, f.extended, f.fd);
    }
  }

  /** What is built does not depend on the counters. */
  lemma SameBuild(a: State, b: State, m: Message, flags: Flags, extended: bool, fd: bool)
    requires a.capabilities == b.capabilities
    ensures Build(a, m, flags, extended, fd) == Build(b, m, flags, extended, fd)
  {
    hide Encode, Padded, LenToDlc, DlcToLen;
  }
}
