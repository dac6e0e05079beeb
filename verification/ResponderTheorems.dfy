/** What holds of responders over whole runs on a shared bus. */
module ResponderTheorems {
  import opened Common
  import opened Numbers
  import opened Dlc
  import opened TestPattern
  import opened SequenceTracking
  import opened Responder

  /** A frame as it arrives, and when. */
  datatype Arrival = Arrival(frame: CanFrame, nowUs: nat)

  function OnAll(st: State, arrivals: seq<Arrival>): (State, seq<CanFrame>)
    decreases |arrivals|
  {
    if arrivals == [] then (st, [])
    else
      var (next, out) := OnFrame(st, arrivals[0].frame, arrivals[0].nowUs);
      var (final, more) := OnAll(next, arrivals[1..]);
      (final, out + more)
  }

  // ---------- loop-freedom ----------

  /** A message no responder answers or counts. */
  predicate Quiet(m: Message) {
    match m
    case PingReply(_) => true
    case LatencyReply(_, _) => true
    case Status(_, _) => true
    case Control(HelloReply(_, _)) => true
    case _ => false
  }

  lemma QuietCarried(m: Message)
    requires Quiet(m)
    ensures Quiet(Carried(m))
  {
    match m
    case Control(c) => CommandRoundTrip(c);
    case _ =>
  }

  lemma QuietIgnored(st: State, f: CanFrame, m: Message, flags: Flags, nowUs: nat)
    requires SweepCode(f.arbId) == None && Decode(f.data) == Some((m, flags)) && Quiet(m)
    ensures OnFrame(st, f, nowUs) == (st, [])
  {
    hide Decode, SweepCode;
    assert Answer(m) == [] || m.Control?;
    assert st.(txCount := st.txCount + 0) == st;
  }

  lemma BuiltData(st: State, m: Message, flags: Flags, extended: bool, fd: bool)
    ensures exists padding :: Build(st, m, flags, extended, fd).data == Encode(m, flags) + padding
    ensures SweepCode(Build(st, m, flags, extended, fd).arbId) == None
  {
    hide Encode;
    var data := Encode(m, flags);
    assert LenToDlc(8) == 8 && DlcToLen(8, true) == 8;
    assert Padded(data, 8) == data + [] && data == data + [];
  }

  lemma BuiltQuietIgnored(st: State, m: Message, flags: Flags, extended: bool, fd: bool, other: State, nowUs: nat)
    requires Quiet(m)
    ensures OnFrame(other, Build(st, m, flags, extended, fd), nowUs) == (other, [])
  {
    hide Build, Encode, Decode, SweepCode, OnFrame, Carried, CarriedFlags, Quiet;
    BuiltData(st, m, flags, extended, fd);
    var f := Build(st, m, flags, extended, fd);
    var padding :| f.data == Encode(m, flags) + padding;
    FramedRoundTrip(m, flags, padding);
    QuietCarried(m);
    QuietIgnored(other, f, Carried(m), CarriedFlags(flags), nowUs);
  }

  predicate AllQuiet(ms: seq<Message>) { forall i :: 0 <= i < |ms| ==> Quiet(ms[i]) }

  lemma {:induction false} AllBuiltIgnored(st: State, ms: seq<Message>, flags: Flags, extended: bool, fd: bool,
                                           reply: CanFrame, other: State, nowUs: nat)
    requires AllQuiet(ms) && reply in BuildAll(st, ms, flags, extended, fd)
    ensures OnFrame(other, reply, nowUs) == (other, [])
    decreases |ms|
  {
    hide Build, OnFrame, Quiet;
    if reply == Build(st, ms[0], flags, extended, fd) {
      BuiltQuietIgnored(st, ms[0], flags, extended, fd, other, nowUs);
    } else {
      AllBuiltIgnored(st, ms[1..], flags, extended, fd, reply, other, nowUs);
    }
  }

  /** What a frame makes a responder build, if it builds anything. */
  lemma OnlyQuietBuilt(st: State, f: CanFrame, nowUs: nat)
    ensures SweepCode(f.arbId) == None ==>
              exists from: State, ms, flags, extended, fd ::
                AllQuiet(ms) && OnFrame(st, f, nowUs).1 == BuildAll(from, ms, flags, extended, fd)
  {
    hide Decode, SweepCode, Track, FramesPerSecond;
    if SweepCode(f.arbId) == None {
      var flags := Flags(false, 0, 0);
      assert AllQuiet([]) && BuildAll(st, [], flags, false, false) == [];
      match Decode(f.data)
      case None =>
      case Some((Control(c), flags)) =>
        assert AllQuiet([Control(HelloReply(st.capabilities, st.bus))]);
        assert AllQuiet(Report(st, nowUs));
      case Some((m, flags)) =>
        assert AllQuiet(Answer(m));
    }
  }

  lemma EchoIgnored(st: State, code: nat, f: CanFrame, other: State, nowUs: nat)
    requires code < 16
    ensures OnFrame(other, Echo(st, code, f).1[0], nowUs) == (other, [])
  {
    hide Decode;
  }

  /**
   Whatever any responder sends, no responder in any state answers it or changes because of
   it: on a bus of responders alone nothing goes round.
   */
  lemma RepliesAreIgnored(st: State, f: CanFrame, sentUs: nat, reply: CanFrame, other: State, nowUs: nat)
    requires reply in OnFrame(st, f, sentUs).1
    ensures OnFrame(other, reply, nowUs) == (other, [])
  {
    match SweepCode(f.arbId)
    case Some((code, isEcho)) =>
      EchoIgnored(st, code, f, other, nowUs);
    case None =>
      OnlyQuietBuilt(st, f, sentUs);
      hide OnFrame, AllQuiet, SweepCode;
      var from: State, ms, flags, extended, fd :|
        AllQuiet(ms) && OnFrame(st, f, sentUs).1 == BuildAll(from, ms, flags, extended, fd);
      AllBuiltIgnored(from, ms, flags, extended, fd, reply, other, nowUs);
  }

  // ---------- isolation ----------

  /** A framed message of another run than `run`, other than control. */
  predicate Foreign(run: Octet, f: CanFrame) {
    SweepCode(f.arbId) == None &&
    match Decode(f.data)
    case None => false
    case Some((m, flags)) => !m.Control? && flags.run != run
  }

  /** Any run this frame would start is `run`. */
  predicate StartsOnly(run: Octet, f: CanFrame) {
    SweepCode(f.arbId) == None ==>
      match Decode(f.data)
      case Some((Control(Start(_, started)), _)) => started == run
      case _ => true
  }

  predicate RunsOnly(run: Octet, st: State) { st.run == None || st.run == Some(run) }

  function Purged(run: Octet, arrivals: seq<Arrival>): seq<Arrival> {
    if arrivals == [] then []
    else if Foreign(run, arrivals[0].frame) then Purged(run, arrivals[1..])
    else [arrivals[0]] + Purged(run, arrivals[1..])
  }

  lemma ForeignIgnored(run: Octet, st: State, f: CanFrame, nowUs: nat)
    requires RunsOnly(run, st) && Foreign(run, f)
    ensures OnFrame(st, f, nowUs) == (st, [])
  {
    hide Decode, SweepCode, OnOwn, OnControl;
  }

  lemma StaysOnRun(run: Octet, st: State, f: CanFrame, nowUs: nat)
    requires RunsOnly(run, st) && StartsOnly(run, f)
    ensures RunsOnly(run, OnFrame(st, f, nowUs).0)
  {
    hide Decode, SweepCode, Track, FramesPerSecond;
  }

  /** Where only one run is ever started, the run tag alone tells what can be removed. */
  lemma {:induction false} OneRunIsIsolated(run: Octet, st: State, arrivals: seq<Arrival>)
    requires RunsOnly(run, st)
    requires forall i :: 0 <= i < |arrivals| ==> StartsOnly(run, arrivals[i].frame)
    ensures OnAll(st, arrivals) == OnAll(st, Purged(run, arrivals))
    decreases |arrivals|
  {
    hide OnFrame, Foreign, StartsOnly, RunsOnly;
    if arrivals != [] {
      var f, nowUs := arrivals[0].frame, arrivals[0].nowUs;
      assert StartsOnly(run, arrivals[0].frame);
      StaysOnRun(run, st, f, nowUs);
      var next := OnFrame(st, f, nowUs).0;
      OneRunIsIsolated(run, next, arrivals[1..]);
      if Foreign(run, f) {
        ForeignIgnored(run, st, f, nowUs);
        assert [] + OnAll(st, arrivals[1..]).1 == OnAll(st, arrivals[1..]).1;
      } else {
        PurgedKeeps(run, arrivals);
      }
    }
  }

  lemma PurgedKeeps(run: Octet, arrivals: seq<Arrival>)
    requires arrivals != [] && !Foreign(run, arrivals[0].frame)
    ensures Purged(run, arrivals) != [] && Purged(run, arrivals)[0] == arrivals[0]
    ensures Purged(run, arrivals)[1..] == Purged(run, arrivals[1..])
  {
    hide Foreign;
  }

  /** A framed message other than control, and not of the run the responder is on. */
  predicate ForeignTo(st: State, f: CanFrame) {
    SweepCode(f.arbId) == None &&
    match Decode(f.data)
    case None => false
    case Some((m, flags)) => !m.Control? && st.run != Some(flags.run)
  }

  /** The traffic without what is foreign to the run the responder is on when it arrives. */
  function PurgedOnTheWay(st: State, arrivals: seq<Arrival>): seq<Arrival>
    decreases |arrivals|
  {
    if arrivals == [] then []
    else if ForeignTo(st, arrivals[0].frame) then PurgedOnTheWay(st, arrivals[1..])
    else
      [arrivals[0]] + PurgedOnTheWay(OnFrame(st, arrivals[0].frame, arrivals[0].nowUs).0, arrivals[1..])
  }

  /**
   However many other runs share the bus, and whichever runs are started and stopped on the way, a
   responder's replies and counters are those it would have had without the others' framed traffic.
   */
  lemma {:induction false} RunsAreIsolated(st: State, arrivals: seq<Arrival>)
    ensures OnAll(st, arrivals) == OnAll(st, PurgedOnTheWay(st, arrivals))
    decreases |arrivals|
  {
    hide OnFrame, ForeignTo;
    if arrivals != [] {
      var f, nowUs := arrivals[0].frame, arrivals[0].nowUs;
      if ForeignTo(st, f) {
        ForeignToIgnored(st, f, nowUs);
        RunsAreIsolated(st, arrivals[1..]);
        assert [] + OnAll(st, arrivals[1..]).1 == OnAll(st, arrivals[1..]).1;
      } else {
        var next := OnFrame(st, f, nowUs).0;
        RunsAreIsolated(next, arrivals[1..]);
        var rest := PurgedOnTheWay(next, arrivals[1..]);
        assert ([arrivals[0]] + rest)[1..] == rest;
      }
    }
  }

  lemma ForeignToIgnored(st: State, f: CanFrame, nowUs: nat)
    requires ForeignTo(st, f)
    ensures OnFrame(st, f, nowUs) == (st, [])
  {
    hide Decode, SweepCode, OnOwn, OnControl;
  }

  /** A control command that a responder acts on, whoever it is from: a start, unless of a run that just started. */
  predicate ActsOn(st: State, c: Command, nowUs: nat) {
    match c
    case Hello => true
    case RequestStatus => true
    case Stop => st.run.Some?
    case Start(_, run) => !(st.run == Some(run) && st.startedUs == nowUs && st.txCount == 0 && st.sequence == EMPTY)
    case _ => false
  }

  /**
   A framed message of another run is dropped exactly when it is not a control command the
   responder acts on: the run tag guards everything but control.
   */
  lemma ForeignDroppedIff(st: State, f: CanFrame, m: Message, flags: Flags, nowUs: nat)
    requires SweepCode(f.arbId) == None && Decode(f.data) == Some((m, flags)) && st.run != Some(flags.run)
    ensures OnFrame(st, f, nowUs) == (st, []) <==> !(m.Control? && ActsOn(st, m.command, nowUs))
  {
    hide Decode, SweepCode, Build, FramesPerSecond;
  }

  /** So one initiator's stop ends another's run. */
  lemma ForeignStopEndsTheRun(st: State, run: Octet, tag: Octet, nowUs: nat)
    requires st.run == Some(run) && run < 16 && tag < 16 && tag != run
    ensures var stop := CanFrame(ID_CONTROL, false, false, Encode(Control(Stop), Flags(false, 0, tag)));
            OnFrame(st, stop, nowUs) == (st.(run := None), [])
  {
    FramedRoundTrip(Control(Stop), Flags(false, 0, tag), []);
    CommandRoundTrip(Stop);
    hide Encode, Decode, CarriedFlags, ParseCommand;
    assert Encode(Control(Stop), Flags(false, 0, tag)) + [] == Encode(Control(Stop), Flags(false, 0, tag));
  }

  // ---------- what the transmit counter counts ----------

  predicate IsStart(f: CanFrame) {
    SweepCode(f.arbId) == None &&
    match Decode(f.data)
    case Some((Control(Start(_, _)), _)) => true
    case _ => false
  }

  /** The replies since the last start, or since the beginning on top of what was counted before. */
  function SinceStart(st: State, arrivals: seq<Arrival>, counted: nat): nat
    decreases |arrivals|
  {
    if arrivals == [] then counted
    else
      var (next, out) := OnFrame(st, arrivals[0].frame, arrivals[0].nowUs);
      SinceStart(next, arrivals[1..], if IsStart(arrivals[0].frame) then 0 else counted + |out|)
  }

  lemma CountsOne(st: State, f: CanFrame, nowUs: nat)
    ensures var (next, out) := OnFrame(st, f, nowUs);
            && next.txCount == (if IsStart(f) then 0 else st.txCount + |out|)
            && (IsStart(f) ==> out == [])
  {
    hide Decode, SweepCode, OnControl, OnOwn;
    match SweepCode(f.arbId)
    case Some(_) =>
    case None =>
      match Decode(f.data)
      case None =>
      case Some((Control(c), flags)) => ControlCounts(st, c, flags, f.extended, f.fd, nowUs);
      case Some((m, flags)) => OwnCounts(st, m, flags, f.extended, f.fd);
  }

  lemma ControlCounts(st: State, c: Command, flags: Flags, extended: bool, fd: bool, nowUs: nat)
    ensures var (next, out) := OnControl(st, c, flags, extended, fd, nowUs);
            && next.txCount == (if c.Start? then 0 else st.txCount + |out|)
            && (c.Start? ==> out == [])
  {
    hide Build, FramesPerSecond;
  }

  lemma OwnCounts(st: State, m: Message, flags: Flags, extended: bool, fd: bool)
    ensures var (next, out) := OnOwn(st, m, flags, extended, fd);
            next.txCount == st.txCount + |out|
  {
    hide Track, Build;
  }

  /** `txCount` is always the number of frames handed back since the last start. */
  lemma {:induction false} CountsReplies(st: State, arrivals: seq<Arrival>)
    ensures OnAll(st, arrivals).0.txCount == SinceStart(st, arrivals, st.txCount)
    decreases |arrivals|
  {
    hide OnFrame, IsStart;
    if arrivals != [] {
      CountsOne(st, arrivals[0].frame, arrivals[0].nowUs);
      CountsReplies(OnFrame(st, arrivals[0].frame, arrivals[0].nowUs).0, arrivals[1..]);
    }
  }

  // ---------- an undisturbed link ----------

  /** A sweep request that arrives whole comes back under its own code, and matches that code alone. */
  lemma SweepRoundTrip(st: State, code: nat, isFd: bool, extended: bool, data: seq<Octet>, nowUs: nat)
    requires code < 16 && st.run.Some? && data == SweepPayload(code, isFd)
    ensures var out := OnFrame(st, CanFrame(SWEEP_REQUEST_BASE + code, extended, isFd, data), nowUs).1;
            && |out| == 1 && SweepCode(out[0].arbId) == Some((code, true))
            && forall c: nat :: c < 16 ==> (out[0].data == SweepPayload(c, isFd) <==> c == code)
  {
    hide SweepPayload, Decode;
    var out := OnFrame(st, CanFrame(SWEEP_REQUEST_BASE + code, extended, isFd, data), nowUs).1;
    assert out[0].data == data;
    forall c: nat | c < 16 ensures out[0].data == SweepPayload(c, isFd) <==> c == code {
      if out[0].data == SweepPayload(c, isFd) {
        EchoNamesItsCode(code, c, isFd);
      }
    }
  }

  /** A ping of the responder's own run is counted and answered with its own number and tag. */
  lemma PingRoundTrip(st: State, n: U16, flags: Flags, extended: bool, nowUs: nat)
    requires flags.run < 16 && st.run == Some(flags.run)
    ensures var id := if extended then ExtendedId(ID_PING_REQUEST) else ID_PING_REQUEST;
            var (next, out) := OnFrame(st, CanFrame(id, extended, false, Encode(PingRequest(n), flags)), nowUs);
            && |out| == 1 && out[0].extended == extended
            && out[0].arbId == (if extended then ExtendedId(ID_PING_REPLY) else ID_PING_REPLY)
            && Decode(out[0].data) == Some((PingReply(n), CarriedFlags(flags)))
            && next.sequence == Track(st.sequence, n)
  {
    FramedRoundTrip(PingRequest(n), flags, []);
    FramedRoundTrip(PingReply(n), CarriedFlags(flags), []);
    hide Encode, Decode, Track;
    assert Encode(PingRequest(n), flags) + [] == Encode(PingRequest(n), flags);
    assert Encode(PingReply(n), CarriedFlags(flags)) + [] == Encode(PingReply(n), CarriedFlags(flags));
    assert CarriedFlags(CarriedFlags(flags)) == CarriedFlags(flags);
  }

  // ---------- an idle responder ----------

  /** A control frame with one of the two commands that are answered without a run. */
  predicate AsksAnyone(f: CanFrame) {
    SweepCode(f.arbId) == None &&
    match Decode(f.data)
    case Some((Control(c), _)) => c.Hello? || c.RequestStatus?
    case _ => false
  }

  /** An idle responder answers a hello and a status request, and nothing else. */
  lemma IdleAnswersIff(st: State, f: CanFrame, nowUs: nat)
    requires st.run == None
    ensures OnFrame(st, f, nowUs).1 != [] <==> AsksAnyone(f)
  {
    hide Decode, SweepCode, Build, FramesPerSecond;
  }

  /** A status request, to a responder that is on no run. */
  lemma IdleAnswersStatus(st: State, flags: Flags, nowUs: nat)
    requires st.run == None
    ensures |OnFrame(st, CanFrame(ID_CONTROL, false, false, Encode(Control(RequestStatus), flags)), nowUs).1| == 4
  {
    FramedRoundTrip(Control(RequestStatus), flags, []);
    CommandRoundTrip(RequestStatus);
    hide Encode, Decode, CarriedFlags, ParseCommand, Build, FramesPerSecond;
    assert Encode(Control(RequestStatus), flags) + [] == Encode(Control(RequestStatus), flags);
  }

  // ---------- what the tally of a responder counts ----------

  /** What a responder was sent on its run: the numbers of its framed messages, and how many sweeps. */
  datatype History = History(numbers: seq<U16>, sweeps: nat)

  const NOTHING := History([], 0)

  /** What one more frame adds; a start makes a new history. */
  function Extended(st: State, h: History, f: CanFrame): History {
    match SweepCode(f.arbId)
    case Some((_, isEcho)) => if isEcho || st.run.None? then h else h.(sweeps := h.sweeps + 1)
    case None =>
      match Decode(f.data)
      case None => h
      case Some((Control(c), _)) => if c.Start? then NOTHING else h
      case Some((m, flags)) =>
        if st.run == Some(flags.run) && Numbered(m).Some? then h.(numbers := h.numbers + [Numbered(m).value])
        else h
  }

  function HistoryOf(st: State, h: History, arrivals: seq<Arrival>): History
    decreases |arrivals|
  {
    if arrivals == [] then h
    else
      HistoryOf(
        OnFrame(st, arrivals[0].frame, arrivals[0].nowUs).0, Extended(st, h, arrivals[0].frame), arrivals[1..])
  }

  /** Sweeps are received but have no number; but for them the books balance. */
  ghost predicate Tallied(t: Tally, h: History) {
    t.rxCount == |h.numbers| + h.sweeps && Balanced(t.(rxCount := |h.numbers|), h.numbers)
  }

  lemma TrackedTallied(t: Tally, h: History, n: U16)
    requires Tallied(t, h)
    ensures Tallied(Track(t, n), h.(numbers := h.numbers + [n]))
  {
    hide Balanced;
    TrackBalanced(t.(rxCount := |h.numbers|), h.numbers, n);
    assert Track(t, n).(rxCount := |h.numbers| + 1) == Track(t.(rxCount := |h.numbers|), n);
  }

  lemma EmptyTallied()
    ensures Tallied(EMPTY, NOTHING)
  {
    Conservation([]);
    hide Balanced;
  }

  lemma FrameTallied(st: State, h: History, f: CanFrame, nowUs: nat)
    requires Tallied(st.sequence, h)
    ensures Tallied(OnFrame(st, f, nowUs).0.sequence, Extended(st, h, f))
  {
    hide Decode, SweepCode, Build, FramesPerSecond, Track, Balanced;
    EmptyTallied();
    match SweepCode(f.arbId)
    case Some(_) =>
    case None =>
      match Decode(f.data)
      case None =>
      case Some((m, flags)) =>
        if Numbered(m).Some? {
          TrackedTallied(st.sequence, h, Numbered(m).value);
        }
  }

  /**
   Whatever arrives at a responder, its tally balances over what it was sent on the current run: it counts
   numbered messages and sweeps as received, and the rest follows from the numbers.
   */
  lemma {:induction false} ResponderBalances(st: State, h: History, arrivals: seq<Arrival>)
    requires Tallied(st.sequence, h)
    ensures Tallied(OnAll(st, arrivals).0.sequence, HistoryOf(st, h, arrivals))
    decreases |arrivals|
  {
    hide OnFrame, Extended, Tallied;
    if arrivals != [] {
      FrameTallied(st, h, arrivals[0].frame, arrivals[0].nowUs);
      ResponderBalances(
        OnFrame(st, arrivals[0].frame, arrivals[0].nowUs).0, Extended(st, h, arrivals[0].frame), arrivals[1..]);
    }
  }
}
