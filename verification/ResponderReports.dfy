/** What a responder's replies say, read back from their bytes. */
module ResponderReports {
  import opened Common
  import opened Numbers
  import opened Dlc
  import opened Hamming
  import opened TestPattern
  import opened SequenceTracking
  import opened Responder
  import opened ResponderTheorems

  // ---------- the bytes of a framed message ----------

  /** The flags byte: how bytes are laid out, one of eight interfaces, one of sixteen runs. */
  lemma FlagsByte(bytesMode: bool, iface: Octet, run: Octet)
    requires iface < 8 && run < 16
    ensures EncodeFlags(Flags(bytesMode, iface, run)) == (if bytesMode then 1 else 0) + 2 * iface + 16 * run
    ensures DecodeFlags((if bytesMode then 1 else 0) + 2 * iface + 16 * run) == Flags(bytesMode, iface, run)
  {
    ThreeParts(if bytesMode then 1 else 0, iface, run);
  }

  /** What each kind of framed message is on the wire, with numbers most significant byte first. */
  lemma ReadAs(flags: Octet, a: Octet, b: Octet, c: Octet, d: Octet, e: Octet, f: Octet)
    ensures var n := 256 * a + b;
            var number := 16777216 * c + 65536 * d + 256 * e + f;
            && n < 65536 && number < 4294967296
            && Decode([1, flags, a, b, c, d, e, f]) == Some((PingRequest(n), DecodeFlags(flags)))
            && Decode([2, flags, a, b, c, d, e, f]) == Some((PingReply(n), DecodeFlags(flags)))
            && Decode([3, flags, a, b, c, d, e, f]) == Some((Throughput(n, c), DecodeFlags(flags)))
            && Decode([4, flags, a, b, c, d, e, f]) == Some((LatencyProbe(n, number), DecodeFlags(flags)))
            && Decode([5, flags, a, b, c, d, e, f]) == Some((LatencyReply(n, number), DecodeFlags(flags)))
            && Decode([7, flags, a, b, c, d, e, f]) ==
               Some((Status(c, 65536 * d + 256 * e + f), DecodeFlags(flags)))
  {
    hide DecodeFlags, Byte0, Byte1, Byte2, Byte3, ParseCommand;
  }

  /** And how each is put there. */
  lemma WrittenAs(f: Flags, a: Octet, b: Octet, c: Octet, d: Octet, e: Octet, g: Octet)
    ensures var n: U16 := 256 * a + b;
            var number: U32 := 16777216 * c + 65536 * d + 256 * e + g;
            var three: U32 := 65536 * d + 256 * e + g;
            && Encode(PingRequest(n), f) == [1, EncodeFlags(f), a, b, 0, 0, 0, 0]
            && Encode(PingReply(n), f) == [2, EncodeFlags(f), a, b, 0, 0, 0, 0]
            && Encode(Throughput(n, c), f) == [3, EncodeFlags(f), a, b, c, 0, 0, 0]
            && Encode(LatencyProbe(n, number), f) == [4, EncodeFlags(f), a, b, c, d, e, g]
            && Encode(LatencyReply(n, number), f) == [5, EncodeFlags(f), a, b, c, d, e, g]
            && Encode(Status(c, three), f) == [7, EncodeFlags(f), 0, 0, c, d, e, g]
  {
    hide EncodeFlags, CommandBody, Byte0, Byte1, Byte2, Byte3;
    NumberBytes(c, d, e, g);
    NumberBytes(0, d, e, g);
    TwoBytes(a, b);
  }

  lemma TwoBytes(a: Octet, b: Octet)
    ensures var n: U16 := 256 * a + b; n / 256 == a && n % 256 == b
  {
  }

  lemma NumberBytes(c: Octet, d: Octet, e: Octet, g: Octet)
    ensures var w: U32 := 16777216 * c + 65536 * d + 256 * e + g;
            Byte3(w) == c && Byte2(w) == d && Byte1(w) == e && Byte0(w) == g
  {
    var w: U32 := 16777216 * c + 65536 * d + 256 * e + g;
    assert w / 256 == 65536 * c + 256 * d + e;
    assert w / 256 / 256 == 256 * c + d;
  }

  /** How each control command is put there. */
  lemma CommandWrittenAs(f: Flags, a: Octet, b: Octet, c: Octet, d: Octet)
    ensures Encode(Control(Start(a, b)), f) == [6, EncodeFlags(f), 0, 0, 0x01, a, b % 16, 0]
    ensures Encode(Control(Stop), f) == [6, EncodeFlags(f), 0, 0, 0x02, 0, 0, 0]
    ensures Encode(Control(SetRate(256 * a + b)), f) == [6, EncodeFlags(f), 0, 0, 0x03, a, b, 0]
    ensures Encode(Control(RequestStatus), f) == [6, EncodeFlags(f), 0, 0, 0x04, 0, 0, 0]
    ensures Encode(Control(Hello), f) == [6, EncodeFlags(f), 0, 0, 0x05, 0, 0, 0]
    ensures Encode(Control(HelloReply(a, b)), f) == [6, EncodeFlags(f), 0, 0, 0x85, a, b, 0]
    ensures Encode(Control(Unknown(a, b, c, d)), f) == [6, EncodeFlags(f), 0, 0, a, b, c, d]
  {
    hide EncodeFlags;
    TwoBytes(a, b);
  }

  /** And how one is read; what no command is named for comes through as it is. */
  lemma CommandReadAs(flags: Octet, a: Octet, b: Octet, c: Octet, d: Octet, e: Octet, f: Octet)
    ensures Decode([6, flags, a, b, 0x01, d, e, f]) == Some((Control(Start(d, e % 16)), DecodeFlags(flags)))
    ensures Decode([6, flags, a, b, 0x02, d, e, f]) == Some((Control(Stop), DecodeFlags(flags)))
    ensures Decode([6, flags, a, b, 0x03, d, e, f]) == Some((Control(SetRate(256 * d + e)), DecodeFlags(flags)))
    ensures Decode([6, flags, a, b, 0x04, d, e, f]) == Some((Control(RequestStatus), DecodeFlags(flags)))
    ensures Decode([6, flags, a, b, 0x05, d, e, f]) == Some((Control(Hello), DecodeFlags(flags)))
    ensures Decode([6, flags, a, b, 0x85, d, e, f]) == Some((Control(HelloReply(d, e)), DecodeFlags(flags)))
    ensures c !in {0x01, 0x02, 0x03, 0x04, 0x05, 0x85} ==>
              Decode([6, flags, a, b, c, d, e, f]) == Some((Control(Unknown(c, d, e, f)), DecodeFlags(flags)))
  {
    hide DecodeFlags, Byte0, Byte1, Byte2, Byte3;
  }

  /** Sweeps have sixteen ids for requests and sixteen for echoes, one of each for a length code. */
  lemma SweepIds(id: U32, code: nat)
    ensures SweepCode(id) == Some((code, false)) <==> code < 16 && id == 0x7E0 + code
    ensures SweepCode(id) == Some((code, true)) <==> code < 16 && id == 0x7C0 + code
  {
  }

  /** Every kind of framed message has an id of its own, and a 29-bit one for links that use those. */
  lemma IdsAre(m: Message)
    ensures m.PingRequest? ==> m.ArbId() == 0x7F0
    ensures m.PingReply? ==> m.ArbId() == 0x7F1
    ensures m.Throughput? ==> m.ArbId() == 0x7F2
    ensures m.LatencyProbe? ==> m.ArbId() == 0x7F4
    ensures m.LatencyReply? ==> m.ArbId() == 0x7F5
    ensures m.Control? ==> m.ArbId() == 0x7F6
    ensures m.Status? ==> m.ArbId() == 0x7F7
    ensures ExtendedId(m.ArbId()) == 0x1F00_0000 + m.ArbId()
  {
  }

  /** A sweep payload is as long as its code says, and goes by the low four bits of the code. */
  lemma SweepPayloadIs(code: nat, isFd: bool)
    ensures SweepPayload(code, isFd) == SweepPayload(code % 16, isFd)
    ensures forall i :: 0 <= i < |SweepPayload(code, isFd)| ==>
              SweepPayload(code, isFd)[i] == Xor(31 * i % 256, 85 * (code % 16) % 256)
  {
    hide Xor, DlcToLen;
    LowFourBits(code, isFd);
  }

  lemma LowFourBits(code: nat, isFd: bool)
    ensures code % 16 % 16 == code % 16 && DlcToLen(code, isFd) == DlcToLen(code % 16, isFd)
  {
  }

  // ---------- replies ----------

  lemma ReplyDecodes(st: State, m: Message, flags: Flags, extended: bool, fd: bool)
    ensures Decode(Build(st, m, flags, extended, fd).data) == Some((Carried(m), CarriedFlags(flags)))
  {
    hide Build, Encode, Decode, Carried, CarriedFlags;
    BuiltData(st, m, flags, extended, fd);
    var data := Build(st, m, flags, extended, fd).data;
    var padding :| data == Encode(m, flags) + padding;
    FramedRoundTrip(m, flags, padding);
  }

  lemma DecodedFlags(data: seq<Octet>, m: Message, flags: Flags)
    requires Decode(data) == Some((m, flags))
    ensures CarriedFlags(flags) == flags
  {
  }

  /** Replies come in kind: with the request's id width, and as CAN FD to CAN FD where this end can. */
  predicate InKind(st: State, f: CanFrame, id: U32, reply: CanFrame)
    requires id < 0x800
  {
    && reply.extended == f.extended
    && reply.arbId == (if f.extended then 0x1F00_0000 + id else id)
    && reply.fd == (f.fd && st.capabilities % 2 == 1)
  }

  /** A latency probe of the responder's own run is tracked, and answered with its own number and timestamp. */
  lemma LatencyRoundTrip(st: State, f: CanFrame, n: U16, tsUs: U32, flags: Flags, nowUs: nat)
    requires SweepCode(f.arbId) == None && Decode(f.data) == Some((LatencyProbe(n, tsUs), flags))
    requires st.run == Some(flags.run)
    ensures var (next, out) := OnFrame(st, f, nowUs);
            && |out| == 1 && InKind(st, f, 0x7F5, out[0])
            && Decode(out[0].data) == Some((LatencyReply(n, tsUs), flags))
            && next.sequence == Track(st.sequence, n)
  {
    DecodedFlags(f.data, LatencyProbe(n, tsUs), flags);
    hide Encode, Decode, Track, SweepCode, Padded, DlcToLen, LenToDlc, CarriedFlags;
    var tracked := st.(sequence := Track(st.sequence, n));
    ReplyDecodes(tracked, LatencyReply(n, tsUs), flags, f.extended, f.fd);
  }

  /** A throughput message of the responder's own run is tracked under its number, and not answered. */
  lemma ThroughputTracked(st: State, f: CanFrame, n: U16, pattern: Octet, flags: Flags, nowUs: nat)
    requires SweepCode(f.arbId) == None && Decode(f.data) == Some((Throughput(n, pattern), flags))
    requires st.run == Some(flags.run)
    ensures OnFrame(st, f, nowUs) == (st.(sequence := Track(st.sequence, n)), [])
  {
    hide Decode, SweepCode, Track;
  }

  /** A start names the run and begins its counts anew, a stop leaves the counts and ends the run. */
  lemma StartAndStop(st: State, f: CanFrame, mode: Octet, run: Octet, flags: Flags, nowUs: nat)
    requires SweepCode(f.arbId) == None
    ensures Decode(f.data) == Some((Control(Start(mode, run)), flags)) ==>
              OnFrame(st, f, nowUs) ==
              (State(st.capabilities, st.bus, Some(run), nowUs, 0, Tally(None, {}, 0, 0, 0, 0, [])), [])
    ensures Decode(f.data) == Some((Control(Stop), flags)) ==> OnFrame(st, f, nowUs) == (st.(run := None), [])
  {
    hide Decode, SweepCode;
  }

  /** A sweep request during a run is echoed as it came, and counted but not tracked. */
  lemma SweepEchoed(st: State, f: CanFrame, code: nat, nowUs: nat)
    requires code < 16 && f.arbId == 0x7E0 + code && st.run.Some?
    ensures var (next, out) := OnFrame(st, f, nowUs);
            && out == [CanFrame(0x7C0 + code, f.extended, f.fd, f.data)]
            && next == st.(txCount := st.txCount + 1,
                           sequence := st.sequence.(rxCount := st.sequence.rxCount + 1))
  {
    hide Decode;
  }

  /** A hello is answered with what the responder can do and where it is, run or no run. */
  lemma HelloRoundTrip(st: State, f: CanFrame, flags: Flags, nowUs: nat)
    requires SweepCode(f.arbId) == None && Decode(f.data) == Some((Control(Hello), flags))
    ensures var (next, out) := OnFrame(st, f, nowUs);
            && |out| == 1 && InKind(st, f, 0x7F6, out[0])
            && Decode(out[0].data) == Some((Control(HelloReply(st.capabilities, st.bus)), flags))
            && next == st.(txCount := st.txCount + 1)
  {
    DecodedFlags(f.data, Control(Hello), flags);
    CommandRoundTrip(HelloReply(st.capabilities, st.bus));
    hide Encode, Decode, SweepCode, Padded, DlcToLen, LenToDlc, CarriedFlags, ParseCommand, CommandBody;
    ReplyDecodes(st, Control(HelloReply(st.capabilities, st.bus)), flags, f.extended, f.fd);
  }

  // ---------- the status report ----------

  function Saturated(n: nat): U32 { if n < 16777215 then n else 16777215 }

  /**
   The rate is the frames received per second, rounded down, of the time since the run began; and 0 if no
   time has passed or the product does not fit sixty-four bits.
   */
  lemma RateIs(rxCount: nat, startedUs: nat, nowUs: nat)
    ensures var fps, elapsed := FramesPerSecond(rxCount, startedUs, nowUs), nowUs - startedUs;
            if elapsed <= 0 || 1000000 * rxCount >= 18446744073709551616 then fps == 0
            else fps * elapsed <= 1000000 * rxCount < fps * elapsed + elapsed
  {
  }

  predicate Reports(st: State, f: CanFrame, flags: Flags, reply: CanFrame, field: Octet, value: nat) {
    InKind(st, f, 0x7F7, reply) && Decode(reply.data) == Some((Status(field, Saturated(value)), flags))
  }

  lemma StatusDecodes(st: State, f: CanFrame, flags: Flags, field: Octet, value: nat)
    requires CarriedFlags(flags) == flags
    ensures Reports(st, f, flags, Build(st, StatusOf(field, value), flags, f.extended, f.fd), field, value)
  {
    hide Encode, Decode, Padded, DlcToLen, LenToDlc, CarriedFlags;
    ReplyDecodes(st, StatusOf(field, value), flags, f.extended, f.fd);
  }

  lemma {:induction false} BuiltAt(st: State, ms: seq<Message>, flags: Flags, extended: bool, fd: bool, i: nat)
    requires i < |ms|
    ensures BuildAll(st, ms, flags, extended, fd)[i] == Build(st, ms[i], flags, extended, fd)
  {
    hide Build;
    if i > 0 {
      BuiltAt(st, ms[1..], flags, extended, fd, i - 1);
    }
  }

  lemma StatusAsked(st: State, f: CanFrame, flags: Flags, nowUs: nat)
    requires SweepCode(f.arbId) == None && Decode(f.data) == Some((Control(RequestStatus), flags))
    ensures OnFrame(st, f, nowUs) == Transmit(st, Report(st, nowUs), flags, f.extended, f.fd)
  {
    hide SweepCode, Decode, Transmit, Report;
  }

  lemma FourCounters(st: State, nowUs: nat)
    ensures |Report(st, nowUs)| == 4
    ensures Report(st, nowUs)[0] == StatusOf(0, st.sequence.rxCount)
    ensures Report(st, nowUs)[1] == StatusOf(1, st.txCount)
    ensures Report(st, nowUs)[2] == StatusOf(2, st.sequence.drops)
    ensures Report(st, nowUs)[3] == StatusOf(3, FramesPerSecond(st.sequence.rxCount, st.startedUs, nowUs))
  {
    hide StatusOf, FramesPerSecond;
  }

  lemma ReportAt(st: State, f: CanFrame, flags: Flags, nowUs: nat, i: nat, value: nat)
    requires SweepCode(f.arbId) == None && Decode(f.data) == Some((Control(RequestStatus), flags))
    requires i < |Report(st, nowUs)| == 4 && Report(st, nowUs)[i] == StatusOf(i, value)
    ensures |OnFrame(st, f, nowUs).1| == 4 && Reports(st, f, flags, OnFrame(st, f, nowUs).1[i], i, value)
  {
    StatusAsked(st, f, flags, nowUs);
    DecodedFlags(f.data, Control(RequestStatus), flags);
    hide Build, Decode, SweepCode, CarriedFlags, Reports, StatusOf, FramesPerSecond, BuildAll, OnFrame;
    StatusDecodes(st, f, flags, i, value);
    BuiltAt(st, Report(st, nowUs), flags, f.extended, f.fd, i);
  }

  /**
   A status request is answered with four fields: 0 the frames received, 1 the replies sent before the
   report, 2 the drops and 3 the rate, each held at the largest number of three bytes.
   */
  lemma StatusReport(st: State, f: CanFrame, flags: Flags, nowUs: nat)
    requires SweepCode(f.arbId) == None && Decode(f.data) == Some((Control(RequestStatus), flags))
    ensures var (next, out) := OnFrame(st, f, nowUs);
            && |out| == 4
            && Reports(st, f, flags, out[0], 0, st.sequence.rxCount)
            && Reports(st, f, flags, out[1], 1, st.txCount)
            && Reports(st, f, flags, out[2], 2, st.sequence.drops)
            && Reports(st, f, flags, out[3], 3, FramesPerSecond(st.sequence.rxCount, st.startedUs, nowUs))
            && next == st.(txCount := st.txCount + 4)
  {
    StatusAsked(st, f, flags, nowUs);
    FourCounters(st, nowUs);
    hide OnFrame, BuildAll, Decode, SweepCode, Reports, Report, StatusOf, FramesPerSecond;
    ReportAt(st, f, flags, nowUs, 0, st.sequence.rxCount);
    ReportAt(st, f, flags, nowUs, 1, st.txCount);
    ReportAt(st, f, flags, nowUs, 2, st.sequence.drops);
    ReportAt(st, f, flags, nowUs, 3, FramesPerSecond(st.sequence.rxCount, st.startedUs, nowUs));
  }
}
