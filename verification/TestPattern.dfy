/** The Test Pattern wire: framed messages, sweep ids and sweep payloads. */
module TestPattern {
  import opened Common
  import opened Numbers
  import opened Dlc
  import opened Hamming

  const HEADER_BYTES := 8

  const ID_BASE: U32 := 0x7F0
  const ID_PING_REQUEST: U32 := 0x7F0
  const ID_PING_REPLY: U32 := 0x7F1
  const ID_THROUGHPUT_TX: U32 := 0x7F2
  const ID_LATENCY_PROBE: U32 := 0x7F4
  const ID_LATENCY_REPLY: U32 := 0x7F5
  const ID_CONTROL: U32 := 0x7F6
  const ID_STATUS: U32 := 0x7F7
  const ID_EXTENDED_BASE: U32 := 0x1F00_07F0
  const SWEEP_REQUEST_BASE: U32 := 0x7E0
  const SWEEP_ECHO_BASE: U32 := 0x7C0

  function ExtendedId(arbId: U32): U32
    requires ID_BASE <= arbId <= ID_STATUS
  {
    ID_EXTENDED_BASE + (arbId - ID_BASE)
  }

  /** The length code a sweep id names, and whether it is an echo. */
  function SweepCode(arbId: U32): Option<(nat, bool)> {
    if SWEEP_REQUEST_BASE <= arbId < SWEEP_REQUEST_BASE + 16 then Some((arbId - SWEEP_REQUEST_BASE, false))
    else if SWEEP_ECHO_BASE <= arbId < SWEEP_ECHO_BASE + 16 then Some((arbId - SWEEP_ECHO_BASE, true))
    else None
  }

  // ---------- framed messages ----------

  /** `iface` is one of eight interfaces and `run` one of sixteen runs. */
  datatype Flags = Flags(bytesMode: bool, iface: Octet, run: Octet)

  function EncodeFlags(f: Flags): Octet { (if f.bytesMode then 1 else 0) + f.iface % 8 * 2 + f.run % 16 * 16 }

  function DecodeFlags(b: Octet): Flags { Flags(b % 2 != 0, b / 2 % 8, b / 16 % 16) }

  datatype Command =
    | Start(mode: Octet, run: Octet)
    | Stop
    | SetRate(fps: U16)
    | RequestStatus
    | Hello
    | HelloReply(capabilities: Octet, bus: Octet)
    | Unknown(code: Octet, b0: Octet, b1: Octet, b2: Octet)

  datatype Message =
    | PingRequest(seqNo: U16)
    | PingReply(seqNo: U16)
    | Throughput(seqNo: U16, pattern: Octet)
    | LatencyProbe(seqNo: U16, tsUs: U32)
    | LatencyReply(seqNo: U16, tsUs: U32)
    | Control(command: Command)
    | Status(field: Octet, value: U32)
  {
    function ArbId(): (id: U32)
      ensures ID_BASE <= id <= ID_STATUS
    {
      match this
      case PingRequest(_) => ID_PING_REQUEST
      case PingReply(_) => ID_PING_REPLY
      case Throughput(_, _) => ID_THROUGHPUT_TX
      case LatencyProbe(_, _) => ID_LATENCY_PROBE
      case LatencyReply(_, _) => ID_LATENCY_REPLY
      case Control(_) => ID_CONTROL
      case Status(_, _) => ID_STATUS
    }
  }

  const CMD_START: Octet := 0x01
  const CMD_STOP: Octet := 0x02
  const CMD_SET_RATE: Octet := 0x03
  const CMD_REQUEST_STATUS: Octet := 0x04
  const CMD_HELLO: Octet := 0x05
  const CMD_HELLO_REPLY: Octet := 0x85

  /** The last four bytes of a framed message. */
  datatype Body = Body(b0: Octet, b1: Octet, b2: Octet, b3: Octet)

  function CommandBody(c: Command): Body {
    match c
    case Start(mode, run) => Body(CMD_START, mode, run % 16, 0)
    case Stop => Body(CMD_STOP, 0, 0, 0)
    case SetRate(fps) => Body(CMD_SET_RATE, fps / 256, fps % 256, 0)
    case RequestStatus => Body(CMD_REQUEST_STATUS, 0, 0, 0)
    case Hello => Body(CMD_HELLO, 0, 0, 0)
    case HelloReply(capabilities, bus) => Body(CMD_HELLO_REPLY, capabilities, bus, 0)
    case Unknown(code, b0, b1, b2) => Body(code, b0, b1, b2)
  }

  function ParseCommand(b: Body): Command {
    if b.b0 == CMD_START then Start(b.b1, b.b2 % 16)
    else if b.b0 == CMD_STOP then Stop
    else if b.b0 == CMD_SET_RATE then SetRate(BigEndian16(b.b1, b.b2))
    else if b.b0 == CMD_REQUEST_STATUS then RequestStatus
    else if b.b0 == CMD_HELLO then Hello
    else if b.b0 == CMD_HELLO_REPLY then HelloReply(b.b1, b.b2)
    else Unknown(b.b0, b.b1, b.b2, b.b3)
  }

  function BigEndianBody(w: U32): Body { Body(Byte3(w), Byte2(w), Byte1(w), Byte0(w)) }

  function FromBigEndianBody(b: Body): U32 { LittleEndian(b.b3, b.b2, b.b1, b.b0) }

  /** Tag, sequence number and body; control and status carry no sequence. */
  function Parts(m: Message): (Octet, U16, Body) {
    match m
    case PingRequest(n) => (1, n, Body(0, 0, 0, 0))
    case PingReply(n) => (2, n, Body(0, 0, 0, 0))
    case Throughput(n, pattern) => (3, n, Body(pattern, 0, 0, 0))
    case LatencyProbe(n, tsUs) => (4, n, BigEndianBody(tsUs))
    case LatencyReply(n, tsUs) => (5, n, BigEndianBody(tsUs))
    case Control(c) => (6, 0, CommandBody(c))
    case Status(field, value) => (7, 0, Body(field, Byte2(value), Byte1(value), Byte0(value)))
  }

  function Encode(m: Message, f: Flags): (data: seq<Octet>)
    ensures |data| == HEADER_BYTES
  {
    var (tag, n, body) := Parts(m);
    [tag, EncodeFlags(f), n / 256, n % 256, body.b0, body.b1, body.b2, body.b3]
  }

  function MessageOf(tag: Octet, n: U16, body: Body): Option<Message> {
    if tag == 1 then Some(PingRequest(n))
    else if tag == 2 then Some(PingReply(n))
    else if tag == 3 then Some(Throughput(n, body.b0))
    else if tag == 4 then Some(LatencyProbe(n, FromBigEndianBody(body)))
    else if tag == 5 then Some(LatencyReply(n, FromBigEndianBody(body)))
    else if tag == 6 then Some(Control(ParseCommand(body)))
    else if tag == 7 then Some(Status(body.b0, LittleEndian(body.b3, body.b2, body.b1, 0)))
    else None
  }

  /** Bytes past the eighth are padding, not part of the message. */
  function Decode(data: seq<Octet>): Option<(Message, Flags)> {
    if |data| < HEADER_BYTES then None
    else
      match MessageOf(data[0], BigEndian16(data[2], data[3]), Body(data[4], data[5], data[6], data[7]))
      case Some(m) => Some((m, DecodeFlags(data[1])))
      case None => None
  }

  // ---------- what decoding undoes ----------

  function CarriedFlags(f: Flags): Flags { f.(iface := f.iface % 8, run := f.run % 16) }

  predicate Known(code: Octet) { 1 <= code <= 5 || code == CMD_HELLO_REPLY }

  /** What of a message is on the wire: four bits of run, three bytes of status, no known code as unknown. */
  function Carried(m: Message): Message {
    match m
    case Control(c) => Control(ParseCommand(CommandBody(c)))
    case Status(field, value) => Status(field, value % 0x100_0000)
    case _ => m
  }

  lemma ThreeParts(x: nat, y: nat, z: nat)
    requires x < 2 && y < 8
    ensures var b := x + 2 * y + 16 * z; b % 2 == x && b / 2 % 8 == y && b / 16 == z
  {
    assert (x + 2 * y + 16 * z) / 2 == y + 8 * z;
  }

  lemma FlagsRoundTrip(f: Flags)
    ensures DecodeFlags(EncodeFlags(f)) == CarriedFlags(f)
  {
    ThreeParts(if f.bytesMode then 1 else 0, f.iface % 8, f.run % 16);
  }

  lemma CommandRoundTrip(c: Command)
    ensures c.Unknown? ==> (ParseCommand(CommandBody(c)) == c <==> !Known(c.code))
    ensures c.Start? ==> ParseCommand(CommandBody(c)) == c.(run := c.run % 16)
    ensures !c.Unknown? && !c.Start? ==> ParseCommand(CommandBody(c)) == c
  {
  }

  lemma ThreeBytes(w: U32)
    ensures LittleEndian(Byte0(w), Byte1(w), Byte2(w), 0) == w % 0x100_0000
  {
    LittleEndianRoundTrip(w);
    var v := LittleEndian(Byte0(w), Byte1(w), Byte2(w), 0);
    assert v < 0x100_0000 && w == v + 0x100_0000 * Byte3(w);
  }

  lemma MessageRoundTrip(m: Message)
    ensures var (tag, n, body) := Parts(m); MessageOf(tag, n, body) == Some(Carried(m))
  {
    hide Byte0, Byte1, Byte2, Byte3, LittleEndian, CommandBody, ParseCommand;
    match m
    case LatencyProbe(_, tsUs) => LittleEndianRoundTrip(tsUs);
    case LatencyReply(_, tsUs) => LittleEndianRoundTrip(tsUs);
    case Status(_, value) => ThreeBytes(value);
    case _ =>
  }

  /** A framed message survives the wire, whatever padding a CAN FD frame puts behind it. */
  lemma FramedRoundTrip(m: Message, f: Flags, padding: seq<Octet>)
    ensures Decode(Encode(m, f) + padding) == Some((Carried(m), CarriedFlags(f)))
  {
    MessageRoundTrip(m);
    FlagsRoundTrip(f);
    hide Parts, MessageOf, EncodeFlags, DecodeFlags, CarriedFlags, Carried;
    var (tag, n, body) := Parts(m);
    assert BigEndian16(n / 256, n % 256) == n;
  }

  // ---------- the sweep ----------

  function SweepByte(code: nat, i: nat): nat { Xor(i * 0x1F % 256, code * 0x55 % 256) }

  function SweepPayload(code: nat, isFd: bool): (payload: seq<nat>)
    ensures |payload| == DlcToLen(code, isFd)
  {
    seq(DlcToLen(code, isFd), i requires 0 <= i => SweepByte(code % 16, i))
  }

  lemma {:induction false} XorCancels(a: nat, b: nat, c: nat)
    requires Xor(a, c) == Xor(b, c)
    ensures a == b
    decreases a + b + c
  {
    if a + b + c > 0 {
      XorStep(a, c);
      XorStep(b, c);
      XorCancels(a / 2, b / 2, c / 2);
    }
  }

  lemma XorStep(a: nat, b: nat)
    ensures Xor(a, b) / 2 == Xor(a / 2, b / 2) && (Xor(a, b) % 2 == 0 <==> a % 2 == b % 2)
  {
    if a != 0 || b != 0 {
      var half := Xor(a / 2, b / 2);
      assert Xor(a, b) == 2 * half + (if a % 2 == b % 2 then 0 else 1);
    } else {
      assert Xor(0, 0) == 0;
    }
  }

  lemma {:induction false} XorSymmetric(a: nat, b: nat)
    ensures Xor(a, b) == Xor(b, a)
    decreases a + b
  {
    if a + b > 0 {
      XorSymmetric(a / 2, b / 2);
    }
  }

  lemma NoCommonMultiple31(d: int, q: int)
    requires -64 < d < 64 && 31 * d == 256 * q
    ensures d == 0
  {
    assert -8 < q < 8;
  }

  lemma NoCommonMultiple85(d: int, q: int)
    requires -16 < d < 16 && 85 * d == 256 * q
    ensures d == 0
  {
    assert -6 < q < 6;
  }

  lemma SameRemainder(a: nat, b: nat)
    requires a % 256 == b % 256
    ensures a - b == 256 * (a / 256 - b / 256)
  {
  }

  /** Multiplying by 31 keeps the first 64 positions apart. */
  lemma PositionsApart(i: nat, j: nat)
    requires i < 64 && j < 64 && i * 0x1F % 256 == j * 0x1F % 256
    ensures i == j
  {
    SameRemainder(i * 0x1F, j * 0x1F);
    NoCommonMultiple31(i - j, i * 0x1F / 256 - j * 0x1F / 256);
  }

  lemma CodesApart(c: nat, d: nat)
    requires c < 16 && d < 16 && c * 0x55 % 256 == d * 0x55 % 256
    ensures c == d
  {
    SameRemainder(c * 0x55, d * 0x55);
    NoCommonMultiple85(c - d, c * 0x55 / 256 - d * 0x55 / 256);
  }

  /** No byte of a sweep payload repeats, and none is the same under another code. */
  lemma SweepBytesVary(code: nat, other: nat, i: nat, j: nat)
    requires code < 16 && other < 16 && i < 64 && j < 64
    ensures SweepByte(code, i) == SweepByte(code, j) ==> i == j
    ensures SweepByte(code, i) == SweepByte(other, i) ==> code == other
  {
    hide Xor;
    if SweepByte(code, i) == SweepByte(code, j) {
      XorCancels(i * 0x1F % 256, j * 0x1F % 256, code * 0x55 % 256);
      PositionsApart(i, j);
    }
    if SweepByte(code, i) == SweepByte(other, i) {
      XorSymmetric(i * 0x1F % 256, code * 0x55 % 256);
      XorSymmetric(i * 0x1F % 256, other * 0x55 % 256);
      XorCancels(code * 0x55 % 256, other * 0x55 % 256, i * 0x1F % 256);
      CodesApart(code, other);
    }
  }

  /** So an echo that matches its own code's payload is not that of any other code. */
  lemma EchoNamesItsCode(code: nat, other: nat, isFd: bool)
    requires code < 16 && other < 16 && SweepPayload(code, isFd) == SweepPayload(other, isFd)
    ensures code == other
  {
    hide SweepByte, DlcToLen;
    PayloadEmpty(code, isFd);
    PayloadEmpty(other, isFd);
    if code != 0 {
      assert SweepPayload(code, isFd)[0] == SweepPayload(other, isFd)[0];
      SweepBytesVary(code, other, 0, 0);
    }
  }

  lemma PayloadEmpty(code: nat, isFd: bool)
    requires code < 16
    ensures DlcToLen(code, isFd) == 0 <==> code == 0
  {
  }
}
