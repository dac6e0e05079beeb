/** The GVRET wire: opcodes, id packing, what each end writes and how each end reads a head. */
module Gvret {
  import opened Common
  import opened Numbers
  import opened Sequences
  import opened Dlc
  import opened Resync

  const SYNC_BYTE: Octet := 0xE7

  const OP_FRAME: Octet := 0x00
  const OP_TIMEBASE: Octet := 0x01
  const OP_CANBUS_PARAMS: Octet := 0x06
  const OP_DEV_INFO: Octet := 0x07
  const OP_KEEPALIVE: Octet := 0x09
  const OP_NUM_BUSES: Octet := 0x0C

  const HEADER := 11
  const TRANSMIT_HEADER := 8

  // ---------- ids ----------

  /** The 29 low bits of an extended id, the 11 low bits of a standard one. */
  function MaskedId(arbId: U32, extended: bool): U32 {
    if extended then arbId % 0x2000_0000 else arbId % 0x800
  }

  /** The top bit of the id word marks an extended id. */
  function MakeId(arbId: U32, extended: bool): U32 {
    if extended then MaskedId(arbId, true) + 0x8000_0000 else MaskedId(arbId, false)
  }

  function SplitId(raw: U32): (U32, bool) {
    var extended := raw >= 0x8000_0000;
    (MaskedId(raw, extended), extended)
  }

  lemma IdRoundTrip(arbId: U32, extended: bool)
    ensures SplitId(MakeId(arbId, extended)) == (MaskedId(arbId, extended), extended)
  {
  }

  /** The bus number in the high nibble, the data length code in the low one. */
  function PackBus(bus: Octet, dlc: nat): Octet { bus % 16 * 16 + dlc % 16 }

  // ---------- what a device says ----------

  datatype DeviceMessage =
    | Frame(tsUs: U32, bus: Octet, arbId: U32, extended: bool, dlc: nat, data: seq<Octet>)
    | Timebase(us: U32)
    | CanbusParams(enabled0: bool, enabled1: bool, speed0: U32, speed1: U32)
    | DevInfo(build: nat, eepromVersion: Octet, fileType: Octet, autoStart: Octet, singleWire: Octet)
    | Keepalive
    | NumBuses(n: Octet)

  function FrameOf(b: seq<Octet>): DeviceMessage
    requires |b| >= HEADER
  {
    var (arbId, extended) := SplitId(LittleEndian(b[6], b[7], b[8], b[9]));
    Frame(LittleEndian(b[2], b[3], b[4], b[5]), b[10] / 16, arbId, extended, b[10] % 16, b[HEADER..])
  }

  /** How long the whole frame at the head is: the code is read as CAN FD's, whatever it is. */
  function FrameLength(buf: seq<Octet>): nat
    requires |buf| >= HEADER
  {
    HEADER + DlcToLen(buf[10] % 16, true)
  }

  /** The trailing checksum byte is not consumed. */
  function ReadFrame(buf: seq<Octet>): Outcome<DeviceMessage> {
    if |buf| < HEADER || |buf| < FrameLength(buf) then NeedMore
    else Consume(Some(FrameOf(buf[..FrameLength(buf)])), FrameLength(buf))
  }

  function ReplyLength(op: Octet): Option<nat> {
    if op == OP_TIMEBASE then Some(6)
    else if op == OP_CANBUS_PARAMS then Some(12)
    else if op == OP_DEV_INFO then Some(8)
    else if op == OP_KEEPALIVE then Some(4)
    else if op == OP_NUM_BUSES then Some(3)
    else None
  }

  function ReplyOf(b: seq<Octet>): DeviceMessage
    requires |b| >= 2 && ReplyLength(b[1]) == Some(|b|)
  {
    if b[1] == OP_TIMEBASE then Timebase(LittleEndian(b[2], b[3], b[4], b[5]))
    else if b[1] == OP_CANBUS_PARAMS then
      CanbusParams(b[2] % 2 != 0, b[7] % 2 != 0,
                   LittleEndian(b[3], b[4], b[5], b[6]), LittleEndian(b[8], b[9], b[10], b[11]))
    else if b[1] == OP_DEV_INFO then DevInfo(LittleEndian(b[2], b[3], 0, 0), b[4], b[5], b[6], b[7])
    else if b[1] == OP_KEEPALIVE then Keepalive
    else NumBuses(b[2])
  }

  /** A fixed-length reply, or an unknown opcode, of which the command byte alone is dropped. */
  function ReadReply(buf: seq<Octet>): Outcome<DeviceMessage>
    requires |buf| >= 2
  {
    match ReplyLength(buf[1])
    case None => Consume(None, 1)
    case Some(len) => if |buf| < len then NeedMore else Consume(Some(ReplyOf(buf[..len])), len)
  }

  function ReadDevice(buf: seq<Octet>): Outcome<DeviceMessage> {
    if |buf| < 2 then NeedMore else if buf[1] == OP_FRAME then ReadFrame(buf) else ReadReply(buf)
  }

  // ---------- what a client asks for ----------

  datatype ClientCommand =
    | Transmit(bus: Octet, arbId: U32, extended: bool, data: seq<Octet>)
    | AskTimebase
    | AskCanbusParams
    | AskDevInfo
    | SendKeepalive
    | AskNumBuses

  /** The payload is clamped to 8 bytes, however many were declared. */
  function TransmitOf(b: seq<Octet>): ClientCommand
    requires |b| >= TRANSMIT_HEADER
  {
    var (arbId, extended) := SplitId(LittleEndian(b[2], b[3], b[4], b[5]));
    Transmit(b[6], arbId, extended, b[TRANSMIT_HEADER..TRANSMIT_HEADER + Min(|b| - TRANSMIT_HEADER, 8)])
  }

  /** The declared length decides how much is consumed. */
  function ReadTransmit(buf: seq<Octet>): Outcome<ClientCommand> {
    if |buf| < TRANSMIT_HEADER || |buf| < TRANSMIT_HEADER + buf[7] then NeedMore
    else Consume(Some(TransmitOf(buf[..TRANSMIT_HEADER + buf[7]])), TRANSMIT_HEADER + buf[7])
  }

  function Request(op: Octet): Option<ClientCommand> {
    if op == OP_TIMEBASE then Some(AskTimebase)
    else if op == OP_CANBUS_PARAMS then Some(AskCanbusParams)
    else if op == OP_DEV_INFO then Some(AskDevInfo)
    else if op == OP_KEEPALIVE then Some(SendKeepalive)
    else if op == OP_NUM_BUSES then Some(AskNumBuses)
    else None
  }

  function ReadClient(buf: seq<Octet>): Outcome<ClientCommand> {
    if |buf| < 2 then NeedMore
    else if buf[1] == OP_FRAME then ReadTransmit(buf)
    else Consume(Request(buf[1]), 2)
  }

  // ---------- both readers decide on the head alone ----------

  lemma FrameSteady(buf: seq<Octet>, more: seq<Octet>)
    requires ReadFrame(buf).Consume?
    ensures ReadFrame(buf + more) == ReadFrame(buf)
  {
    hide DlcToLen, FrameOf;
    assert (buf + more)[..FrameLength(buf)] == buf[..FrameLength(buf)];
  }

  lemma ReplySteady(buf: seq<Octet>, more: seq<Octet>)
    requires |buf| >= 2 && ReadReply(buf).Consume?
    ensures ReadReply(buf + more) == ReadReply(buf)
  {
    hide ReplyOf, ReplyLength;
    match ReplyLength(buf[1])
    case None =>
    case Some(len) => assert (buf + more)[..len] == buf[..len];
  }

  lemma TransmitSteady(buf: seq<Octet>, more: seq<Octet>)
    requires ReadTransmit(buf).Consume?
    ensures ReadTransmit(buf + more) == ReadTransmit(buf)
  {
    hide TransmitOf;
    var need := TRANSMIT_HEADER + buf[7];
    assert (buf + more)[..need] == buf[..need];
  }

  lemma DeviceReader()
    ensures Bounded(ReadDevice) && Steady(ReadDevice)
  {
    hide ReadFrame, ReadReply;
    forall buf ensures ReadDevice(buf).Consume? ==> 0 < ReadDevice(buf).n <= |buf| {
      DeviceConsumes(buf);
    }
    forall buf, more | ReadDevice(buf).Consume? ensures ReadDevice(buf + more) == ReadDevice(buf) {
      if buf[1] == OP_FRAME {
        FrameSteady(buf, more);
      } else {
        ReplySteady(buf, more);
      }
    }
  }

  lemma DeviceConsumes(buf: seq<Octet>)
    ensures ReadDevice(buf).Consume? ==> 0 < ReadDevice(buf).n <= |buf|
  {
    hide FrameOf, ReplyOf, DlcToLen;
  }

  lemma ClientReader()
    ensures Bounded(ReadClient) && Steady(ReadClient)
  {
    hide ReadTransmit;
    forall buf ensures ReadClient(buf).Consume? ==> 0 < ReadClient(buf).n <= |buf| {
      ClientConsumes(buf);
    }
    forall buf, more | ReadClient(buf).Consume? ensures ReadClient(buf + more) == ReadClient(buf) {
      if buf[1] == OP_FRAME {
        TransmitSteady(buf, more);
      }
    }
  }

  lemma ClientConsumes(buf: seq<Octet>)
    ensures ReadClient(buf).Consume? ==> 0 < ReadClient(buf).n <= |buf|
  {
    hide TransmitOf;
  }

  // ---------- what each end writes ----------

  /** A captured frame: zero-padded up to its code, then the trailing checksum byte. */
  function EncodeFrame(tsUs: U32, arbId: U32, extended: bool, bus: Octet, data: seq<Octet>, isFd: bool): seq<Octet> {
    var dlc := PayloadDlc(|data|, isFd);
    var len := DlcToLen(dlc, isFd);
    var id := MakeId(arbId, extended);
    [CMD, OP_FRAME, Byte0(tsUs), Byte1(tsUs), Byte2(tsUs), Byte3(tsUs),
     Byte0(id), Byte1(id), Byte2(id), Byte3(id), PackBus(bus, dlc)]
    + Padded(data, len) + [0]
  }

  /**
   The encoder pads: a payload goes out longer than it came exactly when it is a CAN FD payload below 64
   bytes of a length that has no code of its own. Then it is whole, with zeros behind it.
   */
  lemma PadsIff(tsUs: U32, arbId: U32, extended: bool, bus: Octet, data: seq<Octet>, isFd: bool)
    ensures var wire := EncodeFrame(tsUs, arbId, extended, bus, data, isFd);
            && (|wire| > 12 + |data| <==> isFd && |data| < 64 && |data| !in FD_DLC_LEN)
            && (|wire| > 12 + |data| ==>
                  wire[11..11 + |data|] == data && forall i :: 11 + |data| <= i < |wire| ==> wire[i] == 0)
  {
    hide Padded, MakeId, PackBus;
    CodeLongerIff(|data|, isFd);
  }

  /** Nine bytes go out as twelve. */
  lemma NinePads(tsUs: U32, arbId: U32, extended: bool, bus: Octet)
    ensures |EncodeFrame(tsUs, arbId, extended, bus, [1, 2, 3, 4, 5, 6, 7, 8, 9], true)| == 12 + 12
  {
    assert FD_DLC_LEN[9] == 12;
  }

  function EncodeTransmit(arbId: U32, extended: bool, bus: Octet, data: seq<Octet>): seq<Octet> {
    var take := Min(|data|, 64);
    var id := MakeId(arbId, extended);
    [CMD, OP_FRAME, Byte0(id), Byte1(id), Byte2(id), Byte3(id), bus, take] + data[..take]
  }

  /** Append a captured frame to a buffer. */
  method EncodeFrameInto(
    start: seq<Octet>, tsUs: U32, arbId: U32, extended: bool, bus: Octet, data: seq<Octet>, isFd: bool)
    returns (out: seq<Octet>)
    ensures out == start + EncodeFrame(tsUs, arbId, extended, bus, data, isFd)
  {
    hide DlcToLen, PayloadDlc, MakeId, PackBus, Byte0, Byte1, Byte2, Byte3, Padded;
    var dlc := PayloadDlc(|data|, isFd);
    var len := DlcToLen(dlc, isFd);
    var id := MakeId(arbId, extended);
    ghost var header := [CMD, OP_FRAME, Byte0(tsUs), Byte1(tsUs), Byte2(tsUs), Byte3(tsUs),
                         Byte0(id), Byte1(id), Byte2(id), Byte3(id), PackBus(bus, dlc)];
    out := start + [CMD, OP_FRAME];
    out := out + [Byte0(tsUs), Byte1(tsUs), Byte2(tsUs), Byte3(tsUs)];
    out := out + [Byte0(id), Byte1(id), Byte2(id), Byte3(id)];
    out := out + [PackBus(bus, dlc)];
    assert out == start + header;
    out := PushPadded(out, data, len);
    out := out + [0x00];
    AppendAssociative(start, header, Padded(data, len));
    AppendAssociative(start, header + Padded(data, len), [0]);
  }

  /** Append as much of a payload as fits, and zeros up to the length. */
  method PushPadded(start: seq<Octet>, data: seq<Octet>, len: nat) returns (out: seq<Octet>)
    ensures out == start + Padded(data, len)
  {
    var take := Min(len, |data|);
    out := start + data[..take];
    var padding := 0;
    while padding < len - take
      invariant 0 <= padding <= len - take && out == start + (data[..take] + Padding(padding))
    {
      assert Padding(padding + 1) == Padding(padding) + [0];
      out := out + [0];
      padding := padding + 1;
    }
  }

  /** Append a transmit request to a buffer: a byte count, no timestamp and no checksum byte. */
  method EncodeTransmitInto(start: seq<Octet>, arbId: U32, extended: bool, bus: Octet, data: seq<Octet>)
    returns (out: seq<Octet>)
    ensures out == start + EncodeTransmit(arbId, extended, bus, data)
  {
    hide MakeId;
    var take := Min(|data|, 64);
    var id := MakeId(arbId, extended);
    out := start + [CMD, OP_FRAME];
    out := out + [Byte0(id), Byte1(id), Byte2(id), Byte3(id)];
    out := out + [bus];
    out := out + [take];
    out := out + data[..take];
  }

  function EncodeTimebase(us: U32): seq<Octet> {
    [CMD, OP_TIMEBASE, Byte0(us), Byte1(us), Byte2(us), Byte3(us)]
  }

  function SpeedOf(busCount: Octet, speeds: seq<U32>, i: nat): U32 {
    if busCount > i && i < |speeds| then speeds[i] else 0
  }

  /** Only the first two buses have a place here. */
  function EncodeCanbusParams(busCount: Octet, speeds: seq<U32>): seq<Octet> {
    var s0, s1 := SpeedOf(busCount, speeds, 0), SpeedOf(busCount, speeds, 1);
    [CMD, OP_CANBUS_PARAMS,
     if busCount > 0 then 1 else 0, Byte0(s0), Byte1(s0), Byte2(s0), Byte3(s0),
     if busCount > 1 then 1 else 0, Byte0(s1), Byte1(s1), Byte2(s1), Byte3(s1)]
  }

  function EncodeDevInfo(): seq<Octet> { [CMD, OP_DEV_INFO, 0x90, 0x01, 1, 0, 0, 0] }

  function EncodeKeepalive(): seq<Octet> { [CMD, OP_KEEPALIVE, 0xDE, 0xAD] }

  function EncodeNumBuses(n: Octet): seq<Octet> { [CMD, OP_NUM_BUSES, n] }
}
