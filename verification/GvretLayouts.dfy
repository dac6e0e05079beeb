/** The GVRET wire byte by byte, with numbers least significant byte first. */
module GvretLayouts {
  import opened Common
  import opened Numbers
  import opened Dlc
  import opened Resync
  import opened Gvret
  import opened GvretDevice
  import opened GvretClient

  /** Four bytes as a number, the first the least significant. */
  function Number(b0: Octet, b1: Octet, b2: Octet, b3: Octet): U32 {
    b0 + 256 * b1 + 65536 * b2 + 16777216 * b3
  }

  /** The lengths that data length codes stand for. */
  function CodeLength(code: nat, isFd: bool): nat
    requires code < 16
  {
    if code <= 8 then code
    else if !isFd then 8
    else match code
      case 9 => 12
      case 10 => 16
      case 11 => 20
      case 12 => 24
      case 13 => 32
      case 14 => 48
      case _ => 64
  }

  lemma CodeLengths(dlc: nat, isFd: bool)
    ensures DlcToLen(dlc, isFd) == CodeLength(dlc % 16, isFd)
  {
  }

  /** The id word: the top bit for an extended id, which has 29 bits where a standard one has 11. */
  function IdWord(arbId: U32, extended: bool): U32 {
    if extended then 2147483648 + arbId % 536870912 else arbId % 2048
  }

  lemma LittleEndianIs(b0: Octet, b1: Octet, b2: Octet, b3: Octet)
    ensures LittleEndian(b0, b1, b2, b3) == Number(b0, b1, b2, b3)
  {
  }

  lemma BytesOf(w: U32)
    ensures Number(Byte0(w), Byte1(w), Byte2(w), Byte3(w)) == w
  {
    LittleEndianRoundTrip(w);
    LittleEndianIs(Byte0(w), Byte1(w), Byte2(w), Byte3(w));
    hide LittleEndian, Number, Byte0, Byte1, Byte2, Byte3;
  }

  // ---------- what a device writes ----------

  /** The number in four bytes of a wire. */
  function NumberAt(wire: seq<Octet>, i: nat): U32
    requires i + 4 <= |wire|
  {
    Number(wire[i], wire[i + 1], wire[i + 2], wire[i + 3])
  }

  /** A captured frame: F1 00, when, which id, bus and code, the payload with zeros up to its code, and a zero. */
  lemma FrameWritten(tsUs: U32, arbId: U32, extended: bool, bus: Octet, data: seq<Octet>, isFd: bool)
    ensures var wire, code := EncodeFrame(tsUs, arbId, extended, bus, data, isFd), PayloadDlc(|data|, isFd);
            var len := CodeLength(code, isFd);
            && |wire| == 12 + len && wire[0] == 0xF1 && wire[1] == 0x00
            && NumberAt(wire, 2) == tsUs
            && NumberAt(wire, 6) == IdWord(arbId, extended)
            && wire[10] == 16 * (bus % 16) + code
            && (forall i :: 0 <= i < len ==> wire[11 + i] == if i < |data| then data[i] else 0)
            && wire[11 + len] == 0
  {
    hide PayloadDlc, Number, CodeLength, Byte0, Byte1, Byte2, Byte3, DlcToLen;
    var code := PayloadDlc(|data|, isFd);
    CodeLengths(code, isFd);
    BytesOf(tsUs);
    BytesOf(MakeId(arbId, extended));
    var padded := Padded(data, CodeLength(code, isFd));
    var wire := EncodeFrame(tsUs, arbId, extended, bus, data, isFd);
    assert forall i :: 0 <= i < |padded| ==> wire[11 + i] == padded[i];
  }

  lemma TimebaseWritten(us: U32)
    ensures var wire := EncodeTimebase(us);
            |wire| == 6 && wire[0] == 0xF1 && wire[1] == 0x01 && NumberAt(wire, 2) == us
  {
    BytesOf(us);
    hide Number, Byte0, Byte1, Byte2, Byte3;
  }

  /** Two buses have a place here, each whether it is there and its speed. */
  lemma ParamsWritten(busCount: Octet, speeds: seq<U32>)
    ensures var wire := EncodeCanbusParams(busCount, speeds);
            && |wire| == 12 && wire[0] == 0xF1 && wire[1] == 0x06
            && wire[2] == (if busCount >= 1 then 1 else 0) && wire[7] == (if busCount >= 2 then 1 else 0)
            && NumberAt(wire, 3) == (if busCount >= 1 && |speeds| >= 1 then speeds[0] else 0)
            && NumberAt(wire, 8) == (if busCount >= 2 && |speeds| >= 2 then speeds[1] else 0)
  {
    hide Number, Byte0, Byte1, Byte2, Byte3, SpeedOf;
    SpeedIs(busCount, speeds);
    BytesOf(SpeedOf(busCount, speeds, 0));
    BytesOf(SpeedOf(busCount, speeds, 1));
  }

  lemma SpeedIs(busCount: Octet, speeds: seq<U32>)
    ensures SpeedOf(busCount, speeds, 0) == if busCount >= 1 && |speeds| >= 1 then speeds[0] else 0
    ensures SpeedOf(busCount, speeds, 1) == if busCount >= 2 && |speeds| >= 2 then speeds[1] else 0
  {
  }

  lemma FixedWritten(n: Octet)
    ensures EncodeDevInfo() == [0xF1, 0x07, 0x90, 0x01, 0x01, 0x00, 0x00, 0x00]
    ensures EncodeKeepalive() == [0xF1, 0x09, 0xDE, 0xAD]
    ensures EncodeNumBuses(n) == [0xF1, 0x0C, n]
  {
  }

  // ---------- what a host reads ----------

  /** The head of a frame, the payload its code stands for, and anything behind. */
  lemma FrameReadAs(buf: seq<Octet>)
    requires |buf| >= 11 && buf[0] == 0xF1 && buf[1] == 0x00
    ensures var len := CodeLength(buf[10] % 16, true);
            var extended := NumberAt(buf, 6) >= 2147483648;
            var id := NumberAt(buf, 6) % (if extended then 536870912 else 2048);
            ReadDevice(buf) ==
            if |buf| < 11 + len then NeedMore
            else Consume(Some(Frame(NumberAt(buf, 2), buf[10] / 16, id, extended, buf[10] % 16, buf[11..11 + len])),
                         11 + len)
  {
    hide CodeLength, DlcToLen, LittleEndian, Number, FrameOf;
    CodeLengths(buf[10] % 16, true);
    var len := CodeLength(buf[10] % 16, true);
    if |buf| >= 11 + len {
      FrameIs(buf, len);
    }
  }

  lemma FrameIs(buf: seq<Octet>, len: nat)
    requires |buf| >= 11 + len
    ensures var extended := NumberAt(buf, 6) >= 2147483648;
            var id := NumberAt(buf, 6) % (if extended then 536870912 else 2048);
            FrameOf(buf[..11 + len]) ==
            Frame(NumberAt(buf, 2), buf[10] / 16, id, extended, buf[10] % 16, buf[11..11 + len])
  {
    hide LittleEndian, Number;
    LittleEndianIs(buf[2], buf[3], buf[4], buf[5]);
    LittleEndianIs(buf[6], buf[7], buf[8], buf[9]);
    HeadOf(buf, 11 + len);
  }

  lemma HeadOf(buf: seq<Octet>, n: nat)
    requires 11 <= n <= |buf|
    ensures buf[..n][11..] == buf[11..n]
  {
  }

  /** Replies are of a fixed length, and anything but them is passed over by its first byte. */
  lemma ReplyReadAs(buf: seq<Octet>)
    requires |buf| >= 12 && buf[1] != 0x00
    ensures buf[1] == 0x01 ==> ReadDevice(buf) == Consume(Some(Timebase(NumberAt(buf, 2))), 6)
    ensures buf[1] == 0x06 ==>
              ReadDevice(buf) == Consume(Some(CanbusParams(buf[2] % 2 == 1, buf[7] % 2 == 1,
                                                           NumberAt(buf, 3), NumberAt(buf, 8))), 12)
    ensures buf[1] == 0x07 ==>
              ReadDevice(buf) == Consume(Some(DevInfo(Number(buf[2], buf[3], 0, 0), buf[4], buf[5], buf[6], buf[7])), 8)
    ensures buf[1] == 0x09 ==> ReadDevice(buf) == Consume(Some(Keepalive), 4)
    ensures buf[1] == 0x0C ==> ReadDevice(buf) == Consume(Some(NumBuses(buf[2])), 3)
    ensures buf[1] !in {0x01, 0x06, 0x07, 0x09, 0x0C} ==> ReadDevice(buf) == Consume(None, 1)
  {
    LittleEndianIs(buf[2], buf[3], buf[4], buf[5]);
    LittleEndianIs(buf[3], buf[4], buf[5], buf[6]);
    LittleEndianIs(buf[8], buf[9], buf[10], buf[11]);
    LittleEndianIs(buf[2], buf[3], 0, 0);
    hide LittleEndian;
  }

  // ---------- what a host writes, and a device reads ----------

  /** A frame to transmit: F1 00, which id, which bus, how many bytes, and those, at most 64. */
  lemma TransmitWritten(arbId: U32, extended: bool, bus: Octet, data: seq<Octet>)
    ensures var wire, n := EncodeTransmit(arbId, extended, bus, data), if |data| <= 64 then |data| else 64;
            && |wire| == 8 + n && wire[0] == 0xF1 && wire[1] == 0x00
            && NumberAt(wire, 2) == IdWord(arbId, extended)
            && wire[6] == bus && wire[7] == n && wire[8..] == data[..n]
  {
    BytesOf(MakeId(arbId, extended));
    hide Number, Byte0, Byte1, Byte2, Byte3;
  }

  /** It is read at its own length, of which eight bytes at most are payload. */
  lemma TransmitReadAs(buf: seq<Octet>)
    requires |buf| >= 8 && buf[1] == 0x00
    ensures var extended := NumberAt(buf, 2) >= 2147483648;
            var id := NumberAt(buf, 2) % (if extended then 536870912 else 2048);
            var declared: nat := buf[7];
            var n := if declared <= 8 then declared else 8;
            ReadClient(buf) ==
            if |buf| < 8 + declared then NeedMore
            else Consume(Some(Transmit(buf[6], id, extended, buf[8..8 + n])), 8 + declared)
  {
    LittleEndianIs(buf[2], buf[3], buf[4], buf[5]);
    hide LittleEndian, Number;
    var declared: nat := buf[7];
    if |buf| >= 8 + declared {
      assert buf[..8 + declared][8..8 + Min(declared, 8)] == buf[8..8 + Min(declared, 8)];
    }
  }

  /** A request is two bytes, and so is what is none. */
  lemma RequestReadAs(buf: seq<Octet>)
    requires |buf| >= 2 && buf[1] != 0x00
    ensures ReadClient(buf) ==
            Consume(if buf[1] == 0x01 then Some(AskTimebase)
                    else if buf[1] == 0x06 then Some(AskCanbusParams)
                    else if buf[1] == 0x07 then Some(AskDevInfo)
                    else if buf[1] == 0x09 then Some(SendKeepalive)
                    else if buf[1] == 0x0C then Some(AskNumBuses)
                    else None, 2)
  {
  }

  /** A handshake is E7 E7. */
  lemma HandshakeIs(buf: seq<Octet>, i: nat)
    ensures SyncAt(buf, i) <==> i + 1 < |buf| && buf[i] == 0xE7 && buf[i + 1] == 0xE7
  {
  }

  // ---------- noise ----------

  lemma {:induction false} NothingToSkipTo(bytes: seq<Octet>)
    requires 0xF1 !in bytes
    ensures SkipToCommand(bytes) == []
  {
    if bytes != [] {
      NothingToSkipTo(bytes[1..]);
    }
  }

  /** A host keeps noise while it has 1024 bytes of it at most, and then drops it all. */
  lemma NoiseKept(buf: seq<Octet>, chunk: seq<Octet>)
    requires 0xF1 !in buf && 0xF1 !in chunk
    ensures GvretDevice.Fed(buf, chunk) == ([], if |buf| + |chunk| <= 1024 then buf + chunk else [])
  {
    DeviceReader();
    NothingToSkipTo(buf + chunk);
    hide ReadFrame, ReadReply;
  }
}
