/** The host end: what a client makes of the stream a device sends. */
module GvretDevice {
  import opened Common
  import opened Sequences
  import opened Numbers
  import opened Dlc
  import opened Resync
  import opened Gvret

  /** How much unsynchronised rubbish is kept. */
  const MAX_RESYNC_BYTES := 1024

  /** A partial message is kept however long it stalls; noise only up to a bound. */
  function Kept(tail: seq<Octet>): seq<Octet> {
    var b := SkipToCommand(tail);
    if b != [] then b else if |tail| > MAX_RESYNC_BYTES then [] else tail
  }

  /** One feed: the messages completed, and the buffer it leaves. */
  ghost function Fed(buf: seq<Octet>, chunk: seq<Octet>): (seq<DeviceMessage>, seq<Octet>) {
    DeviceReader();
    (Run(ReadDevice, buf + chunk).0, Kept(Tail(ReadDevice, buf + chunk)))
  }

  ghost function FedAll(buf: seq<Octet>, chunks: seq<seq<Octet>>): (seq<DeviceMessage>, seq<Octet>)
    decreases |chunks|
  {
    if chunks == [] then ([], buf)
    else
      var (msgs, next) := Fed(buf, chunks[0]);
      var (rest, final) := FedAll(next, chunks[1..]);
      (msgs + rest, final)
  }

  class DeviceDecoder {
    var buf: seq<Octet>

    constructor ()
      ensures buf == []
    {
      buf := [];
    }

    method Feed(chunk: seq<Octet>) returns (out: seq<DeviceMessage>)
      modifies this
      ensures (out, buf) == Fed(old(buf), chunk)
    {
      hide Run, Tail, SkipToCommand, ReadFrame, ReadReply;
      DeviceReader();
      ghost var all := buf + chunk;
      buf := buf + chunk;
      out := [];
      assert out + Run(ReadDevice, buf).0 == Run(ReadDevice, buf).0;
      while true
        invariant Run(ReadDevice, all).0 == out + Run(ReadDevice, buf).0
        invariant Tail(ReadDevice, all) == Tail(ReadDevice, buf)
        decreases |buf|
      {
        ghost var before, sofar := buf, out;
        var at := FindCommand(buf);
        if at == |buf| {
          NothingLeft(before, sofar);
          if |buf| > MAX_RESYNC_BYTES {
            buf := [];
          }
          return;
        }
        buf := buf[at..];
        if |buf| < 2 {
          NothingLeft(before, sofar);
          return;
        }
        if buf[1] == OP_FRAME {
          var frame := TakeFrame();
          if frame.None? {
            NothingLeft(before, sofar);
            return;
          }
          OneMore(before, sofar);
          out := out + [frame.value];
        } else {
          var reply := ReadReply(buf);
          if reply.NeedMore? {
            NothingLeft(before, sofar);
            return;
          }
          OneMore(before, sofar);
          out := out + Emitted(reply.msg);
          buf := buf[reply.n..];
        }
      }
    }

    method TakeFrame() returns (msg: Option<DeviceMessage>)
      requires |buf| >= 2
      modifies this
      ensures match ReadFrame(old(buf))
              case NeedMore => msg == None && buf == old(buf)
              case Consume(m, n) => msg == m && m.Some? && n <= |old(buf)| && buf == old(buf)[n..]
    {
      hide DlcToLen, SplitId, LittleEndian;
      if |buf| < HEADER {
        return None;
      }
      var len := DlcToLen(buf[10] % 16, true);
      if |buf| < HEADER + len {
        return None;
      }
      msg := Some(FrameOf(buf[..HEADER + len]));
      buf := buf[HEADER + len..];
    }
  }

  lemma NothingLeft(buf: seq<Octet>, out: seq<DeviceMessage>)
    requires ReadDevice(SkipToCommand(buf)).NeedMore?
    ensures Bounded(ReadDevice) && Steady(ReadDevice)
    ensures out + Run(ReadDevice, buf).0 == out
    ensures Tail(ReadDevice, buf) == buf
  {
    DeviceReader();
    hide SkipToCommand, ReadDevice, Bounded, Steady;
  }

  lemma OneMoreRound(buf: seq<Octet>)
    requires ReadDevice(SkipToCommand(buf)).Consume?
    ensures Bounded(ReadDevice)
    ensures var r, b := ReadDevice(SkipToCommand(buf)), SkipToCommand(buf);
            && 0 < r.n <= |b|
            && Run(ReadDevice, buf) == (Emitted(r.msg) + Run(ReadDevice, b[r.n..]).0, Run(ReadDevice, b[r.n..]).1)
            && Tail(ReadDevice, buf) == Tail(ReadDevice, b[r.n..])
  {
    DeviceReader();
    hide SkipToCommand, ReadDevice, Steady;
  }

  lemma OneMore(buf: seq<Octet>, out: seq<DeviceMessage>)
    requires ReadDevice(SkipToCommand(buf)).Consume?
    ensures Bounded(ReadDevice) && Steady(ReadDevice)
    ensures var r, b := ReadDevice(SkipToCommand(buf)), SkipToCommand(buf);
            && 0 < r.n <= |b|
            && out + Run(ReadDevice, buf).0 == (out + Emitted(r.msg)) + Run(ReadDevice, b[r.n..]).0
            && Tail(ReadDevice, buf) == Tail(ReadDevice, b[r.n..])
  {
    DeviceReader();
    OneMoreRound(buf);
    hide SkipToCommand, ReadDevice, Steady, Run, Tail;
    var r, b := ReadDevice(SkipToCommand(buf)), SkipToCommand(buf);
    AppendAssociative(out, Emitted(r.msg), Run(ReadDevice, b[r.n..]).0);
  }

  // ---------- any way of cutting the stream ----------

  lemma KeptMatters(tail: seq<Octet>)
    ensures SkipToCommand(Kept(tail)) == SkipToCommand(tail)
  {
  }

  lemma FedLeaves(buf: seq<Octet>, chunk: seq<Octet>)
    ensures Bounded(ReadDevice)
    ensures SkipToCommand(Fed(buf, chunk).1) == Run(ReadDevice, buf + chunk).1
    ensures ReadDevice(SkipToCommand(Fed(buf, chunk).1)).NeedMore?
  {
    DeviceReader();
    hide SkipToCommand, ReadDevice, Bounded, Kept, Run, Tail;
    TailLeaves(ReadDevice, buf + chunk);
    KeptMatters(Tail(ReadDevice, buf + chunk));
  }

  /**
   However a stream is cut into reads, the messages are those of the whole stream, and the
   buffer left agrees with it from the first command byte on.
   */
  lemma {:induction false} AnyChunking(buf: seq<Octet>, chunks: seq<seq<Octet>>)
    requires ReadDevice(SkipToCommand(buf)).NeedMore?
    ensures Bounded(ReadDevice)
    ensures var (msgs, final) := FedAll(buf, chunks);
            (msgs, SkipToCommand(final)) == Run(ReadDevice, buf + Flatten(chunks))
    decreases |chunks|
  {
    DeviceReader();
    hide SkipToCommand, ReadDevice, Bounded, Steady, Kept, Run, Tail, Fed;
    if chunks == [] {
      assert buf + Flatten(chunks) == buf;
      RunWaits(ReadDevice, buf);
    } else {
      var (msgs, next) := Fed(buf, chunks[0]);
      FedLeaves(buf, chunks[0]);
      AnyChunking(next, chunks[1..]);
      SkipTwice(next);
      SkipThenAppend(next, Flatten(chunks[1..]));
      RunSkips(ReadDevice, SkipToCommand(next) + Flatten(chunks[1..]), next + Flatten(chunks[1..]));
      RunInPieces(ReadDevice, buf + chunks[0], Flatten(chunks[1..]));
      FedMessages(buf, chunks[0]);
      assert buf + Flatten(chunks) == (buf + chunks[0]) + Flatten(chunks[1..]);
    }
  }

  lemma FedMessages(buf: seq<Octet>, chunk: seq<Octet>)
    ensures Bounded(ReadDevice) && Fed(buf, chunk).0 == Run(ReadDevice, buf + chunk).0
  {
    DeviceReader();
    hide ReadDevice, Run, Tail, Kept, Bounded;
  }

  // ---------- the buffer stays bounded ----------

  lemma PartialIsShort(buf: seq<Octet>)
    requires ReadDevice(buf).NeedMore?
    ensures |buf| < HEADER + 64
  {
    hide FrameOf, ReplyOf;
  }

  /** Whatever arrives, no more than the noise bound is kept. */
  lemma BufferBounded(buf: seq<Octet>, chunk: seq<Octet>)
    ensures |Fed(buf, chunk).1| <= MAX_RESYNC_BYTES
  {
    DeviceReader();
    hide SkipToCommand, ReadDevice, Bounded, Run, Tail, Steady;
    TailLeaves(ReadDevice, buf + chunk);
    PartialIsShort(SkipToCommand(Tail(ReadDevice, buf + chunk)));
  }

  // ---------- a device's own messages come back ----------

  /** What the device end is asked to write. */
  datatype Reply =
    | Captured(tsUs: U32, arbId: U32, extended: bool, bus: Octet, data: seq<Octet>, isFd: bool)
    | TimebaseReply(us: U32)
    | ParamsReply(busCount: Octet, speeds: seq<U32>)
    | InfoReply
    | KeepaliveReply
    | BusesReply(n: Octet)
  {
    function Wire(): seq<Octet> {
      match this
      case Captured(tsUs, arbId, extended, bus, data, isFd) => EncodeFrame(tsUs, arbId, extended, bus, data, isFd)
      case TimebaseReply(us) => EncodeTimebase(us)
      case ParamsReply(busCount, speeds) => EncodeCanbusParams(busCount, speeds)
      case InfoReply => EncodeDevInfo()
      case KeepaliveReply => EncodeKeepalive()
      case BusesReply(n) => EncodeNumBuses(n)
    }

    /** What the host should hear: ids at their own width, four bits of bus, payload padded to its code. */
    function Heard(): DeviceMessage {
      match this
      case Captured(tsUs, arbId, extended, bus, data, isFd) =>
        var dlc := PayloadDlc(|data|, isFd);
        Frame(tsUs, bus % 16, MaskedId(arbId, extended), extended, dlc, Padded(data, DlcToLen(dlc, isFd)))
      case TimebaseReply(us) => Timebase(us)
      case ParamsReply(busCount, speeds) =>
        CanbusParams(busCount > 0, busCount > 1, SpeedOf(busCount, speeds, 0), SpeedOf(busCount, speeds, 1))
      case InfoReply => DevInfo(400, 1, 0, 0, 0)
      case KeepaliveReply => Keepalive
      case BusesReply(n) => NumBuses(n)
    }
  }

  lemma PackBusRoundTrip(bus: Octet, dlc: nat)
    requires dlc < 16
    ensures PackBus(bus, dlc) / 16 == bus % 16 && PackBus(bus, dlc) % 16 == dlc
  {
  }

  /** A captured frame is read back whole, all but the checksum byte behind it. */
  lemma FrameRead(tsUs: U32, arbId: U32, extended: bool, bus: Octet, data: seq<Octet>, isFd: bool)
    ensures var wire := EncodeFrame(tsUs, arbId, extended, bus, data, isFd);
            && ReadDevice(wire) == Consume(Some(Captured(tsUs, arbId, extended, bus, data, isFd).Heard()), |wire| - 1)
            && wire[|wire| - 1..] == [0]
  {
    var dlc := PayloadDlc(|data|, isFd);
    var len := DlcToLen(dlc, isFd);
    var id := MakeId(arbId, extended);
    PayloadFits(|data|, isFd);
    PackBusRoundTrip(bus, dlc);
    LittleEndianRoundTrip(tsUs);
    LittleEndianRoundTrip(id);
    IdRoundTrip(arbId, extended);
    hide DlcToLen, PayloadDlc, PackBus, MakeId, MaskedId, SplitId, Byte0, Byte1, Byte2, Byte3, LittleEndian, Padded;
    var wire := EncodeFrame(tsUs, arbId, extended, bus, data, isFd);
    assert wire[..HEADER + len][HEADER..] == Padded(data, len);
  }

  lemma ReplyRead(reply: Reply)
    requires !reply.Captured?
    ensures ReadDevice(reply.Wire()) == Consume(Some(reply.Heard()), |reply.Wire()|)
    ensures reply.Wire()[0] == CMD
  {
    hide Byte0, Byte1, Byte2, Byte3, LittleEndian, SpeedOf;
    match reply
    case TimebaseReply(us) => ByteWise(us);
    case ParamsReply(busCount, speeds) =>
      ByteWise(SpeedOf(busCount, speeds, 0));
      ByteWise(SpeedOf(busCount, speeds, 1));
    case InfoReply => BuildNumber();
    case _ =>
  }

  lemma ByteWise(w: U32)
    ensures LittleEndian(Byte0(w), Byte1(w), Byte2(w), Byte3(w)) == w
  {
    LittleEndianRoundTrip(w);
  }

  lemma BuildNumber()
    ensures LittleEndian(0x90, 0x01, 0, 0) == 400
  {
  }

  /** Whichever reply it is, the host takes it whole but for a byte that starts nothing. */
  lemma ReplyTaken(reply: Reply) returns (n: nat)
    ensures reply.Wire() != [] && reply.Wire()[0] == CMD
    ensures n <= |reply.Wire()| && NoCommand(reply.Wire()[n..])
    ensures ReadDevice(reply.Wire()) == Consume(Some(reply.Heard()), n)
  {
    hide ReadDevice, NoCommand;
    match reply
    case Captured(tsUs, arbId, extended, bus, data, isFd) =>
      FrameRead(tsUs, arbId, extended, bus, data, isFd);
      n := |reply.Wire()| - 1;
      ChecksumIsNoise();
    case _ =>
      ReplyRead(reply);
      n := |reply.Wire()|;
      NothingBehind(reply.Wire());
  }

  lemma ChecksumIsNoise()
    ensures NoCommand([0])
  {
  }

  lemma ReplyReadable(item: Item<DeviceMessage>, reply: Reply)
    requires NoCommand(item.noise) && item.wire == reply.Wire() && item.msg == reply.Heard()
    ensures Readable(ReadDevice, item)
  {
    hide ReadDevice, NoCommand, Reply.Wire, Reply.Heard;
    var n := ReplyTaken(reply);
    assert TakenWith(ReadDevice, item, n);
  }

  /** A run of replies on the wire, with noise before each. */
  function Written(replies: seq<Reply>, noises: seq<seq<Octet>>): seq<Item<DeviceMessage>>
    requires |noises| == |replies|
  {
    if replies == [] then []
    else [Item(noises[0], replies[0].Wire(), replies[0].Heard())] + Written(replies[1..], noises[1..])
  }

  function AllHeard(replies: seq<Reply>): seq<DeviceMessage> {
    if replies == [] then [] else [replies[0].Heard()] + AllHeard(replies[1..])
  }

  lemma {:induction false} WrittenReadable(replies: seq<Reply>, noises: seq<seq<Octet>>)
    requires |noises| == |replies|
    requires forall i :: 0 <= i < |noises| ==> NoCommand(noises[i])
    ensures var items := Written(replies, noises);
            && Messages(items) == AllHeard(replies)
            && forall i :: 0 <= i < |items| ==> Readable(ReadDevice, items[i])
  {
    hide Readable, NoCommand, Reply.Wire, Reply.Heard;
    if replies != [] {
      ReplyReadable(Item(noises[0], replies[0].Wire(), replies[0].Heard()), replies[0]);
      WrittenReadable(replies[1..], noises[1..]);
    }
  }

  /**
   Whatever replies a device writes, with whatever noise between them, a fresh decoder hears
   exactly those replies however the bytes arrive, and is left with nothing but noise.
   */
  lemma DeviceRoundTrip(replies: seq<Reply>, noises: seq<seq<Octet>>, last: seq<Octet>, chunks: seq<seq<Octet>>)
    requires |noises| == |replies|
    requires forall i :: 0 <= i < |noises| ==> NoCommand(noises[i])
    requires NoCommand(last)
    requires Flatten(chunks) == Stream(Written(replies, noises), last)
    ensures FedAll([], chunks).0 == AllHeard(replies)
    ensures NoCommand(FedAll([], chunks).1)
  {
    DeviceReader();
    WrittenReadable(replies, noises);
    AnyChunking([], chunks);
    RunStream(ReadDevice, Written(replies, noises), last);
    hide ReadDevice, Readable, Bounded, Steady, Run, Written, AllHeard;
    assert [] + Flatten(chunks) == Flatten(chunks);
  }
}
