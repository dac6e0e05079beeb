/** SLCAN lines: printing and parsing a frame, and framing a device's byte stream into lines. */
module Slcan {
  import opened Common
  import opened Numbers
  import opened Bits
  import opened Sequences
  import opened Dlc
  import opened Gvret

  const BELL: Octet := 0x07
  const CR: Octet := 0x0D
  const LF: Octet := 0x0A
  const PLUS: Octet := 0x2B
  const MAX_LINE_BYTES := 512

  /** `dlc` is the data length code; a remote request has a code and no payload. */
  datatype SlcanFrame = SlcanFrame(
    arbId: U32, extended: bool, rtr: bool, fd: bool, brs: bool, dlc: Octet, data: seq<Octet>)

  // ---------- hexadecimal ----------

  function HexDigit(n: nat): Octet
    requires n < 16
  {
    if n < 10 then 48 + n else 55 + n
  }

  /** Either case is a digit. */
  function DigitValue(b: Octet): (v: Option<nat>)
    ensures v.Some? ==> v.value < 16
  {
    if 48 <= b <= 57 then Some(b - 48)
    else if 65 <= b <= 70 then Some(b - 55)
    else if 97 <= b <= 102 then Some(b - 87)
    else None
  }

  function Pow16(n: nat): nat { if n == 0 then 1 else 16 * Pow16(n - 1) }

  function HexValue(digits: seq<Octet>): (v: Option<nat>)
    ensures v.Some? ==> v.value < Pow16(|digits|)
  {
    if digits == [] then Some(0)
    else
      var n := |digits| - 1;
      match (HexValue(digits[..n]), DigitValue(digits[n]))
      case (Some(high), Some(low)) => Some(16 * high + low)
      case _ => None
  }

  /** Digits with an optional plus sign in front. */
  function FromRadix(s: seq<Octet>): (v: Option<nat>)
    ensures v.Some? ==> v.value < Pow16(|s|)
  {
    if s == [] || s == [PLUS] then None
    else if s[0] == PLUS then HexValue(s[1..])
    else HexValue(s)
  }

  function HexDigits(v: nat, count: nat): (r: seq<Octet>)
    ensures |r| == count
  {
    if count == 0 then [] else HexDigits(v / 16, count - 1) + [HexDigit(v % 16)]
  }

  // ---------- printing ----------

  const PREFIX_DATA: Octet := 0x74
  const PREFIX_REMOTE: Octet := 0x72
  const PREFIX_FD: Octet := 0x64
  const PREFIX_FD_BRS: Octet := 0x62

  /** All four flags live in the first character: upper case for an extended id. */
  function Prefix(f: SlcanFrame): Octet {
    var c :=
      if f.rtr then PREFIX_REMOTE
      else if f.fd then (if f.brs then PREFIX_FD_BRS else PREFIX_FD)
      else PREFIX_DATA;
    if f.extended then c - 32 else c
  }

  function IdDigits(extended: bool): nat { if extended then 8 else 3 }

  function PayloadLength(f: SlcanFrame): nat { if f.rtr then 0 else DlcToLen(f.dlc, f.fd) }

  function HexBytes(data: seq<Octet>): (r: seq<Octet>)
    ensures |r| == 2 * |data|
  {
    if data == [] then [] else [HexDigit(data[0] / 16), HexDigit(data[0] % 16)] + HexBytes(data[1..])
  }

  /** A frame's line without its terminator, the payload zero-padded up to what the code claims. */
  function Print(f: SlcanFrame): seq<Octet> {
    [Prefix(f)]
    + HexDigits(MaskedId(f.arbId, f.extended), IdDigits(f.extended))
    + [HexDigit(f.dlc % 16)]
    + HexBytes(Padded(f.data, PayloadLength(f)))
  }

  lemma {:induction false} HexDigitAt(v: nat, count: nat, i: nat)
    requires i < count
    ensures HexDigits(v, count)[i] == HexDigit(ShiftRight(v, 4 * (count - 1 - i)) % 16)
    decreases count
  {
    if i < count - 1 {
      HexDigitAt(v / 16, count - 1, i);
      FourMore(v, 4 * (count - 2 - i));
    }
  }

  lemma FourMore(v: nat, s: nat)
    ensures ShiftRight(v, s + 4) == ShiftRight(v / 16, s)
  {
    assert ShiftRight(v, s + 4) == ShiftRight(v / 2, s + 3) == ShiftRight(v / 4, s + 2);
    assert ShiftRight(v / 4, s + 2) == ShiftRight(v / 8, s + 1) == ShiftRight(v / 16, s);
  }

  lemma HexBytesAppend(data: seq<Octet>, b: Octet)
    ensures HexBytes(data + [b]) == HexBytes(data) + [HexDigit(b / 16), HexDigit(b % 16)]
  {
    if data == [] {
      assert data + [b] == [b] && [b][1..] == [];
    } else {
      assert (data + [b])[1..] == data[1..] + [b];
      HexBytesAppend(data[1..], b);
    }
  }

  /** Append a number's digits, the most significant first. */
  method PushDigits(start: seq<Octet>, id: nat, digits: nat) returns (out: seq<Octet>)
    ensures out == start + HexDigits(id, digits)
  {
    hide HexDigit, ShiftRight;
    ghost var spelled := HexDigits(id, digits);
    out := start;
    var i := 0;
    while i < digits
      invariant 0 <= i <= digits && out == start + spelled[..i]
    {
      HexDigitAt(id, digits, i);
      assert spelled[..i + 1] == spelled[..i] + [spelled[i]];
      out := out + [HexDigit(ShiftRight(id, 4 * (digits - 1 - i)) % 16)];
      i := i + 1;
    }
    assert spelled[..i] == spelled;
  }

  /** Append a payload's bytes, zeros where it runs out. */
  method PushPayload(start: seq<Octet>, data: seq<Octet>, len: nat) returns (out: seq<Octet>)
    ensures out == start + HexBytes(Padded(data, len))
  {
    hide HexDigit;
    ghost var payload := Padded(data, len);
    out := start;
    var i := 0;
    while i < len
      invariant 0 <= i <= len && out == start + HexBytes(payload[..i])
    {
      var byte := if i < |data| then data[i] else 0;
      HexBytesAppend(payload[..i], byte);
      assert payload[..i + 1] == payload[..i] + [byte];
      out := out + [HexDigit(byte / 16), HexDigit(byte % 16)];
      i := i + 1;
    }
    assert payload[..i] == payload;
  }

  /** Append a frame's line to a buffer, terminator included. */
  method EncodeFrameInto(start: seq<Octet>, f: SlcanFrame) returns (out: seq<Octet>)
    ensures out == start + (Print(f) + [CR])
  {
    hide HexDigit, Prefix, DlcToLen, MaskedId;
    out := start + [Prefix(f)];
    out := PushDigits(out, MaskedId(f.arbId, f.extended), IdDigits(f.extended));
    out := out + [HexDigit(f.dlc % 16)];
    out := PushPayload(out, f.data, PayloadLength(f));
    out := out + [CR];
  }

  // ---------- parsing ----------

  datatype Flags = Flags(extended: bool, rtr: bool, fd: bool, brs: bool)

  function FlagsOf(prefix: Octet): Option<Flags> {
    if prefix == PREFIX_DATA then Some(Flags(false, false, false, false))
    else if prefix == PREFIX_DATA - 32 then Some(Flags(true, false, false, false))
    else if prefix == PREFIX_REMOTE then Some(Flags(false, true, false, false))
    else if prefix == PREFIX_REMOTE - 32 then Some(Flags(true, true, false, false))
    else if prefix == PREFIX_FD then Some(Flags(false, false, true, false))
    else if prefix == PREFIX_FD - 32 then Some(Flags(true, false, true, false))
    else if prefix == PREFIX_FD_BRS then Some(Flags(false, false, true, true))
    else if prefix == PREFIX_FD_BRS - 32 then Some(Flags(true, false, true, true))
    else None
  }

  /** `line[from..to]`, when the line reaches that far. */
  function Slice(line: seq<Octet>, from: nat, to: nat): (r: Option<seq<Octet>>)
    requires from <= to
    ensures r.Some? ==> |r.value| == to - from
  {
    if to <= |line| then Some(line[from..to]) else None
  }

  function FromHexBytes(hex: seq<Octet>): (r: Option<seq<Octet>>)
    requires |hex| % 2 == 0
    ensures r.Some? ==> 2 * |r.value| == |hex|
  {
    if hex == [] then Some([])
    else
      assert Pow16(2) == 256;
      match (FromRadix(hex[..2]), FromHexBytes(hex[2..]))
      case (Some(b), Some(rest)) => Some([b] + rest)
      case _ => None
  }

  /** The id, as wide as the prefix says. */
  function ParseId(line: seq<Octet>, extended: bool): Option<U32> {
    var digits := IdDigits(extended);
    match Slice(line, 1, 1 + digits)
    case None => None
    case Some(s) =>
      assert Pow16(3) == 0x1000 && Pow16(8) == Pow16(3) * 0x10_0000;
      FromRadix(s)
  }

  function ParseCode(line: seq<Octet>, at: nat): (v: Option<nat>)
    ensures v.Some? ==> v.value < 16
  {
    if at < |line| then DigitValue(line[at]) else None
  }

  function ParsePayload(line: seq<Octet>, at: nat, len: nat): Option<seq<Octet>> {
    match Slice(line, at, at + 2 * len)
    case None => None
    case Some(hex) => FromHexBytes(hex)
  }

  /** One line as a frame; what lies behind the payload is not looked at. */
  function ParseFrame(line: seq<Octet>): Option<SlcanFrame> {
    if line == [] then None
    else
      match FlagsOf(line[0])
      case None => None
      case Some(flags) =>
        var idEnd := 1 + IdDigits(flags.extended);
        match (ParseId(line, flags.extended), ParseCode(line, idEnd))
        case (Some(id), Some(dlc)) =>
          if !flags.fd && dlc > 8 then None
          else
            var len := if flags.rtr then 0 else DlcToLen(dlc, flags.fd);
            (match ParsePayload(line, idEnd + 1, len)
             case None => None
             case Some(data) => Some(SlcanFrame(id, flags.extended, flags.rtr, flags.fd, flags.brs, dlc, data)))
        case _ => None
  }

  // ---------- framing ----------

  datatype Line = FrameLine(frame: SlcanFrame) | Reply(text: seq<Octet>)

  function Read(text: seq<Octet>): Line {
    match ParseFrame(text) case Some(f) => FrameLine(f) case None => Reply(text)
  }

  predicate Printable(b: Octet) { 32 <= b <= 126 }

  predicate Ends(b: Octet) { b == CR || b == LF }

  /** What one byte completes, and the line in progress behind it. */
  function FeedByte(buf: seq<Octet>, b: Octet): (seq<Octet>, seq<Line>) {
    if Ends(b) then ([], if buf == [] then [] else [Read(buf)])
    else if b == BELL then ([], [])
    else if Printable(b) then (if |buf| + 1 > MAX_LINE_BYTES then [] else buf + [b], [])
    else (buf, [])
  }

  function FeedAll(buf: seq<Octet>, bytes: seq<Octet>): (seq<Octet>, seq<Line>)
    decreases |bytes|
  {
    if bytes == [] then (buf, [])
    else
      var (next, lines) := FeedByte(buf, bytes[0]);
      var (final, more) := FeedAll(next, bytes[1..]);
      (final, lines + more)
  }

  class LineDecoder {
    var buf: seq<Octet>

    constructor ()
      ensures buf == []
    {
      buf := [];
    }

    method Feed(chunk: seq<Octet>) returns (out: seq<Line>)
      modifies this
      ensures (buf, out) == FeedAll(old(buf), chunk)
    {
      hide ParseFrame;
      out := [];
      ghost var first := buf;
      var i := 0;
      FedStart(first, chunk);
      while i < |chunk|
        invariant 0 <= i <= |chunk|
        invariant Fed(first, chunk, out, buf, chunk[i..])
      {
        hide Fed;
        var byte := chunk[i];
        ghost var before, sofar := buf, out;
        assert chunk[i..][0] == byte && chunk[i..][1..] == chunk[i + 1..];
        if Ends(byte) {
          if buf != [] {
            out := out + [match ParseFrame(buf) case Some(f) => FrameLine(f) case None => Reply(buf)];
            buf := [];
          }
        } else if byte == BELL {
          buf := [];
        } else if Printable(byte) {
          buf := buf + [byte];
          if |buf| > MAX_LINE_BYTES {
            buf := [];
          }
        }
        assert out == sofar + FeedByte(before, byte).1;
        FedOne(first, chunk, sofar, before, chunk[i..]);
        i := i + 1;
      }
      assert chunk[i..] == [] && out + [] == out;
    }
  }

  /** The lines so far, and what the rest still completes, are what the whole chunk completes. */
  ghost predicate Fed(first: seq<Octet>, chunk: seq<Octet>, out: seq<Line>, buf: seq<Octet>, rest: seq<Octet>) {
    FeedAll(first, chunk) == (FeedAll(buf, rest).0, out + FeedAll(buf, rest).1)
  }

  lemma FedStart(first: seq<Octet>, chunk: seq<Octet>)
    ensures Fed(first, chunk, [], first, chunk[0..])
  {
    hide FeedAll;
    assert chunk[0..] == chunk && [] + FeedAll(first, chunk).1 == FeedAll(first, chunk).1;
  }

  lemma FedOne(first: seq<Octet>, chunk: seq<Octet>, out: seq<Line>, buf: seq<Octet>, rest: seq<Octet>)
    requires rest != [] && Fed(first, chunk, out, buf, rest)
    ensures var (next, lines) := FeedByte(buf, rest[0]); Fed(first, chunk, out + lines, next, rest[1..])
  {
    hide FeedByte;
    var (next, lines) := FeedByte(buf, rest[0]);
    AppendAssociative(out, lines, FeedAll(next, rest[1..]).1);
  }
}
