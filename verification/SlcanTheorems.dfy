/** What is printed is what is parsed, and a device's lines come through whatever lies between them. */
module SlcanTheorems {
  import opened Common
  import opened Sequences
  import opened Dlc
  import opened Gvret
  import opened Slcan

  // ---------- digits ----------

  lemma DigitBack(n: nat)
    requires n < 16
    ensures DigitValue(HexDigit(n)) == Some(n) && Printable(HexDigit(n)) && HexDigit(n) != PLUS
  {
  }

  lemma {:induction false} HexBack(v: nat, count: nat)
    requires v < Pow16(count)
    ensures HexValue(HexDigits(v, count)) == Some(v)
    decreases count
  {
    hide HexDigit, DigitValue;
    if count > 0 {
      HexBack(v / 16, count - 1);
      DigitBack(v % 16);
      var digits := HexDigits(v, count);
      assert digits[..count - 1] == HexDigits(v / 16, count - 1);
    }
  }

  predicate AllDigits(s: seq<Octet>) {
    forall i :: 0 <= i < |s| ==> Printable(s[i]) && s[i] != PLUS
  }

  lemma {:induction false} HexDigitsAreDigits(v: nat, count: nat)
    ensures AllDigits(HexDigits(v, count))
    decreases count
  {
    hide HexDigit;
    if count > 0 {
      HexDigitsAreDigits(v / 16, count - 1);
      DigitBack(v % 16);
    }
  }

  lemma RadixBack(v: nat, count: nat)
    requires 0 < count && v < Pow16(count)
    ensures FromRadix(HexDigits(v, count)) == Some(v)
  {
    hide HexDigits, HexValue;
    HexBack(v, count);
    HexDigitsAreDigits(v, count);
    assert HexDigits(v, count)[0] != PLUS;
  }

  lemma ByteBack(b: Octet)
    ensures FromRadix([HexDigit(b / 16), HexDigit(b % 16)]) == Some(b)
  {
    RadixBack(b, 2);
    hide HexDigit, FromRadix;
    assert HexDigits(b, 2) == HexDigits(b / 16, 1) + [HexDigit(b % 16)];
    assert HexDigits(b / 16, 1) == HexDigits(b / 16 / 16, 0) + [HexDigit(b / 16 % 16)];
    assert b / 16 % 16 == b / 16;
    assert HexDigits(b, 2) == [HexDigit(b / 16), HexDigit(b % 16)];
  }

  lemma {:induction false} BytesBack(data: seq<Octet>)
    ensures FromHexBytes(HexBytes(data)) == Some(data)
  {
    hide HexDigit, FromRadix;
    if data != [] {
      ByteBack(data[0]);
      BytesBack(data[1..]);
      var hex := HexBytes(data);
      assert hex[..2] == [HexDigit(data[0] / 16), HexDigit(data[0] % 16)];
      assert hex[2..] == HexBytes(data[1..]);
      assert [data[0]] + data[1..] == data;
    }
  }

  lemma {:induction false} HexBytesAreDigits(data: seq<Octet>)
    ensures AllDigits(HexBytes(data))
  {
    hide HexDigit;
    if data != [] {
      DigitBack(data[0] / 16);
      DigitBack(data[0] % 16);
      HexBytesAreDigits(data[1..]);
    }
  }

  // ---------- print then parse ----------

  function FlagsSent(f: SlcanFrame): Flags {
    Flags(f.extended, f.rtr, f.fd && !f.rtr, f.brs && f.fd && !f.rtr)
  }

  lemma PrefixBack(f: SlcanFrame)
    ensures FlagsOf(Prefix(f)) == Some(FlagsSent(f)) && Printable(Prefix(f))
  {
  }

  /** What a line says of a frame: its id at its own width, and its payload padded to its code. */
  function Sent(f: SlcanFrame): SlcanFrame {
    var flags := FlagsSent(f);
    SlcanFrame(MaskedId(f.arbId, f.extended), flags.extended, flags.rtr, flags.fd, flags.brs, f.dlc % 16,
               Padded(f.data, PayloadLength(f)))
  }

  /** Only CAN FD data frames have codes above 8. */
  predicate Sendable(f: SlcanFrame) { (f.fd && !f.rtr) || f.dlc % 16 <= 8 }

  lemma IdFits(f: SlcanFrame)
    ensures MaskedId(f.arbId, f.extended) < Pow16(IdDigits(f.extended))
  {
    assert Pow16(3) == 0x1000 && Pow16(8) == Pow16(3) * 0x10_0000;
  }

  /** The pieces of a printed line are where the parser looks for them. */
  lemma PrintedPieces(f: SlcanFrame)
    ensures var line, n := Print(f), IdDigits(f.extended);
            && |line| == 2 + n + 2 * PayloadLength(f)
            && line[0] == Prefix(f)
            && line[1..1 + n] == HexDigits(MaskedId(f.arbId, f.extended), n)
            && line[1 + n] == HexDigit(f.dlc % 16)
            && line[2 + n..] == HexBytes(Padded(f.data, PayloadLength(f)))
  {
    hide HexDigit, Prefix, HexDigits, HexBytes, Padded, MaskedId, DlcToLen;
  }

  lemma ParsesId(f: SlcanFrame)
    ensures ParseId(Print(f), f.extended) == Some(MaskedId(f.arbId, f.extended))
  {
    PrintedPieces(f);
    IdFits(f);
    RadixBack(MaskedId(f.arbId, f.extended), IdDigits(f.extended));
    hide Print, HexDigits, FromRadix, MaskedId, Pow16;
  }

  lemma ParsesCode(f: SlcanFrame)
    ensures ParseCode(Print(f), 1 + IdDigits(f.extended)) == Some((f.dlc % 16) as nat)
  {
    PrintedPieces(f);
    DigitBack(f.dlc % 16);
    hide Print, HexDigit, DigitValue;
  }

  lemma ParsesPayload(f: SlcanFrame)
    ensures ParsePayload(Print(f), 2 + IdDigits(f.extended), PayloadLength(f)) == Some(Padded(f.data, PayloadLength(f)))
  {
    PrintedPieces(f);
    BytesBack(Padded(f.data, PayloadLength(f)));
    hide Print, HexBytes, FromHexBytes, DlcToLen;
    var line, at, n := Print(f), 2 + IdDigits(f.extended), PayloadLength(f);
    assert line[at..at + 2 * n] == line[at..];
  }

  lemma LengthByCode(f: SlcanFrame)
    ensures PayloadLength(f) == if f.rtr then 0 else DlcToLen(f.dlc % 16, f.fd && !f.rtr)
  {
  }

  /** A printed frame parses as what was sent of it; a classic code above 8 does not parse at all. */
  lemma PrintThenParse(f: SlcanFrame)
    ensures ParseFrame(Print(f)) == if Sendable(f) then Some(Sent(f)) else None
  {
    PrefixBack(f);
    PrintedPieces(f);
    ParsesId(f);
    ParsesCode(f);
    ParsesPayload(f);
    LengthByCode(f);
    hide Print, ParseId, ParseCode, ParsePayload, MaskedId, Padded, DlcToLen, Prefix, FlagsOf, PayloadLength;
  }

  /** A printed line is printable throughout and never too long to be read. */
  lemma PrintedLine(f: SlcanFrame)
    ensures 5 <= |Print(f)| <= 138
    ensures forall i :: 0 <= i < |Print(f)| ==> Printable(Print(f)[i])
  {
    PrefixBack(f);
    PrintedPieces(f);
    HexDigitsAreDigits(MaskedId(f.arbId, f.extended), IdDigits(f.extended));
    HexBytesAreDigits(Padded(f.data, PayloadLength(f)));
    DigitBack(f.dlc % 16);
    LengthAtMost(f);
    hide HexDigits, HexBytes, HexDigit, Prefix, MaskedId, Padded, DlcToLen, PayloadLength;
  }

  lemma LengthAtMost(f: SlcanFrame)
    ensures PayloadLength(f) <= 64
  {
  }

  // ---------- the decoder, a byte at a time ----------

  /** Reading in two pieces is reading at once, wherever the cut. */
  lemma {:induction false} FeedInPieces(buf: seq<Octet>, a: seq<Octet>, b: seq<Octet>)
    ensures var (left, lines) := FeedAll(buf, a);
            var (final, more) := FeedAll(left, b);
            FeedAll(buf, a + b) == (final, lines + more)
    decreases |a|
  {
    hide FeedByte;
    if a == [] {
      assert a + b == b && [] + FeedAll(buf, b).1 == FeedAll(buf, b).1;
    } else {
      var (next, lines) := FeedByte(buf, a[0]);
      FeedInPieces(next, a[1..], b);
      assert (a + b)[1..] == a[1..] + b;
      AppendAssociative(lines, FeedAll(next, a[1..]).1, FeedAll(FeedAll(next, a[1..]).0, b).1);
    }
  }

  function FeedChunks(buf: seq<Octet>, chunks: seq<seq<Octet>>): (seq<Octet>, seq<Line>)
    decreases |chunks|
  {
    if chunks == [] then (buf, [])
    else
      var (next, lines) := FeedAll(buf, chunks[0]);
      var (final, more) := FeedChunks(next, chunks[1..]);
      (final, lines + more)
  }

  lemma {:induction false} AnyChunking(buf: seq<Octet>, chunks: seq<seq<Octet>>)
    ensures FeedChunks(buf, chunks) == FeedAll(buf, Flatten(chunks))
    decreases |chunks|
  {
    hide FeedAll;
    if chunks == [] {
      FeedNothing(buf);
    } else {
      FeedInPieces(buf, chunks[0], Flatten(chunks[1..]));
      AnyChunking(FeedAll(buf, chunks[0]).0, chunks[1..]);
    }
  }

  lemma FeedNothing(buf: seq<Octet>)
    ensures FeedAll(buf, []) == (buf, [])
  {
  }

  /** The line in progress never outgrows the limit. */
  lemma {:induction false} LineBounded(buf: seq<Octet>, bytes: seq<Octet>)
    requires |buf| <= MAX_LINE_BYTES
    ensures |FeedAll(buf, bytes).0| <= MAX_LINE_BYTES
    decreases |bytes|
  {
    hide Read;
    if bytes != [] {
      LineBounded(FeedByte(buf, bytes[0]).0, bytes[1..]);
    }
  }

  // ---------- bytes that are dropped ----------

  /** Neither printable, nor a terminator, nor a bell. */
  predicate Dropped(b: Octet) { !Ends(b) && b != BELL && !Printable(b) }

  function Heard(bytes: seq<Octet>): seq<Octet> {
    if bytes == [] then []
    else (if Dropped(bytes[0]) then [] else [bytes[0]]) + Heard(bytes[1..])
  }

  /** Control and non-ASCII bytes make no difference, wherever in a line they fall. */
  lemma {:induction false} DroppedBytesDoNotMatter(buf: seq<Octet>, bytes: seq<Octet>)
    ensures FeedAll(buf, bytes) == FeedAll(buf, Heard(bytes))
    decreases |bytes|
  {
    hide Read;
    if bytes != [] {
      DroppedBytesDoNotMatter(FeedByte(buf, bytes[0]).0, bytes[1..]);
      if Dropped(bytes[0]) {
        assert [] + FeedAll(buf, bytes[1..]).1 == FeedAll(buf, bytes[1..]).1;
        assert Heard(bytes) == Heard(bytes[1..]);
      } else {
        assert Heard(bytes)[1..] == Heard(bytes[1..]);
      }
    }
  }

  // ---------- a device's stream ----------

  predicate Text(s: seq<Octet>) { |s| <= MAX_LINE_BYTES && forall i :: 0 <= i < |s| ==> Printable(s[i]) }

  /** What a device sends between one terminator and the next. */
  datatype Segment =
    | PrintedFrame(frame: SlcanFrame)
    | Spoken(text: seq<Octet>)
    | Blank
    | Rung(discarded: seq<Octet>)
  {
    ghost predicate Valid() {
      match this
      case PrintedFrame(f) => Sendable(f)
      case Spoken(text) => text != [] && Text(text) && ParseFrame(text) == None
      case Blank => true
      case Rung(discarded) => Text(discarded)
    }

    /** A line and its terminator, a bare terminator, or a line that a bell cuts short. */
    function Bytes(ending: Octet): seq<Octet> {
      match this
      case PrintedFrame(f) => Print(f) + [ending]
      case Spoken(text) => text + [ending]
      case Blank => [ending]
      case Rung(discarded) => discarded + [BELL]
    }

    function Lines(): seq<Line> {
      match this
      case PrintedFrame(f) => [FrameLine(Sent(f))]
      case Spoken(text) => [Reply(text)]
      case Blank => []
      case Rung(_) => []
    }
  }

  lemma {:induction false} FeedText(buf: seq<Octet>, text: seq<Octet>)
    requires |buf| + |text| <= MAX_LINE_BYTES && forall i :: 0 <= i < |text| ==> Printable(text[i])
    ensures FeedAll(buf, text) == (buf + text, [])
    decreases |text|
  {
    hide FeedByte, Printable;
    if text == [] {
      AppendNothing(buf);
    } else {
      FeedPrintable(buf, text[0]);
      FeedText(buf + [text[0]], text[1..]);
      AppendNothing<Line>([]);
      AppendAssociative(buf, [text[0]], text[1..]);
      assert [text[0]] + text[1..] == text;
    }
  }

  lemma FeedPrintable(buf: seq<Octet>, b: Octet)
    requires |buf| < MAX_LINE_BYTES && Printable(b)
    ensures FeedByte(buf, b) == (buf + [b], [])
  {
    hide Read;
  }

  lemma FeedOneByte(buf: seq<Octet>, b: Octet)
    ensures FeedAll(buf, [b]) == FeedByte(buf, b)
  {
    hide FeedByte;
    assert [b][1..] == [] && FeedByte(buf, b).1 + [] == FeedByte(buf, b).1;
  }

  lemma FeedLine(text: seq<Octet>, last: Octet)
    requires Text(text)
    ensures FeedAll([], text + [last]) == FeedByte(text, last)
  {
    hide FeedByte, Read;
    FeedText([], text);
    assert [] + text == text;
    FeedInPieces([], text, [last]);
    FeedOneByte(text, last);
    assert [] + FeedByte(text, last).1 == FeedByte(text, last).1;
  }

  lemma FeedSegment(s: Segment, ending: Octet)
    requires s.Valid() && Ends(ending)
    ensures FeedAll([], s.Bytes(ending)) == ([], s.Lines())
  {
    hide ParseFrame, FeedAll, Print, Sent, Sendable;
    match s
    case PrintedFrame(f) =>
      PrintedLine(f);
      PrintThenParse(f);
      FeedLine(Print(f), ending);
    case Spoken(text) =>
      FeedLine(text, ending);
    case Blank =>
      FeedOneByte([], ending);
    case Rung(discarded) =>
      FeedLine(discarded, BELL);
  }

  function StreamOf(segments: seq<Segment>, endings: seq<Octet>): seq<Octet>
    requires |endings| == |segments|
  {
    if segments == [] then [] else segments[0].Bytes(endings[0]) + StreamOf(segments[1..], endings[1..])
  }

  function LinesOf(segments: seq<Segment>): seq<Line> {
    if segments == [] then [] else segments[0].Lines() + LinesOf(segments[1..])
  }

  lemma {:induction false} FeedSegments(segments: seq<Segment>, endings: seq<Octet>)
    requires |endings| == |segments|
    requires forall i :: 0 <= i < |segments| ==> segments[i].Valid() && Ends(endings[i])
    ensures FeedAll([], StreamOf(segments, endings)) == ([], LinesOf(segments))
    decreases |segments|
  {
    hide FeedAll, Segment.Valid, Segment.Bytes, Segment.Lines, Ends;
    if segments == [] {
      FeedNothing([]);
    } else {
      FeedSegment(segments[0], endings[0]);
      FeedSegments(segments[1..], endings[1..]);
      FeedInPieces([], segments[0].Bytes(endings[0]), StreamOf(segments[1..], endings[1..]));
    }
  }

  /**
   Printed frames, replies, bare terminators and lines cut short by a bell, in any order, with
   control and non-ASCII bytes strewn anywhere and cut up anyhow: the decoder hands back
   exactly the frames and the replies, in order, and keeps nothing.
   */
  lemma StreamThrough(segments: seq<Segment>, endings: seq<Octet>, chunks: seq<seq<Octet>>)
    requires |endings| == |segments|
    requires forall i :: 0 <= i < |segments| ==> segments[i].Valid() && Ends(endings[i])
    requires Heard(Flatten(chunks)) == StreamOf(segments, endings)
    ensures FeedChunks([], chunks) == ([], LinesOf(segments))
  {
    hide FeedAll, Heard, StreamOf, LinesOf, FeedChunks;
    AnyChunking([], chunks);
    DroppedBytesDoNotMatter([], Flatten(chunks));
    FeedSegments(segments, endings);
  }

  /** A line given up on leaves no trace: what follows it is read as a line of its own. */
  lemma OverlongForgotten(text: seq<Octet>, rest: seq<Octet>)
    requires |text| == MAX_LINE_BYTES + 1 && forall i :: 0 <= i < |text| ==> Printable(text[i])
    ensures FeedAll([], text + rest) == FeedAll([], rest)
  {
    hide Read;
    var front, last := text[..MAX_LINE_BYTES], text[MAX_LINE_BYTES];
    assert text == front + [last];
    FeedLine(front, last);
    FeedInPieces([], text, rest);
    assert [] + FeedAll([], rest).1 == FeedAll([], rest).1;
  }
}
