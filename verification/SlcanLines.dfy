/** What an SLCAN line is, character by character. */
module SlcanLines {
  import opened Common
  import opened Dlc
  import opened Slcan
  import opened SlcanTheorems

  /** The digits as characters, in upper and lower case. */
  const UPPER := "0123456789ABCDEF"
  const LOWER := "0123456789abcdef"

  lemma DigitsAre(n: nat)
    requires n < 16
    ensures HexDigit(n) == UPPER[n] as int
    ensures DigitValue(UPPER[n] as int) == Some(n) && DigitValue(LOWER[n] as int) == Some(n)
  {
  }

  /** No other character is a digit. */
  lemma NoOtherDigit(b: Octet)
    ensures DigitValue(b).Some? <==> exists n: nat :: n < 16 && (b == UPPER[n] as int || b == LOWER[n] as int)
  {
    if DigitValue(b).Some? {
      var n: nat := DigitValue(b).value;
      assert b == UPPER[n] as int || b == LOWER[n] as int;
    }
  }

  // ---------- either case ----------

  /** The same character, up to the case of a digit. */
  predicate SameLetter(a: Octet, b: Octet) {
    a == b || exists n: nat :: n < 16 && {a, b} == {UPPER[n] as int, LOWER[n] as int}
  }

  predicate SameSpelling(s: seq<Octet>, t: seq<Octet>) {
    |s| == |t| && forall i :: 0 <= i < |s| ==> SameLetter(s[i], t[i])
  }

  lemma SameDigit(a: Octet, b: Octet)
    requires SameLetter(a, b)
    ensures DigitValue(a) == DigitValue(b) && (a == PLUS <==> b == PLUS)
  {
    if a != b {
      var n: nat :| n < 16 && {a, b} == {UPPER[n] as int, LOWER[n] as int};
      assert a in {a, b} && b in {a, b};
      DigitsAre(n);
    }
  }

  lemma {:induction false} SameHexValue(s: seq<Octet>, t: seq<Octet>)
    requires SameSpelling(s, t)
    ensures HexValue(s) == HexValue(t)
  {
    hide SameLetter, DigitValue;
    if s != [] {
      var n := |s| - 1;
      SameHexValue(s[..n], t[..n]);
      SameDigit(s[n], t[n]);
    }
  }

  lemma SameRadix(s: seq<Octet>, t: seq<Octet>)
    requires SameSpelling(s, t)
    ensures FromRadix(s) == FromRadix(t)
  {
    hide SameLetter, DigitValue, HexValue;
    if s != [] {
      SameDigit(s[0], t[0]);
      SameHexValue(s, t);
      SameHexValue(s[1..], t[1..]);
    }
  }

  lemma {:induction false} SameBytes(s: seq<Octet>, t: seq<Octet>)
    requires SameSpelling(s, t) && |s| % 2 == 0
    ensures FromHexBytes(s) == FromHexBytes(t)
  {
    hide SameLetter, FromRadix;
    if s != [] {
      SameRadix(s[..2], t[..2]);
      SameBytes(s[2..], t[2..]);
    }
  }

  lemma SamePieces(s: seq<Octet>, t: seq<Octet>, extended: bool, at: nat, len: nat)
    requires SameSpelling(s, t)
    ensures ParseId(s, extended) == ParseId(t, extended)
    ensures ParseCode(s, at) == ParseCode(t, at)
    ensures ParsePayload(s, at, len) == ParsePayload(t, at, len)
  {
    hide SameLetter, FromRadix, FromHexBytes, DigitValue;
    var n := IdDigits(extended);
    if 1 + n <= |s| {
      SameRadix(s[1..1 + n], t[1..1 + n]);
    }
    if at < |s| {
      SameDigit(s[at], t[at]);
    }
    if at + 2 * len <= |s| {
      SameBytes(s[at..at + 2 * len], t[at..at + 2 * len]);
    }
  }

  /** A line reads the same with its digits in either case. */
  lemma EitherCase(s: seq<Octet>, t: seq<Octet>)
    requires s != [] && SameSpelling(s, t) && s[0] == t[0]
    ensures ParseFrame(s) == ParseFrame(t)
  {
    hide SameSpelling, ParseId, ParseCode, ParsePayload, DlcToLen;
    SameLength(s, t);
    match FlagsOf(s[0])
    case None =>
    case Some(flags) =>
      var idEnd := 1 + IdDigits(flags.extended);
      SamePieces(s, t, flags.extended, idEnd, 0);
      match ParseCode(s, idEnd)
      case None =>
      case Some(dlc) =>
        SamePieces(s, t, flags.extended, idEnd + 1, if flags.rtr then 0 else DlcToLen(dlc, flags.fd));
  }

  lemma SameLength(s: seq<Octet>, t: seq<Octet>)
    requires SameSpelling(s, t)
    ensures |s| == |t|
  {
  }

  // ---------- what is printed ----------

  type Digit = d: nat | d < 16

  /** What digits are worth, the first the most significant. */
  function Number(digits: seq<Digit>): nat {
    if digits == [] then 0 else 16 * Number(digits[..|digits| - 1]) + digits[|digits| - 1]
  }

  function Characters(digits: seq<Digit>): (s: seq<Octet>)
    ensures |s| == |digits|
  {
    seq(|digits|, i requires 0 <= i < |digits| => UPPER[digits[i]] as int)
  }

  lemma {:induction false} DigitsPrinted(digits: seq<Digit>)
    ensures HexDigits(Number(digits), |digits|) == Characters(digits)
  {
    hide HexDigits, Characters;
    if digits == [] {
      NoDigits();
    } else {
      var front, last := digits[..|digits| - 1], digits[|digits| - 1];
      DigitsPrinted(front);
      assert front + [last] == digits;
      OneMore(front, last, Number(front));
    }
  }

  lemma NoDigits()
    ensures HexDigits(0, 0) == Characters([])
  {
  }

  lemma OneMore(front: seq<Digit>, last: Digit, v: nat)
    ensures HexDigits(16 * v + last, |front| + 1) == HexDigits(v, |front|) + [UPPER[last] as int]
    ensures Characters(front + [last]) == Characters(front) + [UPPER[last] as int]
  {
    hide HexDigit;
    DigitsAre(last);
  }

  /** A payload's digits, two for each byte, and zeros up to the length. */
  function PayloadDigits(data: seq<Octet>, len: nat): (digits: seq<Digit>)
    ensures |digits| == 2 * len
  {
    seq(2 * len, i requires 0 <= i < 2 * len =>
      if i / 2 >= |data| then 0 else if i % 2 == 0 then data[i / 2] / 16 else data[i / 2] % 16)
  }

  lemma {:induction false} ByteSpelled(data: seq<Octet>, i: nat)
    requires i < |data|
    ensures HexBytes(data)[2 * i] == UPPER[data[i] / 16] as int
    ensures HexBytes(data)[2 * i + 1] == UPPER[data[i] % 16] as int
  {
    hide HexDigit;
    if i == 0 {
      DigitsAre(data[0] / 16);
      DigitsAre(data[0] % 16);
    } else {
      ByteSpelled(data[1..], i - 1);
    }
  }

  lemma PayloadPrinted(data: seq<Octet>, len: nat)
    ensures HexBytes(Padded(data, len)) == Characters(PayloadDigits(data, len))
  {
    hide HexBytes;
    forall p | 0 <= p < 2 * len ensures HexBytes(Padded(data, len))[p] == Characters(PayloadDigits(data, len))[p] {
      ByteSpelled(Padded(data, len), p / 2);
    }
  }

  /** The first character by kind of frame, in upper case for an extended id. */
  function Kind(f: SlcanFrame): char {
    if f.rtr then (if f.extended then 'R' else 'r')
    else if !f.fd then (if f.extended then 'T' else 't')
    else if f.brs then (if f.extended then 'B' else 'b')
    else (if f.extended then 'D' else 'd')
  }

  /** The eight kinds of line; no other first character begins a frame. */
  lemma KindsAre(b: Octet)
    ensures b == 't' as int ==> FlagsOf(b) == Some(Flags(false, false, false, false))
    ensures b == 'T' as int ==> FlagsOf(b) == Some(Flags(true, false, false, false))
    ensures b == 'r' as int ==> FlagsOf(b) == Some(Flags(false, true, false, false))
    ensures b == 'R' as int ==> FlagsOf(b) == Some(Flags(true, true, false, false))
    ensures b == 'd' as int ==> FlagsOf(b) == Some(Flags(false, false, true, false))
    ensures b == 'D' as int ==> FlagsOf(b) == Some(Flags(true, false, true, false))
    ensures b == 'b' as int ==> FlagsOf(b) == Some(Flags(false, false, true, true))
    ensures b == 'B' as int ==> FlagsOf(b) == Some(Flags(true, false, true, true))
    ensures (forall kind <- "tTrRdDbB" :: b != kind as int) ==> FlagsOf(b) == None
  {
    assert 't' in "tTrRdDbB" && 'T' in "tTrRdDbB" && 'r' in "tTrRdDbB" && 'R' in "tTrRdDbB";
    assert 'd' in "tTrRdDbB" && 'D' in "tTrRdDbB" && 'b' in "tTrRdDbB" && 'B' in "tTrRdDbB";
  }

  /** A line of no kind, or that ends before its code or its payload does, is no frame. */
  lemma NoFrame(line: seq<Octet>, flags: Flags)
    ensures line == [] || FlagsOf(line[0]) == None ==> ParseFrame(line) == None
    ensures line != [] && FlagsOf(line[0]) == Some(flags) && |line| < 2 + IdDigits(flags.extended) ==>
              ParseFrame(line) == None
    ensures line != [] && FlagsOf(line[0]) == Some(flags) && !flags.rtr && |line| >= 2 + IdDigits(flags.extended) ==>
              match ParseCode(line, 1 + IdDigits(flags.extended))
              case None => ParseFrame(line) == None
              case Some(code) =>
                |line| < 2 + IdDigits(flags.extended) + 2 * DlcToLen(code, flags.fd) || (!flags.fd && code > 8) ==>
                  ParseFrame(line) == None
  {
    hide FlagsOf, ParseId, DigitValue, DlcToLen, FromHexBytes;
  }

  /**
   A frame's line: its kind, the digits of its id - three, or eight if extended -, its code, and two digits
   for each byte its code stands for.
   */
  lemma LineOf(f: SlcanFrame, id: seq<Digit>)
    requires |id| == (if f.extended then 8 else 3)
    requires Number(id) == f.arbId % (if f.extended then 536870912 else 2048)
    ensures Print(f) == [Kind(f) as int] + Characters(id) + [UPPER[f.dlc % 16] as int]
                        + Characters(PayloadDigits(f.data, if f.rtr then 0 else DlcToLen(f.dlc, f.fd)))
  {
    hide HexDigits, HexBytes, Characters, PayloadDigits, Number, HexDigit, DlcToLen;
    DigitsPrinted(id);
    DigitsAre(f.dlc % 16);
    PayloadPrinted(f.data, if f.rtr then 0 else DlcToLen(f.dlc, f.fd));
  }

  // ---------- what ends a line, and what does not ----------

  /** From a space to a tilde. */
  predicate Characters7Bit(text: seq<Octet>) { forall i :: 0 <= i < |text| ==> ' ' as int <= text[i] <= '~' as int }

  /**
   A line of at most 512 characters is read at a carriage return or a line feed, and lost at a bell; one
   character more loses it too. What is neither of these nor a character is as if it were not there.
   */
  lemma LineReadAs(text: seq<Octet>, last: Octet)
    requires text != [] && |text| <= 512 && Characters7Bit(text)
    ensures last in {13, 10} ==>
              FeedAll([], text + [last]) ==
              ([], [if ParseFrame(text).Some? then FrameLine(ParseFrame(text).value) else Reply(text)])
    ensures last == 7 ==> FeedAll([], text + [last]) == ([], [])
    ensures 32 <= last <= 126 ==> FeedAll([], text + [last]) == (if |text| < 512 then text + [last] else [], [])
    ensures last !in {13, 10, 7} && !(32 <= last <= 126) ==> FeedAll([], text + [last]) == (text, [])
  {
    hide ParseFrame, FeedAll;
    FeedLine(text, last);
  }

  /** An empty line is none. */
  lemma EmptyLine(last: Octet)
    requires last in {13, 10}
    ensures FeedAll([], [last]) == ([], [])
  {
    hide Read;
    FeedOneByte([], last);
  }

  // ---------- a plus sign ----------

  /** Ids and payload bytes are read as numbers of which the first character may be a plus sign. */
  lemma PlusSign(digits: seq<Octet>)
    requires digits != []
    ensures FromRadix(['+' as int] + digits) == HexValue(digits)
    ensures FromRadix(['+' as int]) == None && FromRadix([]) == None
  {
    hide HexValue;
    assert (['+' as int] + digits)[1..] == digits;
  }

  /** The line t+121+A. */
  const PLUS_LINE: seq<Octet> := [0x74, 0x2B, 0x31, 0x32, 0x31, 0x2B, 0x41]

  /** So a line can have one where a digit belongs. */
  lemma PlusSignInALine()
    ensures ParseFrame(PLUS_LINE) == Some(SlcanFrame(0x12, false, false, false, false, 1, [0x0A]))
  {
    PlusPieces();
    hide FromRadix, FromHexBytes, HexValue, Pow16;
    assert ParseId(PLUS_LINE, false) == Some(0x12);
    assert ParseCode(PLUS_LINE, 4) == Some(1);
    assert ParsePayload(PLUS_LINE, 5, 1) == Some([0x0A]);
  }

  lemma OneByte(hex: seq<Octet>, b: Octet)
    requires |hex| == 2 && FromRadix(hex) == Some(b)
    ensures FromHexBytes(hex) == Some([b])
  {
    hide FromRadix;
    assert hex[..2] == hex && hex[2..] == [] && FromHexBytes([]) == Some([]) && [b] + [] == [b];
  }

  lemma PlusPieces()
    ensures FromRadix(PLUS_LINE[1..4]) == Some(0x12) && FromHexBytes(PLUS_LINE[5..7]) == Some([0x0A])
  {
    var id, payload := PLUS_LINE[1..4], PLUS_LINE[5..7];
    assert id == ['+' as int] + [0x31, 0x32] && payload == ['+' as int] + [0x41];
    PlusSign([0x31, 0x32]);
    PlusSign([0x41]);
    assert HexValue([0x31]) == Some(1) && HexValue([0x31, 0x32]) == Some(0x12) && HexValue([0x41]) == Some(10);
    OneByte(payload, 10);
  }
}
