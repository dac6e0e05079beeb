/**
 What a message says, from its bytes: addresses, counts and values as numbers, and whose they are when the wire
 leaves them out.
 */
module RtuContents {
  import opened Common
  import opened Sequences
  import opened RtuProtocol
  import opened RtuStream
  import opened RtuCleanStream
  import opened WordValues

  /** A field that is there and has this value. */
  predicate Says(field: Option<Word>, value: nat) { field.Some? && WordValue(field.value) == value }

  // ---------- function codes ----------

  lemma ReadCode(code: Byte)
    requires 0x01 <= code <= 0x04
    ensures IsRead(code) && !IsException(code) && !IsWriteSingle(code) && !IsWriteMultiple(code)
  {
  }

  lemma SingleCode(code: Byte)
    requires code == 0x05 || code == 0x06
    ensures IsWriteSingle(code) && !IsException(code) && !IsRead(code) && !IsWriteMultiple(code)
  {
  }

  lemma MultipleCode(code: Byte)
    requires code == 0x0F || code == 0x10
    ensures IsWriteMultiple(code) && !IsException(code) && !IsRead(code) && !IsWriteSingle(code)
  {
  }

  lemma ExceptionCode(code: Byte)
    requires code >= 0x80
    ensures IsException(code) && !IsRead(code) && !IsWriteSingle(code) && !IsWriteMultiple(code)
  {
  }

  // ---------- a sealed body ----------

  lemma SealedParts(body: seq<Byte>)
    requires |body| >= 3
    ensures |Sealed(body)| == |body| + 2 && Sealed(body)[..|body|] == body && ModbusCrc.Valid(Sealed(body))
    ensures forall i :: 0 <= i < |body| ==> Sealed(body)[i] == body[i]
  {
    SealedIsValid(body);
    hide ModbusCrc.Checksum, ModbusCrc.LowByte, TopByte;
  }

  /** A head and a block of data, sealed. */
  lemma SealedBlock(head: seq<Byte>, data: seq<Byte>)
    requires |head| >= 3
    ensures var raw := Sealed(head + data);
            && |raw| == |head| + |data| + 2 && raw[|head|..|head| + |data|] == data && ModbusCrc.Valid(raw)
            && forall i :: 0 <= i < |head| ==> raw[i] == head[i]
  {
    SealedParts(head + data);
    hide Sealed, ModbusCrc.Valid;
    assert Sealed(head + data)[..|head| + |data|] == head + data;
  }

  /** A valid message of a layout of its own length is taken as that layout. */
  lemma InterpretsAs(config: Config, st: State, raw: seq<Byte>, c: Candidate)
    requires |raw| >= 4 && AddressMatches(config.deviceAddress, raw[0]) && ModbusCrc.Valid(raw)
    requires FirstOfLength(Candidates(raw), |raw|) == Some(c)
    ensures Framed(raw, c.direction)
    ensures Interpret(config, st, raw) ==
            (var (msg, last) := Build(st.lastRequest, st.pendingFrames, raw, c.direction, true);
             (st.(lastRequest := last), Some(msg)))
  {
    hide ModbusCrc.Valid, Candidates, IsPlausible, AddressMatches;
    ChosenIn(Candidates(raw), raw, |raw|);
    hide Build;
  }

  lemma ReadLayout(raw: seq<Byte>)
    requires |raw| >= 5 && 0x01 <= raw[1] <= 0x04
    ensures |raw| == 8 ==> FirstOfLength(Candidates(raw), 8) == Some(Candidate(8, Request))
    ensures |raw| == 5 + raw[2] as nat && |raw| != 8 ==>
              FirstOfLength(Candidates(raw), |raw|) == Some(Candidate(|raw|, Response))
  {
    ReadCode(raw[1]);
    hide IsRead, IsException, IsWriteSingle, IsWriteMultiple;
    var cs := Candidates(raw);
    assert |cs| == 2 && cs[1..][0] == cs[1];
  }

  lemma SingleLayout(raw: seq<Byte>)
    requires |raw| == 8 && (raw[1] == 0x05 || raw[1] == 0x06)
    ensures FirstOfLength(Candidates(raw), 8) == Some(Candidate(8, Request))
  {
    SingleCode(raw[1]);
    hide IsRead, IsException, IsWriteSingle, IsWriteMultiple;
  }

  lemma MultipleLayout(raw: seq<Byte>)
    requires |raw| >= 8 && (raw[1] == 0x0F || raw[1] == 0x10)
    ensures |raw| == 8 ==> FirstOfLength(Candidates(raw), 8) == Some(Candidate(8, Response))
    ensures |raw| == 9 + raw[6] as nat ==>
              FirstOfLength(Candidates(raw), |raw|) == Some(Candidate(|raw|, Request))
  {
    MultipleCode(raw[1]);
    hide IsRead, IsException, IsWriteSingle, IsWriteMultiple;
    var cs := Candidates(raw);
    assert |cs| == 2 && cs[1..][0] == cs[1];
  }

  lemma ExceptionLayout(raw: seq<Byte>)
    requires |raw| == 5 && raw[1] >= 0x80
    ensures FirstOfLength(Candidates(raw), 5) == Some(Candidate(5, Response))
  {
    ExceptionCode(raw[1]);
    hide IsRead, IsException, IsWriteSingle, IsWriteMultiple;
  }

  // ---------- what the layouts say ----------

  lemma AddressContent(raw: seq<Byte>, direction: Direction)
    requires Framed(raw, direction) && |raw| == 8
    requires if direction.Request? then 0x01 <= raw[1] <= 0x04 else raw[1] == 0x0F || raw[1] == 0x10
    ensures ContentOf(raw, direction) ==
            Content(Some(BothBytes(raw[2], raw[3])), Some(BothBytes(raw[4], raw[5])), [], None)
  {
    if direction.Request? {
      ReadCode(raw[1]);
    } else {
      MultipleCode(raw[1]);
    }
    hide IsRead, IsException, IsWriteSingle, IsWriteMultiple, Framed, BothBytes;
  }

  lemma ExceptionContent(raw: seq<Byte>)
    requires Framed(raw, Response) && |raw| == 5 && raw[1] >= 0x80
    ensures ContentOf(raw, Response) == Content(None, None, [], Some(raw[2]))
  {
    ExceptionCode(raw[1]);
    hide IsRead, IsException, IsWriteSingle, IsWriteMultiple, Framed;
  }

  lemma ReadContent(raw: seq<Byte>, n: nat, data: seq<Byte>)
    requires Framed(raw, Response) && 0x01 <= raw[1] <= 0x04
    requires |raw| == 5 + n && raw[2] as nat == n && raw[3..3 + n] == data
    ensures ContentOf(raw, Response) == Content(None, None, RegistersBigEndian(data), None)
  {
    ReadCode(raw[1]);
    hide IsRead, IsException, IsWriteSingle, IsWriteMultiple, Framed, RegistersBigEndian;
  }

  lemma SingleContent(raw: seq<Byte>)
    requires Framed(raw, Request) && |raw| == 8 && (raw[1] == 0x05 || raw[1] == 0x06)
    ensures ContentOf(raw, Request) ==
            Content(Some(BothBytes(raw[2], raw[3])), Some(1), [BothBytes(raw[4], raw[5])], None)
  {
    SingleCode(raw[1]);
    hide IsRead, IsException, IsWriteSingle, IsWriteMultiple, Framed, BothBytes;
  }

  lemma MultipleContent(raw: seq<Byte>, n: nat, data: seq<Byte>)
    requires Framed(raw, Request) && (raw[1] == 0x0F || raw[1] == 0x10)
    requires |raw| == 9 + n && raw[6] as nat == n && raw[7..7 + n] == data
    ensures ContentOf(raw, Request) ==
            Content(Some(BothBytes(raw[2], raw[3])), Some(BothBytes(raw[4], raw[5])),
                    RegistersBigEndian(data), None)
  {
    MultipleCode(raw[1]);
    hide IsRead, IsException, IsWriteSingle, IsWriteMultiple, Framed, RegistersBigEndian, BothBytes;
  }

  // ---------- whose they are ----------

  /** The fields of a message before it is paired with what is outstanding. */
  predicate Unpaired(msg: Message, raw: seq<Byte>, direction: Direction, c: Content) {
    && Of(msg, raw) && msg.direction == direction
    && msg.startRegister == c.startRegister && msg.quantity == c.quantity
    && msg.registers == c.registers && msg.exception == c.exception
  }

  lemma BuildUnpaired(last: Option<Outstanding>, pending: nat, raw: seq<Byte>, direction: Direction)
    returns (msg: Message)
    requires Framed(raw, direction)
    ensures Unpaired(msg, raw, direction, ContentOf(raw, direction))
    ensures Build(last, pending, raw, direction, true) == Resolve(last, msg)
  {
    hide ContentOf, Candidates, Resolve;
    msg := Fields(raw, direction, true, AtLeastOne(pending));
  }

  /** A request is outstanding from now on. */
  lemma ResolveRequest(last: Option<Outstanding>, msg: Message)
    requires msg.direction.Request? && !IsWriteSingle(msg.code) && msg.startRegister.Some? && msg.quantity.Some?
    ensures Resolve(last, msg) ==
            (msg, Some(Outstanding(msg.code, msg.startRegister.value, msg.quantity.value)))
  {
  }

  /** A response with an address has nothing to take. */
  lemma ResolveAddressed(last: Option<Outstanding>, msg: Message)
    requires msg.direction.Response? && !IsWriteSingle(msg.code) && msg.startRegister.Some?
    ensures Resolve(last, msg) == (msg, last)
  {
  }

  /** One without takes the outstanding request's. */
  lemma ResolveAnswer(last: Option<Outstanding>, msg: Message)
    requires msg.direction.Response? && !IsWriteSingle(msg.code) && msg.startRegister.None?
    ensures Resolve(last, msg) ==
            match last
            case Some(asked) => (msg.(startRegister := Some(asked.start), quantity := Some(asked.quantity)), None)
            case None => (msg, None)
  {
  }

  /** A write of one is a request, or the answer to one. */
  lemma ResolveSingle(last: Option<Outstanding>, msg: Message)
    requires IsWriteSingle(msg.code) && msg.startRegister.Some? && msg.quantity.Some?
    ensures Resolve(last, msg) ==
            if last.Some? && last.value.code == msg.code then (msg.(direction := Response), None)
            else (msg.(direction := Request),
                  Some(Outstanding(msg.code, msg.startRegister.value, msg.quantity.value)))
  {
    hide IsWriteSingle;
  }

  // ---------- what each message says ----------

  /** A message with its own bytes, whose check agrees. */
  predicate Of(msg: Message, raw: seq<Byte>) {
    |raw| >= 4 && msg.raw == raw && msg.deviceAddress == raw[0] && msg.code == raw[1] && msg.crcValid
  }

  /** A request to read: the first register and how many. It is then outstanding. */
  lemma ReadRequestSays(config: Config, st: State, a: Byte, code: Byte, sh: Byte, sl: Byte, qh: Byte, ql: Byte)
    requires AddressMatches(config.deviceAddress, a) && 0x01 <= code <= 0x04
    ensures var raw := Sealed([a, code, sh, sl, qh, ql]);
            var (next, msg) := Interpret(config, st, raw);
            && msg.Some? && Of(msg.value, raw) && msg.value.direction.Request?
            && Says(msg.value.startRegister, PairValue(sh, sl)) && Says(msg.value.quantity, PairValue(qh, ql))
            && msg.value.registers == [] && msg.value.exception == None
            && Awaits(st, next, msg.value)
  {
    var body := [a, code, sh, sl, qh, ql];
    var raw := Sealed(body);
    SealedParts(body);
    ReadLayout(raw);
    ReadCode(code);
    JoinedValue(sh, sl);
    JoinedValue(qh, ql);
    hide ModbusCrc.Valid, Candidates, Sealed, BothBytes, IsRead, IsException, IsWriteSingle, IsWriteMultiple,
         AddressMatches, WordValue, PairValue, ContentOf, Framed, Interpret, Build, Resolve, RegistersBigEndian, Holds;
    InterpretsAs(config, st, raw, Candidate(8, Request));
    var msg := BuildUnpaired(st.lastRequest, st.pendingFrames, raw, Request);
    AddressContent(raw, Request);
    ResolveRequest(st.lastRequest, msg);
  }

  /** After a request: it is what an answer is awaited to. */
  predicate Awaits(st: State, next: State, msg: Message) {
    && msg.startRegister.Some? && msg.quantity.Some?
    && next == st.(lastRequest := Some(Outstanding(msg.code, msg.startRegister.value, msg.quantity.value)))
  }

  /** The answer to a write of many: what was written where. It leaves what is outstanding alone. */
  lemma WriteResponseSays(config: Config, st: State, a: Byte, code: Byte, sh: Byte, sl: Byte, qh: Byte, ql: Byte)
    requires AddressMatches(config.deviceAddress, a) && (code == 0x0F || code == 0x10)
    ensures var raw := Sealed([a, code, sh, sl, qh, ql]);
            var (next, msg) := Interpret(config, st, raw);
            && msg.Some? && Of(msg.value, raw) && msg.value.direction.Response?
            && Says(msg.value.startRegister, PairValue(sh, sl)) && Says(msg.value.quantity, PairValue(qh, ql))
            && msg.value.registers == [] && msg.value.exception == None
            && next == st
  {
    var body := [a, code, sh, sl, qh, ql];
    var raw := Sealed(body);
    SealedParts(body);
    MultipleLayout(raw);
    MultipleCode(code);
    JoinedValue(sh, sl);
    JoinedValue(qh, ql);
    hide ModbusCrc.Valid, Candidates, Sealed, BothBytes, IsRead, IsException, IsWriteSingle, IsWriteMultiple,
         AddressMatches, WordValue, PairValue, ContentOf, Framed, Interpret, Build, Resolve, RegistersBigEndian, Holds;
    InterpretsAs(config, st, raw, Candidate(8, Response));
    var msg := BuildUnpaired(st.lastRequest, st.pendingFrames, raw, Response);
    AddressContent(raw, Response);
    ResolveAddressed(st.lastRequest, msg);
  }

  /** The values of a block of bytes, two bytes each; an odd byte at the end has none. */
  predicate Holds(registers: seq<Word>, data: seq<Byte>) {
    |registers| == |data| / 2 &&
    forall i :: 0 <= i < |registers| ==> WordValue(registers[i]) == PairValue(data[2 * i], data[2 * i + 1])
  }

  lemma {:induction false} BlockHolds(data: seq<Byte>)
    ensures Holds(RegistersBigEndian(data), data)
    decreases |data|
  {
    hide BothBytes, WordValue, PairValue;
    if |data| >= 2 {
      BlockHolds(data[2..]);
      JoinedValue(data[0], data[1]);
      hide RegistersBigEndian;
      HoldsBehind(data, BothBytes(data[0], data[1]), RegistersBigEndian(data[2..]));
    }
  }

  lemma HoldsBehind(data: seq<Byte>, first: Word, rest: seq<Word>)
    requires |data| >= 2 && WordValue(first) == PairValue(data[0], data[1]) && Holds(rest, data[2..])
    ensures Holds([first] + rest, data)
  {
    hide WordValue, PairValue;
    var registers := [first] + rest;
    forall i | 0 <= i < |registers| ensures WordValue(registers[i]) == PairValue(data[2 * i], data[2 * i + 1]) {
      if i > 0 {
        var k := i - 1;
        assert registers[i] == rest[k];
        assert data[2..][2 * k] == data[2 * i] && data[2..][2 * k + 1] == data[2 * i + 1];
      }
    }
  }

  /** A request to write many: where, how many, and the values. It is then outstanding. */
  lemma WriteRequestSays(config: Config, st: State, a: Byte, code: Byte, sh: Byte, sl: Byte, qh: Byte, ql: Byte,
                         n: Byte, data: seq<Byte>)
    requires AddressMatches(config.deviceAddress, a) && (code == 0x0F || code == 0x10) && |data| == n as nat
    ensures var raw := Sealed([a, code, sh, sl, qh, ql, n] + data);
            var (next, msg) := Interpret(config, st, raw);
            && msg.Some? && Of(msg.value, raw) && msg.value.direction.Request?
            && Says(msg.value.startRegister, PairValue(sh, sl)) && Says(msg.value.quantity, PairValue(qh, ql))
            && Holds(msg.value.registers, data) && msg.value.exception == None
            && Awaits(st, next, msg.value)
  {
    var raw := Sealed([a, code, sh, sl, qh, ql, n] + data);
    WriteRequestRaw(a, code, sh, sl, qh, ql, n, data);
    hide *;
    InterpretsAs(config, st, raw, Candidate(|raw|, Request));
    var msg := BuildUnpaired(st.lastRequest, st.pendingFrames, raw, Request);
    MultipleContent(raw, |data|, data);
    ResolveRequest(st.lastRequest, msg);
    WriteRequestMeans(raw, msg, data);
    NowAwaits(st, msg);
  }

  lemma WriteRequestRaw(a: Byte, code: Byte, sh: Byte, sl: Byte, qh: Byte, ql: Byte, n: Byte, data: seq<Byte>)
    requires code == 0x0F || code == 0x10
    requires |data| == n as nat
    ensures var raw := Sealed([a, code, sh, sl, qh, ql, n] + data);
            && |raw| == 9 + |data| && raw[0] == a && raw[1] == code && raw[2] == sh && raw[3] == sl
            && raw[4] == qh && raw[5] == ql && raw[6] as nat == |data| && raw[7..7 + |data|] == data
            && ModbusCrc.Valid(raw) && FirstOfLength(Candidates(raw), |raw|) == Some(Candidate(|raw|, Request))
            && !IsWriteSingle(code)
  {
    var raw := Sealed([a, code, sh, sl, qh, ql, n] + data);
    SealedBlock([a, code, sh, sl, qh, ql, n], data);
    MultipleCode(code);
    hide ModbusCrc.Valid, Candidates, Sealed, IsWriteSingle;
    MultipleLayout(raw);
  }

  lemma WriteRequestMeans(raw: seq<Byte>, msg: Message, data: seq<Byte>)
    requires |raw| >= 6
    requires Unpaired(msg, raw, Request, Content(Some(BothBytes(raw[2], raw[3])),
                                                 Some(BothBytes(raw[4], raw[5])), RegistersBigEndian(data), None))
    ensures Of(msg, raw) && msg.direction.Request? && msg.exception == None && Holds(msg.registers, data)
    ensures msg.startRegister.Some? && msg.quantity.Some?
    ensures Says(msg.startRegister, PairValue(raw[2], raw[3])) && Says(msg.quantity, PairValue(raw[4], raw[5]))
  {
    JoinedValue(raw[2], raw[3]);
    JoinedValue(raw[4], raw[5]);
    BlockHolds(data);
    hide BothBytes, WordValue, PairValue, Holds, RegistersBigEndian;
  }

  lemma NowAwaits(st: State, msg: Message)
    requires msg.startRegister.Some? && msg.quantity.Some?
    ensures Awaits(
              st, st.(lastRequest := Some(Outstanding(msg.code, msg.startRegister.value, msg.quantity.value))), msg)
  {
  }

  /**
   A write of one: where and what. It reads the same both ways, so it answers the outstanding request if that was
   such a write, which it then clears, and otherwise is a request, and outstanding.
   */
  lemma SingleWriteSays(config: Config, st: State, a: Byte, code: Byte, sh: Byte, sl: Byte, vh: Byte, vl: Byte)
    requires AddressMatches(config.deviceAddress, a) && (code == 0x05 || code == 0x06)
    ensures var raw := Sealed([a, code, sh, sl, vh, vl]);
            var (next, msg) := Interpret(config, st, raw);
            && msg.Some? && Of(msg.value, raw)
            && Says(msg.value.startRegister, PairValue(sh, sl)) && Says(msg.value.quantity, 1)
            && Holds(msg.value.registers, [vh, vl]) && msg.value.exception == None
            && (if st.lastRequest.Some? && st.lastRequest.value.code == code
                then msg.value.direction.Response? && next == st.(lastRequest := None)
                else msg.value.direction.Request? && Awaits(st, next, msg.value))
  {
    var body := [a, code, sh, sl, vh, vl];
    var raw := Sealed(body);
    SealedParts(body);
    SingleLayout(raw);
    SingleCode(code);
    JoinedValue(sh, sl);
    OneHolds(vh, vl);
    OneIsOne();
    hide ModbusCrc.Valid, Candidates, Sealed, BothBytes, IsRead, IsException, IsWriteSingle, IsWriteMultiple,
         AddressMatches, WordValue, PairValue, ContentOf, Framed, Interpret, Build, Resolve, RegistersBigEndian, Holds;
    InterpretsAs(config, st, raw, Candidate(8, Request));
    var msg := BuildUnpaired(st.lastRequest, st.pendingFrames, raw, Request);
    SingleContent(raw);
    ResolveSingle(st.lastRequest, msg);
  }

  lemma OneHolds(high: Byte, low: Byte)
    ensures Holds([BothBytes(high, low)], [high, low])
  {
    JoinedValue(high, low);
    hide BothBytes, WordValue, PairValue;
  }

  lemma OneIsOne()
    ensures WordValue(1) == 1
  {
  }

  /** What an answer that has no address of its own takes: the outstanding request's, which it clears. */
  predicate Answers(st: State, next: State, msg: Message) {
    match st.lastRequest
    case Some(asked) =>
      && msg.startRegister == Some(asked.start) && msg.quantity == Some(asked.quantity)
      && next == st.(lastRequest := None)
    case None => msg.startRegister == None && msg.quantity == None && next == st
  }

  /** An answer to a read: the values. Three bytes of them make it as long as a request, which it is then taken for. */
  lemma ReadResponseSays(config: Config, st: State, a: Byte, code: Byte, n: Byte, data: seq<Byte>)
    requires AddressMatches(config.deviceAddress, a) && 0x01 <= code <= 0x04 && |data| == n as nat && n != 3
    ensures var raw := Sealed([a, code, n] + data);
            var (next, msg) := Interpret(config, st, raw);
            && msg.Some? && Of(msg.value, raw) && msg.value.direction.Response?
            && Holds(msg.value.registers, data) && msg.value.exception == None
            && Answers(st, next, msg.value)
  {
    var raw := Sealed([a, code, n] + data);
    ReadResponseRaw(a, code, n, data);
    hide *;
    InterpretsAs(config, st, raw, Candidate(|raw|, Response));
    var msg := BuildUnpaired(st.lastRequest, st.pendingFrames, raw, Response);
    ReadContent(raw, |data|, data);
    ResolveAnswer(st.lastRequest, msg);
    ReadResponseMeans(st, raw, msg, data);
  }

  lemma ReadResponseRaw(a: Byte, code: Byte, n: Byte, data: seq<Byte>)
    requires 0x01 <= code <= 0x04 && |data| == n as nat && n != 3
    ensures var raw := Sealed([a, code, n] + data);
            && |raw| == 5 + |data| && raw[0] == a && raw[1] == code
            && raw[2] as nat == |data| && raw[3..3 + |data|] == data
            && ModbusCrc.Valid(raw) && FirstOfLength(Candidates(raw), |raw|) == Some(Candidate(|raw|, Response))
            && !IsWriteSingle(code)
  {
    var raw := Sealed([a, code, n] + data);
    SealedBlock([a, code, n], data);
    ThreeIsThree(n);
    ReadCode(code);
    hide ModbusCrc.Valid, Candidates, Sealed, IsWriteSingle;
    ReadLayout(raw);
  }

  lemma ReadResponseMeans(st: State, raw: seq<Byte>, msg: Message, data: seq<Byte>)
    requires Unpaired(msg, raw, Response, Content(None, None, RegistersBigEndian(data), None))
    requires !IsWriteSingle(msg.code)
    ensures msg.direction.Response? && msg.startRegister.None? && !IsWriteSingle(msg.code)
    ensures var (paired, last) := Resolve(st.lastRequest, msg);
            && Of(paired, raw) && paired.direction.Response? && paired.exception == None
            && Holds(paired.registers, data) && Answers(st, st.(lastRequest := last), paired)
  {
    ResolveAnswer(st.lastRequest, msg);
    BlockHolds(data);
    hide Resolve, Holds, RegistersBigEndian, IsWriteSingle;
  }

  lemma ThreeIsThree(n: Byte)
    ensures n as nat == 3 <==> n == 3
  {
  }

  /** An exception: which one, and to what. */
  lemma ExceptionSays(config: Config, st: State, a: Byte, code: Byte, e: Byte)
    requires AddressMatches(config.deviceAddress, a) && code >= 0x80
    ensures var raw := Sealed([a, code, e]);
            var (next, msg) := Interpret(config, st, raw);
            && msg.Some? && Of(msg.value, raw) && msg.value.direction.Response?
            && msg.value.registers == [] && msg.value.exception == Some(e)
            && Answers(st, next, msg.value)
  {
    var body := [a, code, e];
    var raw := Sealed(body);
    SealedParts(body);
    ExceptionLayout(raw);
    ExceptionCode(code);
    hide ModbusCrc.Valid, Candidates, Sealed, BothBytes, IsRead, IsException, IsWriteSingle, IsWriteMultiple,
         AddressMatches, WordValue, PairValue, ContentOf, Framed, Interpret, Build, Resolve, RegistersBigEndian, Holds;
    InterpretsAs(config, st, raw, Candidate(5, Response));
    var msg := BuildUnpaired(st.lastRequest, st.pendingFrames, raw, Response);
    ExceptionContent(raw);
    ResolveAnswer(st.lastRequest, msg);
  }

  /** A response with three bytes of data is taken for a request for what its data and check happen to say. */
  lemma ThreeBytesAreARequest(config: Config, st: State, a: Byte, code: Byte, data: seq<Byte>)
    requires AddressMatches(config.deviceAddress, a) && 0x01 <= code <= 0x04 && |data| == 3
    ensures var raw := Sealed([a, code, 3] + data);
            var (next, msg) := Interpret(config, st, raw);
            && msg.Some? && Of(msg.value, raw) && msg.value.direction.Request?
            && Says(msg.value.startRegister, PairValue(3, data[0]))
            && Says(msg.value.quantity, PairValue(data[1], data[2]))
  {
    assert [a, code, 3] + data == [a, code, 3, data[0], data[1], data[2]];
    ReadRequestSays(config, st, a, code, 3, data[0], data[1], data[2]);
    hide Interpret, Sealed, Of, Says, PairValue, AddressMatches;
  }

  // ---------- a request and its answer, from a stream ----------

  /** Two clean messages in a stream, however it is cut, are read as one after the other alone would be. */
  lemma TwoRead(config: Config, last: Option<Outstanding>, chunks: seq<seq<Byte>>, first: seq<Byte>, second: seq<Byte>)
    requires Clean(config, [first, second]) && Flatten(chunks) == Flatten([first, second])
    ensures var (final, msgs) := PushAll(config, State([], 0, last), chunks);
            var (between, a) := Interpret(config, State([], 0, last), first);
            var (after, b) := Interpret(config, State([], 0, between.lastRequest), second);
            final.buf == [] && final.lastRequest == after.lastRequest && msgs == OneOrNone(a) + OneOrNone(b)
  {
    FirstNotEmpty(config, first, second);
    hide PushAll, Interpret, InterpretAll, OneOrNone, Clean, Flatten;
    var messages := [first, second];
    assert [] + Flatten(chunks) == Flatten(chunks);
    CleanStreamExact(config, State([], 0, last), chunks, messages);
    InterpretAllStep(config, last, messages);
    assert messages[1..] == [second] && [second][1..] == [];
    var between := Interpret(config, State([], 0, last), first).0;
    InterpretAllStep(config, between.lastRequest, [second]);
    var (after, b) := Interpret(config, State([], 0, between.lastRequest), second);
    InterpretNone(config, after.lastRequest);
    AppendNothing(OneOrNone(b));
  }

  lemma FirstNotEmpty(config: Config, first: seq<Byte>, second: seq<Byte>)
    requires Clean(config, [first, second])
    ensures first != []
  {
    hide CleanHead;
    HeadFacts(config, first, Flatten([first, second]));
  }

  /**
   A read and its answer: the answer has the request's address and count with its own values, and nothing is left
   outstanding.
   */
  lemma ReadExchange(config: Config, last: Option<Outstanding>, chunks: seq<seq<Byte>>, a: Byte, code: Byte,
                     sh: Byte, sl: Byte, qh: Byte, ql: Byte, n: Byte, data: seq<Byte>)
    requires AddressMatches(config.deviceAddress, a) && 0x01 <= code <= 0x04 && |data| == n as nat && n != 3
    requires var messages := [Sealed([a, code, sh, sl, qh, ql]), Sealed([a, code, n] + data)];
             Clean(config, messages) && Flatten(chunks) == Flatten(messages)
    ensures var (final, msgs) := PushAll(config, State([], 0, last), chunks);
            && |msgs| == 2 && msgs[0].direction.Request? && msgs[1].direction.Response?
            && Says(msgs[0].startRegister, PairValue(sh, sl)) && Says(msgs[0].quantity, PairValue(qh, ql))
            && Says(msgs[1].startRegister, PairValue(sh, sl)) && Says(msgs[1].quantity, PairValue(qh, ql))
            && msgs[0].registers == [] && Holds(msgs[1].registers, data)
            && final.buf == [] && final.lastRequest == None
  {
    hide PushAll, Interpret, Clean, Flatten, Sealed, PairValue, Holds, Of, AddressMatches, WordValue;
    var first, second := Sealed([a, code, sh, sl, qh, ql]), Sealed([a, code, n] + data);
    TwoRead(config, last, chunks, first, second);
    ReadRequestSays(config, State([], 0, last), a, code, sh, sl, qh, ql);
    var between := Interpret(config, State([], 0, last), first).0;
    ReadResponseSays(config, State([], 0, between.lastRequest), a, code, n, data);
  }

  /** A read and an exception in answer: the exception is to the request's address and count. */
  lemma ReadRefused(config: Config, last: Option<Outstanding>, chunks: seq<seq<Byte>>, a: Byte, code: Byte,
                    sh: Byte, sl: Byte, qh: Byte, ql: Byte, refused: Byte, e: Byte)
    requires AddressMatches(config.deviceAddress, a) && 0x01 <= code <= 0x04 && refused >= 0x80
    requires var messages := [Sealed([a, code, sh, sl, qh, ql]), Sealed([a, refused, e])];
             Clean(config, messages) && Flatten(chunks) == Flatten(messages)
    ensures var (final, msgs) := PushAll(config, State([], 0, last), chunks);
            && |msgs| == 2 && msgs[0].direction.Request? && msgs[1].direction.Response?
            && Says(msgs[1].startRegister, PairValue(sh, sl)) && Says(msgs[1].quantity, PairValue(qh, ql))
            && msgs[1].exception == Some(e)
            && final.buf == [] && final.lastRequest == None
  {
    hide PushAll, Interpret, Clean, Flatten, Sealed, PairValue, Of, AddressMatches, WordValue;
    var first, second := Sealed([a, code, sh, sl, qh, ql]), Sealed([a, refused, e]);
    TwoRead(config, last, chunks, first, second);
    ReadRequestSays(config, State([], 0, last), a, code, sh, sl, qh, ql);
    var between := Interpret(config, State([], 0, last), first).0;
    ExceptionSays(config, State([], 0, between.lastRequest), a, refused, e);
  }

  /** A write of one and its echo: a request, then the response to it, which clears it. */
  lemma SingleWriteExchange(config: Config, last: Option<Outstanding>, chunks: seq<seq<Byte>>, a: Byte, code: Byte,
                            sh: Byte, sl: Byte, vh: Byte, vl: Byte)
    requires AddressMatches(config.deviceAddress, a) && (code == 0x05 || code == 0x06)
    requires last.None? || last.value.code != code
    requires var m := Sealed([a, code, sh, sl, vh, vl]); Clean(config, [m, m]) && Flatten(chunks) == Flatten([m, m])
    ensures var (final, msgs) := PushAll(config, State([], 0, last), chunks);
            && |msgs| == 2 && msgs[0].direction.Request? && msgs[1].direction.Response?
            && (forall i :: 0 <= i < 2 ==>
                  && Says(msgs[i].startRegister, PairValue(sh, sl)) && Says(msgs[i].quantity, 1)
                  && Holds(msgs[i].registers, [vh, vl]))
            && final.buf == [] && final.lastRequest == None
  {
    hide PushAll, Interpret, Clean, Flatten, Sealed, PairValue, Holds, Of, AddressMatches, WordValue;
    var m := Sealed([a, code, sh, sl, vh, vl]);
    TwoRead(config, last, chunks, m, m);
    SingleWriteSays(config, State([], 0, last), a, code, sh, sl, vh, vl);
    var (between, first) := Interpret(config, State([], 0, last), m);
    SealedCode(a, code, sh, sl, vh, vl);
    OfCode(first.value, m);
    SingleWriteSays(config, State([], 0, between.lastRequest), a, code, sh, sl, vh, vl);
  }

  lemma SealedCode(a: Byte, code: Byte, sh: Byte, sl: Byte, vh: Byte, vl: Byte)
    ensures |Sealed([a, code, sh, sl, vh, vl])| >= 4 && Sealed([a, code, sh, sl, vh, vl])[1] == code
  {
    SealedParts([a, code, sh, sl, vh, vl]);
    hide Sealed;
  }

  lemma OfCode(msg: Message, raw: seq<Byte>)
    requires Of(msg, raw)
    ensures |raw| >= 2 && msg.code == raw[1]
  {
  }

  /** A write of many and its answer: both have the address and count, and the request stays outstanding. */
  lemma WriteExchange(config: Config, last: Option<Outstanding>, chunks: seq<seq<Byte>>, a: Byte, code: Byte,
                      sh: Byte, sl: Byte, qh: Byte, ql: Byte, n: Byte, data: seq<Byte>)
    requires AddressMatches(config.deviceAddress, a) && (code == 0x0F || code == 0x10) && |data| == n as nat
    requires var messages := [Sealed([a, code, sh, sl, qh, ql, n] + data), Sealed([a, code, sh, sl, qh, ql])];
             Clean(config, messages) && Flatten(chunks) == Flatten(messages)
    ensures var (final, msgs) := PushAll(config, State([], 0, last), chunks);
            && |msgs| == 2 && msgs[0].direction.Request? && msgs[1].direction.Response?
            && (forall i :: 0 <= i < 2 ==>
                  Says(msgs[i].startRegister, PairValue(sh, sl)) && Says(msgs[i].quantity, PairValue(qh, ql)))
            && Holds(msgs[0].registers, data) && msgs[1].registers == []
            && final.buf == [] && final.lastRequest.Some? && final.lastRequest.value.code == msgs[0].code
            && WordValue(final.lastRequest.value.start) == PairValue(sh, sl)
            && WordValue(final.lastRequest.value.quantity) == PairValue(qh, ql)
  {
    hide PushAll, Interpret, Clean, Flatten, Sealed, PairValue, Holds, Of, AddressMatches, WordValue;
    var first, second := Sealed([a, code, sh, sl, qh, ql, n] + data), Sealed([a, code, sh, sl, qh, ql]);
    TwoRead(config, last, chunks, first, second);
    WriteRequestSays(config, State([], 0, last), a, code, sh, sl, qh, ql, n, data);
    var between := Interpret(config, State([], 0, last), first).0;
    WriteResponseSays(config, State([], 0, between.lastRequest), a, code, sh, sl, qh, ql);
  }

  // ---------- what is plausible ----------

  /** A request to read is plausible for 1 to 2000 coils or inputs, or 1 to 125 registers. */
  lemma PlausibleRead(raw: seq<Byte>)
    requires |raw| >= 6 && 0x01 <= raw[1] <= 0x04
    ensures IsPlausible(raw, Candidate(8, Request)) <==>
            1 <= PairValue(raw[4], raw[5]) <= if raw[1] <= 0x02 then 2000 else 125
  {
    ReadCode(raw[1]);
    JoinedValue(raw[4], raw[5]);
    ReadBank(raw[1]);
    hide IsRead, IsException, IsWriteSingle, IsWriteMultiple, BothBytes, FromFunctionCode;
  }

  lemma ReadBank(code: Byte)
    requires 0x01 <= code <= 0x04
    ensures FromFunctionCode(code) ==
            Some(if code == 0x01 then Coil else if code == 0x02 then Discrete else if code == 0x03 then Holding
                 else RegisterType.Input)
  {
  }

  /** A response to one is for 1 to 250 bytes, an even number of them if they are registers. */
  lemma PlausibleResponse(raw: seq<Byte>, len: nat)
    requires |raw| >= 3 && 0x01 <= raw[1] <= 0x04
    ensures IsPlausible(raw, Candidate(len, Response)) <==>
            1 <= ByteValue(raw[2]) <= 250 && (raw[1] >= 0x03 ==> ByteValue(raw[2]) % 2 == 0)
  {
    ReadCode(raw[1]);
    ReadBank(raw[1]);
    hide IsRead, IsException, IsWriteSingle, IsWriteMultiple, FromFunctionCode;
  }

  lemma WriteBank(code: Byte)
    requires code == 0x0F || code == 0x10
    ensures FromFunctionCode(code) == Some(if code == 0x0F then Coil else Holding)
  {
  }

  /** What makes a request to write many plausible, the numbers of its bank left open. */
  predicate Writable(bank: RegisterType, quantity: nat, n: nat) {
    1 <= quantity <= (match bank.MaxPerWrite() case Some(m) => m case None => 0) && n == bank.DataBytes(quantity)
  }

  lemma PlausibleOf(raw: seq<Byte>, len: nat, bank: RegisterType)
    requires |raw| >= 7 && !IsException(raw[1]) && !IsRead(raw[1]) && IsWriteMultiple(raw[1])
    requires FromFunctionCode(raw[1]) == Some(bank)
    ensures IsPlausible(raw, Candidate(len, Request)) <==> Writable(bank, WordValue(WordAt(raw, 4)), ByteValue(raw[6]))
  {
    hide IsRead, IsException, IsWriteSingle, IsWriteMultiple, WordAt, FromFunctionCode,
         RegisterType.MaxPerWrite, RegisterType.DataBytes;
  }

  lemma PlausibleInBank(raw: seq<Byte>, len: nat, bank: RegisterType)
    requires |raw| >= 7 && (raw[1] == 0x0F || raw[1] == 0x10) && FromFunctionCode(raw[1]) == Some(bank)
    ensures IsPlausible(raw, Candidate(len, Request)) <==>
            Writable(bank, WordValue(BothBytes(raw[4], raw[5])), ByteValue(raw[6]))
  {
    MultipleCode(raw[1]);
    hide IsPlausible, IsRead, IsException, IsWriteSingle, IsWriteMultiple, BothBytes, FromFunctionCode, Writable,
         WordValue, ByteValue;
    PlausibleOf(raw, len, bank);
  }

  lemma WritableNumbers(bank: RegisterType, quantity: nat, n: nat)
    requires bank.Coil? || bank.Holding?
    ensures Writable(bank, quantity, n) <==>
            if bank.Coil? then 1 <= quantity <= 1968 && n == (quantity + 7) / 8
            else 1 <= quantity <= 123 && n == 2 * quantity
  {
  }

  /** A request to write many is for 1 to 1968 coils, eight to a byte, or 1 to 123 registers, two bytes each. */
  lemma PlausibleWrite(raw: seq<Byte>, len: nat)
    requires |raw| >= 7 && (raw[1] == 0x0F || raw[1] == 0x10)
    ensures var quantity := PairValue(raw[4], raw[5]);
            IsPlausible(raw, Candidate(len, Request)) <==>
            if raw[1] == 0x0F then 1 <= quantity <= 1968 && ByteValue(raw[6]) == (quantity + 7) / 8
            else 1 <= quantity <= 123 && ByteValue(raw[6]) == 2 * quantity
  {
    hide IsPlausible, FromFunctionCode, BothBytes, Writable, PairValue, WordValue, ByteValue;
    var bank := if raw[1] == 0x0F then Coil else Holding;
    WriteBank(raw[1]);
    JoinedValue(raw[4], raw[5]);
    PlausibleInBank(raw, len, bank);
    WritableNumbers(bank, PairValue(raw[4], raw[5]), ByteValue(raw[6]));
  }

  /** An exception is one of 1 to 11. */
  lemma PlausibleException(raw: seq<Byte>, len: nat)
    requires |raw| >= 3 && raw[1] >= 0x80
    ensures IsPlausible(raw, Candidate(len, Response)) <==> 1 <= ByteValue(raw[2]) <= 11
  {
    ExceptionCode(raw[1]);
    ElevenAtMost(raw[2]);
    hide IsRead, IsException, IsWriteSingle, IsWriteMultiple;
  }

  lemma ElevenAtMost(e: Byte)
    ensures 0x01 <= e <= 0x0B <==> 1 <= ByteValue(e) <= 11
  {
  }

  // ---------- what can begin a message ----------

  /** A link of one address takes that alone; a link of none in particular takes 1 to 247. */
  lemma AddressIs(device: Option<Byte>, b: Byte)
    ensures AddressMatches(device, b) <==> if device.Some? then b == device.value else 1 <= ByteValue(b) <= 247
  {
  }

  /** Which functions are of which bank; all others are of none. */
  lemma BankIs(code: Byte)
    requires code < 0x80
    ensures FromFunctionCode(code) == Some(Coil) <==> code in {0x01, 0x05, 0x0F}
    ensures FromFunctionCode(code) == Some(Discrete) <==> code == 0x02
    ensures FromFunctionCode(code) == Some(Holding) <==> code in {0x03, 0x06, 0x10}
    ensures FromFunctionCode(code) == Some(RegisterType.Input) <==> code == 0x04
    ensures FromFunctionCode(code | 0x80) == FromFunctionCode(code)
  {
    WithoutHighBit(code);
  }

  lemma WithoutHighBit(code: Byte)
    requires code < 0x80
    ensures code & 0x7F == code && (code | 0x80) & 0x7F == code
  {
  }

  /** The layouts a head can have, longest first: by function, and by its byte count once that has arrived. */
  lemma LayoutsAre(buf: seq<Byte>)
    requires |buf| >= 2
    ensures var code := ByteValue(buf[1]);
            Candidates(buf) ==
            if code >= 128 then [Candidate(5, Response)]
            else if 1 <= code <= 4 then
              if |buf| == 2 then [Candidate(8, Request)]
              else if ByteValue(buf[2]) > 3 then [Candidate(5 + ByteValue(buf[2]), Response), Candidate(8, Request)]
              else [Candidate(8, Request), Candidate(5 + ByteValue(buf[2]), Response)]
            else if code == 5 || code == 6 then [Candidate(8, Request)]
            else if code == 15 || code == 16 then
              if |buf| < 7 then [Candidate(8, Response)]
              else [Candidate(9 + ByteValue(buf[6]), Request), Candidate(8, Response)]
            else []
  {
    KindOf(buf[1]);
    hide IsException, IsRead, IsWriteSingle, IsWriteMultiple;
  }

  lemma KindOf(code: Byte)
    ensures IsException(code) <==> ByteValue(code) >= 128
    ensures IsRead(code) <==> 1 <= ByteValue(code) <= 4
    ensures IsWriteSingle(code) <==> ByteValue(code) == 5 || ByteValue(code) == 6
    ensures IsWriteMultiple(code) <==> ByteValue(code) == 15 || ByteValue(code) == 16
  {
  }

  // ---------- a framed message ----------

  /** The first layout of a length, by its place among the layouts. */
  predicate FirstAt(cs: seq<Candidate>, len: nat, i: int) {
    0 <= i < |cs| && cs[i].len == len && forall j :: 0 <= j < i ==> cs[j].len != len
  }

  lemma {:induction false} FirstOfLengthIs(cs: seq<Candidate>, len: nat, c: Candidate)
    ensures FirstOfLength(cs, len) == Some(c) <==> exists i :: FirstAt(cs, len, i) && cs[i] == c
  {
    if cs != [] {
      if cs[0].len == len {
        assert FirstAt(cs, len, 0);
      } else {
        FirstOfLengthIs(cs[1..], len, c);
        if i :| FirstAt(cs[1..], len, i) && cs[1..][i] == c {
          assert FirstAt(cs, len, i + 1) && cs[i + 1] == c;
        }
        if i :| FirstAt(cs, len, i) && cs[i] == c {
          assert i > 0 && FirstAt(cs[1..], len, i - 1) && cs[1..][i - 1] == c;
        }
      }
    }
  }

  /**
   A framed message is read exactly when it has four bytes, an address of the link and a layout of its length, and its
   check agrees or that layout is plausible. It is then those bytes, flagged as the check says.
   */
  lemma InterpretIff(config: Config, st: State, raw: seq<Byte>)
    ensures var (next, msg) := Interpret(config, st, raw);
            && (msg.Some? <==>
                && |raw| >= 4 && AddressMatches(config.deviceAddress, raw[0])
                && exists i :: FirstAt(Candidates(raw), |raw|, i) &&
                     (ModbusCrc.Valid(raw) || IsPlausible(raw, Candidates(raw)[i])))
            && (msg.Some? ==> msg.value.raw == raw && (msg.value.crcValid <==> ModbusCrc.Valid(raw)))
            && (msg == None ==> next == st) && next.buf == st.buf && next.pendingFrames == st.pendingFrames
  {
    hide ModbusCrc.Valid, IsPlausible, Candidates, AddressMatches, FirstAt, FirstOfLength, Build;
    if |raw| >= 4 && AddressMatches(config.deviceAddress, raw[0]) {
      ChosenIn(Candidates(raw), raw, |raw|);
      OnlyTheFirst(Candidates(raw), |raw|);
      match FirstOfLength(Candidates(raw), |raw|)
      case None =>
      case Some(c) => BuildKeepsRaw(st.lastRequest, st.pendingFrames, raw, c.direction, ModbusCrc.Valid(raw));
    }
  }

  lemma OnlyTheFirst(cs: seq<Candidate>, len: nat)
    ensures FirstOfLength(cs, len).None? ==> forall i :: !FirstAt(cs, len, i)
    ensures FirstOfLength(cs, len).Some? ==>
              (exists i :: FirstAt(cs, len, i)) &&
              forall i :: FirstAt(cs, len, i) ==> 0 <= i < |cs| && FirstOfLength(cs, len).value == cs[i]
  {
    hide FirstOfLength, FirstAt;
    forall i | FirstAt(cs, len, i) ensures 0 <= i < |cs| && FirstOfLength(cs, len) == Some(cs[i]) {
      FirstWithin(cs, len, i);
      FirstOfLengthIs(cs, len, cs[i]);
    }
    if FirstOfLength(cs, len).Some? {
      FirstOfLengthIs(cs, len, FirstOfLength(cs, len).value);
    }
  }

  lemma FirstWithin(cs: seq<Candidate>, len: nat, i: int)
    requires FirstAt(cs, len, i)
    ensures 0 <= i < |cs|
  {
  }
}
