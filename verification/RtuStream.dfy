/** Recovering Modbus RTU messages from a byte stream with no length prefix. */
module RtuStream {
  import opened Common
  import opened RtuProtocol
  import ModbusCrc

  /** Two full messages of slack; past that the stream is desynchronised. */
  const MAX_BUFFER := MAX_RTU_LEN * 2

  datatype Direction = Request | Response

  datatype CrcPolicy = Strict | Lenient

  datatype Message = Message(
    direction: Direction, deviceAddress: Byte, code: Byte,
    startRegister: Option<Word>, quantity: Option<Word>, registers: seq<Word>,
    exception: Option<Byte>, raw: seq<Byte>, crcValid: bool, frameCount: nat)

  /** The request still waiting for its answer. */
  datatype Outstanding = Outstanding(code: Byte, start: Word, quantity: Word)

  datatype Config = Config(deviceAddress: Option<Byte>, policy: CrcPolicy)

  datatype State = State(buf: seq<Byte>, pendingFrames: nat, lastRequest: Option<Outstanding>)

  /** A candidate message layout at the head of the buffer. */
  datatype Candidate = Candidate(len: nat, direction: Direction)

  // ---------- layouts ----------

  predicate IsException(code: Byte) { code & 0x80 != 0 }

  predicate IsRead(code: Byte) { 0x01 <= code <= 0x04 }

  predicate IsWriteSingle(code: Byte) { code == 0x05 || code == 0x06 }

  predicate IsWriteMultiple(code: Byte) { code == 0x0F || code == 0x10 }

  function ByteCount(buf: seq<Byte>, i: nat): Option<nat> {
    if i < |buf| then Some(buf[i] as nat) else None
  }

  function WordAt(raw: seq<Byte>, i: nat): Word
    requires i + 1 < |raw|
  {
    BothBytes(raw[i], raw[i + 1])
  }

  /** The first layout, and the one only a byte count can size. */
  function LayoutPair(buf: seq<Byte>): (Option<Candidate>, Option<Candidate>)
    requires |buf| >= 2
  {
    var code := buf[1];
    if IsException(code) then (Some(Candidate(5, Response)), None)
    else if IsRead(code) then
      (Some(Candidate(8, Request)),
       match ByteCount(buf, 2) case Some(n) => Some(Candidate(5 + n, Response)) case None => None)
    else if IsWriteSingle(code) then (Some(Candidate(8, Request)), None)
    else if IsWriteMultiple(code) then
      (Some(Candidate(8, Response)),
       match ByteCount(buf, 6) case Some(n) => Some(Candidate(9 + n, Request)) case None => None)
    else (None, None)
  }

  /** Candidate layouts at the head of `buf`, longest first; a tie keeps the first layout first. */
  function Candidates(buf: seq<Byte>): seq<Candidate>
    requires |buf| >= 2
  {
    match LayoutPair(buf)
    case (Some(a), Some(b)) => if b.len > a.len then [b, a] else [a, b]
    case (Some(a), None) => [a]
    case (None, Some(b)) => [b]
    case (None, None) => []
  }

  /** Whether a candidate's own header, as far as it has arrived, is self-consistent. */
  predicate IsPlausible(buf: seq<Byte>, c: Candidate)
    requires |buf| >= 2
  {
    var code := buf[1];
    if IsException(code) then
      |buf| > 2 ==> 0x01 <= buf[2] <= 0x0B
    else if IsRead(code) && c.direction.Request? then
      match FromFunctionCode(code)
      case None => false
      case Some(bank) => |buf| >= 6 ==> 1 <= WordAt(buf, 4) as nat <= bank.MaxPerRead()
    else if IsRead(code) then
      var registerBank := FromFunctionCode(code).Some? && FromFunctionCode(code).value.IsRegisterBank();
      |buf| > 2 ==>
        var n := buf[2] as nat;
        1 <= n <= MAX_DATA_BYTES && (registerBank ==> n % 2 == 0)
    else if IsWriteMultiple(code) && c.direction.Request? then
      match FromFunctionCode(code)
      case None => false
      case Some(bank) =>
        |buf| > 6 ==>
          var quantity := WordAt(buf, 4) as nat;
          var max := match bank.MaxPerWrite() case Some(m) => m case None => 0;
          1 <= quantity <= max && buf[6] as nat == bank.DataBytes(quantity)
    else true
  }

  // ---------- choosing ----------

  /** The first candidate that has fully arrived and whose check agrees. */
  function FirstValid(cs: seq<Candidate>, buf: seq<Byte>): Option<Candidate> {
    if cs == [] then None
    else if cs[0].len <= |buf| && ModbusCrc.Valid(buf[..cs[0].len]) then Some(cs[0])
    else FirstValid(cs[1..], buf)
  }

  function FirstPlausible(cs: seq<Candidate>, buf: seq<Byte>): Option<Candidate>
    requires |buf| >= 2
  {
    if cs == [] then None
    else if IsPlausible(buf, cs[0]) then Some(cs[0])
    else FirstPlausible(cs[1..], buf)
  }

  /** The first plausible candidate that has fully arrived. */
  function FirstGuess(cs: seq<Candidate>, buf: seq<Byte>): Option<Candidate>
    requires |buf| >= 2
  {
    if cs == [] then None
    else if cs[0].len <= |buf| && IsPlausible(buf, cs[0]) then Some(cs[0])
    else FirstGuess(cs[1..], buf)
  }

  function FirstOfLength(cs: seq<Candidate>, len: nat): Option<Candidate> {
    if cs == [] then None else if cs[0].len == len then Some(cs[0]) else FirstOfLength(cs[1..], len)
  }

  datatype Step = Take(candidate: Candidate, crcValid: bool) | NoMessage | NeedMore

  /** What the head of the buffer is worth. */
  function Decide(policy: CrcPolicy, buf: seq<Byte>, atEnd: bool): Step {
    if |buf| < 4 then NeedMore
    else
      var cs := Candidates(buf);
      var valid := FirstValid(cs, buf);
      if valid.Some? then Take(valid.value, true)
      else
        var awaited := FirstPlausible(cs, buf);
        if !atEnd && awaited.Some? && awaited.value.len > |buf| then NeedMore
        else
          var guess := FirstGuess(cs, buf);
          if policy.Lenient? && guess.Some? then Take(guess.value, false) else NoMessage
  }

  // ---------- building a message ----------

  /** A data block as big-endian words; a trailing odd byte is dropped. */
  function RegistersBigEndian(block: seq<Byte>): (r: seq<Word>)
    ensures |r| == |block| / 2
  {
    if |block| < 2 then [] else [BothBytes(block[0], block[1])] + RegistersBigEndian(block[2..])
  }

  /** The message is one of its own head's layouts, of exactly its own length. */
  predicate Framed(raw: seq<Byte>, direction: Direction) {
    |raw| >= 4 && Candidate(|raw|, direction) in Candidates(raw)
  }

  /** What a message says beyond its address and function: a register range, a data block or an exception. */
  datatype Content = Content(
    startRegister: Option<Word>, quantity: Option<Word>, registers: seq<Word>, exception: Option<Byte>)

  function ContentOf(raw: seq<Byte>, direction: Direction): Content
    requires Framed(raw, direction)
  {
    var code := raw[1];
    if IsException(code) then Content(None, None, [], Some(raw[2]))
    else if (IsRead(code) && direction.Request?) || (IsWriteMultiple(code) && direction.Response?) then
      Content(Some(WordAt(raw, 2)), Some(WordAt(raw, 4)), [], None)
    else if IsRead(code) then
      Content(None, None, RegistersBigEndian(raw[3..3 + raw[2] as nat]), None)
    else if IsWriteSingle(code) then
      Content(Some(WordAt(raw, 2)), Some(1), [WordAt(raw, 4)], None)
    else if IsWriteMultiple(code) then
      Content(Some(WordAt(raw, 2)), Some(WordAt(raw, 4)), RegistersBigEndian(raw[7..7 + raw[6] as nat]), None)
    else Content(None, None, [], None)
  }

  /** The fields the wire carries; what it leaves out is resolved by `Resolve`. */
  function Fields(raw: seq<Byte>, direction: Direction, crcValid: bool, frameCount: nat): Message
    requires Framed(raw, direction)
  {
    var c := ContentOf(raw, direction);
    Message(direction, raw[0], raw[1], c.startRegister, c.quantity, c.registers, c.exception,
            raw, crcValid, frameCount)
  }

  function OrZero(w: Option<Word>): Word {
    match w case Some(v) => v case None => 0
  }

  /** A single write reads the same on both sides, so the outstanding request says which side this is. */
  function Direct(last: Option<Outstanding>, msg: Message): (Message, Option<Outstanding>) {
    if !IsWriteSingle(msg.code) then (msg, last)
    else if last.Some? && last.value.code == msg.code then (msg.(direction := Response), None)
    else (msg.(direction := Request), None)
  }

  /** A response that carries no address of its own takes the outstanding request's. */
  function Address(last: Option<Outstanding>, msg: Message): (Message, Option<Outstanding>) {
    if msg.direction.Response? && msg.startRegister.None? && last.Some? then
      (msg.(startRegister := Some(last.value.start), quantity := Some(last.value.quantity)), None)
    else (msg, last)
  }

  function Remember(last: Option<Outstanding>, msg: Message): Option<Outstanding> {
    if msg.direction.Request? then
      Some(Outstanding(msg.code, OrZero(msg.startRegister), OrZero(msg.quantity)))
    else last
  }

  /** Pair a message with the outstanding request, which it may answer, replace or leave alone. */
  function Resolve(last: Option<Outstanding>, msg: Message): (Message, Option<Outstanding>) {
    var (directed, left) := Direct(last, msg);
    var (addressed, left2) := Address(left, directed);
    (addressed, Remember(left2, addressed))
  }

  function Build(last: Option<Outstanding>, pendingFrames: nat, raw: seq<Byte>, direction: Direction, crcValid: bool)
    : (Message, Option<Outstanding>)
    requires Framed(raw, direction)
  {
    Resolve(last, Fields(raw, direction, crcValid, AtLeastOne(pendingFrames)))
  }

  // ---------- the drain loop ----------

  predicate AddressMatches(device: Option<Byte>, byte: Byte) {
    match device
    case Some(address) => byte == address
    case None => 1 <= byte <= 247
  }

  function SkipToAddress(device: Option<Byte>, buf: seq<Byte>): (r: seq<Byte>)
    ensures |r| <= |buf|
  {
    if buf == [] || AddressMatches(device, buf[0]) then buf else SkipToAddress(device, buf[1..])
  }

  lemma {:induction false} ChosenIn(cs: seq<Candidate>, buf: seq<Byte>, len: nat)
    requires |buf| >= 2
    ensures FirstValid(cs, buf).Some? ==>
              FirstValid(cs, buf).value in cs && FirstValid(cs, buf).value.len <= |buf|
    ensures FirstGuess(cs, buf).Some? ==>
              FirstGuess(cs, buf).value in cs && FirstGuess(cs, buf).value.len <= |buf|
    ensures FirstOfLength(cs, len).Some? ==>
              FirstOfLength(cs, len).value in cs && FirstOfLength(cs, len).value.len == len
  {
    hide ModbusCrc.Valid, IsPlausible;
    if cs != [] {
      ChosenIn(cs[1..], buf, len);
    }
  }

  /** A layout is at least five bytes long, and its own bytes are enough to recognise it. */
  lemma CandidateFramed(buf: seq<Byte>, c: Candidate)
    requires |buf| >= 2 && c in Candidates(buf)
    ensures c.len >= 5
    ensures c.len <= |buf| ==> Framed(buf[..c.len], c.direction)
  {
    hide IsException, IsRead, IsWriteSingle, IsWriteMultiple;
  }

  lemma TakeIsFramed(policy: CrcPolicy, buf: seq<Byte>, atEnd: bool)
    ensures |buf| >= 4 || Decide(policy, buf, atEnd).NeedMore?
    ensures Decide(policy, buf, atEnd).Take? ==>
            var c := Decide(policy, buf, atEnd).candidate;
            5 <= c.len <= |buf| && Framed(buf[..c.len], c.direction) && c in Candidates(buf)
  {
    hide ModbusCrc.Valid, IsPlausible, Candidates, FirstValid, FirstPlausible, FirstGuess;
    if |buf| >= 4 {
      ChosenIn(Candidates(buf), buf, 0);
      if Decide(policy, buf, atEnd).Take? {
        CandidateFramed(buf, Decide(policy, buf, atEnd).candidate);
      }
    }
  }

  function Drain(config: Config, st: State, atEnd: bool): (State, seq<Message>)
    decreases |st.buf|
  {
    var buf := SkipToAddress(config.deviceAddress, st.buf);
    TakeIsFramed(config.policy, buf, atEnd);
    match Decide(config.policy, buf, atEnd)
    case Take(c, crcValid) =>
      var (msg, last) := Build(st.lastRequest, st.pendingFrames, buf[..c.len], c.direction, crcValid);
      var rest := buf[c.len..];
      var (final, msgs) := Drain(config, State(rest, if rest == [] then 0 else 1, last), atEnd);
      (final, [msg] + msgs)
    case NoMessage =>
      if atEnd then (st.(buf := buf), []) else Drain(config, st.(buf := buf[1..]), atEnd)
    case NeedMore => (st.(buf := buf), [])
  }

  function Evict(buf: seq<Byte>): seq<Byte> {
    if |buf| > MAX_BUFFER then buf[|buf| - MAX_BUFFER..] else buf
  }

  function PushBytes(config: Config, st: State, bytes: seq<Byte>): (State, seq<Message>) {
    if bytes == [] then (st, [])
    else
      var (drained, msgs) := Drain(config, st.(buf := st.buf + bytes), false);
      (drained.(buf := Evict(drained.buf)), msgs)
  }

  function Push(config: Config, st: State, bytes: seq<Byte>): (State, seq<Message>) {
    if bytes == [] then (st, []) else PushBytes(config, st.(pendingFrames := st.pendingFrames + 1), bytes)
  }

  /** End of stream: the final state, the messages recovered, and the bytes left over. */
  function Finish(config: Config, st: State): (State, seq<Message>, seq<Byte>) {
    var (drained, msgs) := Drain(config, st, true);
    (State([], 0, drained.lastRequest), msgs, drained.buf)
  }

  /** One message somebody else already framed. */
  function Interpret(config: Config, st: State, raw: seq<Byte>): (State, Option<Message>) {
    if |raw| < 4 || !AddressMatches(config.deviceAddress, raw[0]) then (st, None)
    else
      ChosenIn(Candidates(raw), raw, |raw|);
      match FirstOfLength(Candidates(raw), |raw|)
      case None => (st, None)
      case Some(c) =>
        var crcValid := ModbusCrc.Valid(raw);
        if !crcValid && !IsPlausible(raw, c) then (st, None)
        else
          var (msg, last) := Build(st.lastRequest, st.pendingFrames, raw, c.direction, crcValid);
          (st.(lastRequest := last), Some(msg))
  }
}
