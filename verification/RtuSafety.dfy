/**
 What holds of every stream, clean or not: the buffer stays short, every message is a
 slice of the input that says truly whether its check agrees, and nothing is used twice.
 */
module RtuSafety {
  import opened Common
  import opened Sequences
  import opened RtuProtocol
  import opened RtuStream
  import opened RtuCleanStream

  /** The longest wait: one byte short of the longest plausible message. */
  const MAX_WAITING := 254

  // ---------- the buffer ----------

  lemma WriteBlockIsShort(bank: RegisterType, quantity: nat)
    requires bank.MaxPerWrite().Some? && quantity <= bank.MaxPerWrite().value
    ensures bank.DataBytes(quantity) <= MAX_DATA_BYTES - 4
  {
  }

  lemma PlausibleIsShort(buf: seq<Byte>, c: Candidate)
    requires |buf| >= 4 && c in Candidates(buf) && IsPlausible(buf, c)
    ensures c.len <= MAX_WAITING + 1
  {
    hide IsException, IsRead, IsWriteSingle, IsWriteMultiple, FromFunctionCode, BothBytes, WordAt,
         RegisterType.DataBytes, RegisterType.MaxPerWrite, RegisterType.MaxPerRead, RegisterType.IsRegisterBank;
    CodesApart(buf[1]);
    if c.len > 8 && IsWriteMultiple(buf[1]) {
      var bank := FromFunctionCode(buf[1]).value;
      if bank.MaxPerWrite().Some? && WordAt(buf, 4) as nat <= bank.MaxPerWrite().value {
        WriteBlockIsShort(bank, WordAt(buf, 4) as nat);
      }
    }
  }

  lemma {:induction false} FirstPlausibleIn(cs: seq<Candidate>, buf: seq<Byte>)
    requires |buf| >= 2 && FirstPlausible(cs, buf).Some?
    ensures FirstPlausible(cs, buf).value in cs && IsPlausible(buf, FirstPlausible(cs, buf).value)
  {
    hide IsPlausible;
    if !IsPlausible(buf, cs[0]) {
      FirstPlausibleIn(cs[1..], buf);
    }
  }

  lemma WaitingIsShort(policy: CrcPolicy, buf: seq<Byte>)
    requires Decide(policy, buf, false).NeedMore?
    ensures |buf| <= MAX_WAITING
  {
    hide ModbusCrc.Valid, IsPlausible, Candidates, FirstValid, FirstGuess, FirstPlausible;
    if |buf| >= 4 {
      FirstPlausibleIn(Candidates(buf), buf);
      PlausibleIsShort(buf, FirstPlausible(Candidates(buf), buf).value);
    }
  }

  /** However much arrives, at most 254 bytes are left waiting. */
  lemma {:induction false} DrainLeavesLittle(config: Config, st: State)
    ensures |Drain(config, st, false).0.buf| <= MAX_WAITING
    decreases |st.buf|
  {
    hide Decide, Build, Framed;
    var buf := SkipToAddress(config.deviceAddress, st.buf);
    TakeIsFramed(config.policy, buf, false);
    match Decide(config.policy, buf, false)
    case Take(c, crcValid) =>
      var rest := buf[c.len..];
      var last := Build(st.lastRequest, st.pendingFrames, buf[..c.len], c.direction, crcValid).1;
      DrainLeavesLittle(config, State(rest, if rest == [] then 0 else 1, last));
    case NoMessage =>
      DrainLeavesLittle(config, st.(buf := buf[1..]));
    case NeedMore =>
      WaitingIsShort(config.policy, buf);
  }

  /** So the eviction that guards against a desynchronised stream never removes a byte. */
  lemma EvictionNeverFires(config: Config, st: State, bytes: seq<Byte>)
    ensures Evict(Drain(config, st, false).0.buf) == Drain(config, st, false).0.buf
    ensures bytes != [] ==> |PushBytes(config, st, bytes).0.buf| <= MAX_WAITING
  {
    hide Drain;
    DrainLeavesLittle(config, st);
    DrainLeavesLittle(config, st.(buf := st.buf + bytes));
  }

  // ---------- every message is a slice of the input ----------

  function Raws(msgs: seq<Message>): (r: seq<seq<Byte>>)
    ensures |r| == |msgs|
  {
    seq(|msgs|, i requires 0 <= i < |msgs| => msgs[i].raw)
  }

  /** The slices lie in `s` in order and without overlap. */
  ghost predicate InOrder(slices: seq<seq<Byte>>, s: seq<Byte>)
    decreases |slices|, 0
  {
    slices == [] || exists i: nat :: FirstAt(slices, s, i)
  }

  /** The first slice lies at `i`, and the others in order behind it. */
  ghost predicate FirstAt(slices: seq<seq<Byte>>, s: seq<Byte>, i: nat)
    requires slices != []
    decreases |slices| - 1, 1
  {
    var end := i + |slices[0]|;
    end <= |s| && s[i..end] == slices[0] && InOrder(slices[1..], s[end..])
  }

  lemma {:induction false} InOrderShift(slices: seq<seq<Byte>>, a: seq<Byte>, s: seq<Byte>)
    requires InOrder(slices, s)
    ensures InOrder(slices, a + s)
  {
    if slices != [] {
      var i: nat :| FirstAt(slices, s, i);
      var n, j := |slices[0]|, |a| + i;
      assert (a + s)[j..j + n] == s[i..i + n];
      assert (a + s)[j + n..] == s[i + n..];
      assert FirstAt(slices, a + s, j);
    }
  }

  lemma {:induction false} InOrderConcat(a: seq<seq<Byte>>, s: seq<Byte>, b: seq<seq<Byte>>, t: seq<Byte>)
    requires InOrder(a, s) && InOrder(b, t)
    ensures InOrder(a + b, s + t)
    decreases |a|
  {
    if a == [] {
      assert a + b == b;
      InOrderShift(b, s, t);
    } else {
      var i: nat :| FirstAt(a, s, i);
      var n := |a[0]|;
      InOrderConcat(a[1..], s[i + n..], b, t);
      assert (a + b)[1..] == a[1..] + b;
      assert (s + t)[i..i + n] == s[i..i + n];
      assert (s + t)[i + n..] == s[i + n..] + t;
      assert FirstAt(a + b, s + t, i);
    }
  }

  lemma InOrderHead(m: seq<Byte>, slices: seq<seq<Byte>>, s: seq<Byte>)
    requires InOrder(slices, s)
    ensures InOrder([m] + slices, m + s)
  {
    assert ([m] + slices)[1..] == slices;
    assert (m + s)[0..0 + |m|] == m && (m + s)[0 + |m|..] == s;
    assert FirstAt([m] + slices, m + s, 0);
  }

  /** `used` bytes of `s` are spoken for by the messages, in order; the rest is `left`. */
  ghost predicate Accounts(msgs: seq<Message>, s: seq<Byte>, left: seq<Byte>) {
    && |left| <= |s| && s[|s| - |left|..] == left
    && InOrder(Raws(msgs), s[..|s| - |left|])
  }

  lemma AccountsCons(msg: Message, msgs: seq<Message>, skipped: seq<Byte>, s: seq<Byte>, left: seq<Byte>)
    requires Accounts(msgs, s, left)
    ensures Accounts([msg] + msgs, skipped + (msg.raw + s), left)
  {
    hide InOrder;
    var used := s[..|s| - |left|];
    var all := skipped + (msg.raw + s);
    InOrderHead(msg.raw, Raws(msgs), used);
    InOrderShift([msg.raw] + Raws(msgs), skipped, msg.raw + used);
    assert Raws([msg] + msgs) == [msg.raw] + Raws(msgs);
    assert all[..|all| - |left|] == skipped + (msg.raw + used);
  }

  lemma AccountsSkip(msgs: seq<Message>, skipped: seq<Byte>, s: seq<Byte>, left: seq<Byte>)
    requires Accounts(msgs, s, left)
    ensures Accounts(msgs, skipped + s, left)
  {
    hide InOrder;
    var used := s[..|s| - |left|];
    InOrderShift(Raws(msgs), skipped, used);
    assert (skipped + s)[..|skipped + s| - |left|] == skipped + used;
  }

  lemma AccountsNone(s: seq<Byte>)
    ensures Accounts([], s, s)
  {
  }

  /** A message that says truly whether its check agrees, and disagrees only where allowed. */
  ghost predicate Honest(config: Config, msg: Message) {
    && |msg.raw| >= 5
    && AddressMatches(config.deviceAddress, msg.raw[0])
    && msg.crcValid == ModbusCrc.Valid(msg.raw)
    && (config.policy.Strict? ==> msg.crcValid)
  }

  lemma {:induction false} ChosenVerdict(cs: seq<Candidate>, buf: seq<Byte>)
    requires |buf| >= 2
    ensures FirstValid(cs, buf).Some? ==>
              var c := FirstValid(cs, buf).value; c.len <= |buf| && ModbusCrc.Valid(buf[..c.len])
    ensures FirstValid(cs, buf).None? && FirstGuess(cs, buf).Some? ==>
              var c := FirstGuess(cs, buf).value; c.len <= |buf| && !ModbusCrc.Valid(buf[..c.len])
  {
    hide ModbusCrc.Valid, IsPlausible;
    if cs != [] {
      ChosenIn(cs[1..], buf, 0);
      ChosenVerdict(cs[1..], buf);
    }
  }

  lemma TakeVerdict(policy: CrcPolicy, buf: seq<Byte>, atEnd: bool)
    requires Decide(policy, buf, atEnd).Take?
    ensures |buf| >= 4
    ensures var t := Decide(policy, buf, atEnd);
            && t.candidate.len <= |buf|
            && t.crcValid == ModbusCrc.Valid(buf[..t.candidate.len])
            && (policy.Strict? ==> t.crcValid)
  {
    hide ModbusCrc.Valid, IsPlausible, Candidates, FirstValid, FirstGuess, FirstPlausible;
    ChosenIn(Candidates(buf), buf, 0);
    ChosenVerdict(Candidates(buf), buf);
  }

  lemma {:induction false} SkipStops(device: Option<Byte>, buf: seq<Byte>)
    ensures var r := SkipToAddress(device, buf);
            r == buf[|buf| - |r|..] && (r != [] ==> AddressMatches(device, r[0]))
  {
    hide AddressMatches;
    if buf != [] && !AddressMatches(device, buf[0]) {
      SkipStops(device, buf[1..]);
    }
  }

  lemma {:induction false} SkipAppends(device: Option<Byte>, a: seq<Byte>, b: seq<Byte>)
    ensures SkipToAddress(device, a + b) ==
            if SkipToAddress(device, a) == [] then SkipToAddress(device, b) else SkipToAddress(device, a) + b
  {
    hide AddressMatches;
    if a == [] {
      assert a + b == b;
    } else {
      assert (a + b)[1..] == a[1..] + b;
      if !AddressMatches(device, a[0]) {
        SkipAppends(device, a[1..], b);
      }
    }
  }

  /** Bytes that no message can start with. */
  predicate Junk(device: Option<Byte>, bytes: seq<Byte>) {
    forall i :: 0 <= i < |bytes| ==> !AddressMatches(device, bytes[i])
  }

  lemma {:induction false} JunkIsSkipped(device: Option<Byte>, bytes: seq<Byte>)
    ensures SkipToAddress(device, bytes) == [] <==> Junk(device, bytes)
  {
    hide AddressMatches;
    if bytes != [] && !AddressMatches(device, bytes[0]) {
      JunkIsSkipped(device, bytes[1..]);
      assert forall i :: 0 < i < |bytes| ==> bytes[i] == bytes[1..][i - 1];
    }
  }

  /** A drain looks at nothing before the first byte a message can start with. */
  lemma SameSkip(config: Config, a: State, b: State, atEnd: bool)
    requires SkipToAddress(config.deviceAddress, a.buf) == SkipToAddress(config.deviceAddress, b.buf)
    requires a.pendingFrames == b.pendingFrames && a.lastRequest == b.lastRequest
    ensures Drain(config, a, atEnd) == Drain(config, b, atEnd)
  {
    hide Decide, Build, Candidates;
  }

  // ---------- one round of the drain loop ----------

  /** What a round removes before it decides, and what it decides on. */
  lemma Skipped(device: Option<Byte>, buf: seq<Byte>)
    ensures var r := SkipToAddress(device, buf);
            buf == buf[..|buf| - |r|] + r && (r != [] ==> AddressMatches(device, r[0]))
  {
    hide AddressMatches;
    SkipStops(device, buf);
  }

  lemma TakeRound(config: Config, st: State, atEnd: bool)
    requires Decide(config.policy, SkipToAddress(config.deviceAddress, st.buf), atEnd).Take?
    ensures var buf := SkipToAddress(config.deviceAddress, st.buf);
            var t := Decide(config.policy, buf, atEnd);
            var c := t.candidate;
            && 5 <= c.len <= |buf| && Framed(buf[..c.len], c.direction)
            && var (msg, last) := Build(st.lastRequest, st.pendingFrames, buf[..c.len], c.direction, t.crcValid);
               var rest := buf[c.len..];
               var (final, msgs) := Drain(config, State(rest, if rest == [] then 0 else 1, last), atEnd);
               Drain(config, st, atEnd) == (final, [msg] + msgs)
  {
    TakeIsFramed(config.policy, SkipToAddress(config.deviceAddress, st.buf), atEnd);
    hide Decide, Build, Candidates, Framed;
  }

  lemma DropRound(config: Config, st: State)
    requires Decide(config.policy, SkipToAddress(config.deviceAddress, st.buf), false).NoMessage?
    ensures var buf := SkipToAddress(config.deviceAddress, st.buf);
            buf != [] && Drain(config, st, false) == Drain(config, st.(buf := buf[1..]), false)
  {
    TakeIsFramed(config.policy, SkipToAddress(config.deviceAddress, st.buf), false);
    hide Decide, Build, Candidates, Framed;
  }

  lemma LastRound(config: Config, st: State, atEnd: bool)
    requires var d := Decide(config.policy, SkipToAddress(config.deviceAddress, st.buf), atEnd);
             d.NeedMore? || (d.NoMessage? && atEnd)
    ensures Drain(config, st, atEnd) == (st.(buf := SkipToAddress(config.deviceAddress, st.buf)), [])
  {
    hide Decide, Build, Candidates, Framed;
  }

  /** Draining uses up its buffer from the front: junk, messages, and what is left, in order. */
  ghost predicate Accounted(config: Config, st: State, atEnd: bool) {
    var (final, msgs) := Drain(config, st, atEnd);
    Accounts(msgs, st.buf, final.buf) && AllHonest(config, msgs)
  }

  ghost predicate AllHonest(config: Config, msgs: seq<Message>) {
    forall i :: 0 <= i < |msgs| ==> Honest(config, msgs[i])
  }

  lemma AccountedTake(config: Config, st: State, atEnd: bool, buf: seq<Byte>, msg: Message, next: State)
    requires |buf| <= |st.buf| && st.buf == st.buf[..|st.buf| - |buf|] + buf
    requires |msg.raw| <= |buf| && msg.raw == buf[..|msg.raw|] && next.buf == buf[|msg.raw|..] && Honest(config, msg)
    requires Accounted(config, next, atEnd)
    requires Drain(config, st, atEnd) == (Drain(config, next, atEnd).0, [msg] + Drain(config, next, atEnd).1)
    ensures Accounted(config, st, atEnd)
  {
    hide Drain, Accounts, Honest;
    var skipped := st.buf[..|st.buf| - |buf|];
    assert buf == msg.raw + next.buf;
    AccountsCons(msg, Drain(config, next, atEnd).1, skipped, next.buf, Drain(config, next, atEnd).0.buf);
  }

  lemma AccountedSkip(config: Config, st: State, atEnd: bool, buf: seq<Byte>, next: State)
    requires |buf| <= |st.buf| && st.buf == st.buf[..|st.buf| - |buf|] + buf
    requires buf != [] && next.buf == buf[1..]
    requires Accounted(config, next, atEnd)
    requires Drain(config, st, atEnd) == Drain(config, next, atEnd)
    ensures Accounted(config, st, atEnd)
  {
    hide Drain, Accounts, AllHonest;
    var skipped := st.buf[..|st.buf| - |buf|] + buf[..1];
    assert st.buf == skipped + next.buf;
    AccountsSkip(Drain(config, next, atEnd).1, skipped, next.buf, Drain(config, next, atEnd).0.buf);
  }

  lemma AccountedStop(config: Config, st: State, atEnd: bool, left: seq<Byte>)
    requires |left| <= |st.buf| && st.buf == st.buf[..|st.buf| - |left|] + left
    requires Drain(config, st, atEnd) == (st.(buf := left), [])
    ensures Accounted(config, st, atEnd)
  {
    hide Drain, Accounts, Honest;
    AccountsNone(left);
    AccountsSkip([], st.buf[..|st.buf| - |left|], left, left);
  }

  lemma TakenHonest(config: Config, st: State, buf: seq<Byte>, atEnd: bool)
    requires Decide(config.policy, buf, atEnd).Take? && (buf != [] ==> AddressMatches(config.deviceAddress, buf[0]))
    ensures var t := Decide(config.policy, buf, atEnd);
            var c := t.candidate;
            && 5 <= c.len <= |buf| && Framed(buf[..c.len], c.direction)
            && var msg := Build(st.lastRequest, st.pendingFrames, buf[..c.len], c.direction, t.crcValid).0;
               msg.raw == buf[..c.len] && Honest(config, msg)
  {
    hide Decide, Build, Candidates, Framed, AddressMatches, ModbusCrc.Valid;
    TakeIsFramed(config.policy, buf, atEnd);
    TakeVerdict(config.policy, buf, atEnd);
    var t := Decide(config.policy, buf, atEnd);
    BuildKeepsRaw(st.lastRequest, st.pendingFrames, buf[..t.candidate.len], t.candidate.direction, t.crcValid);
  }

  lemma {:induction false} DrainAccounts(config: Config, st: State, atEnd: bool)
    ensures Accounted(config, st, atEnd)
    decreases |st.buf|
  {
    hide Decide, Build, Framed, Drain, Accounted, Honest, AddressMatches, SkipToAddress;
    var buf := SkipToAddress(config.deviceAddress, st.buf);
    Skipped(config.deviceAddress, st.buf);
    match Decide(config.policy, buf, atEnd)
    case Take(c, crcValid) =>
      TakeRound(config, st, atEnd);
      TakenHonest(config, st, buf, atEnd);
      var (msg, last) := Build(st.lastRequest, st.pendingFrames, buf[..c.len], c.direction, crcValid);
      var rest := buf[c.len..];
      var next := State(rest, if rest == [] then 0 else 1, last);
      DrainAccounts(config, next, atEnd);
      AccountedTake(config, st, atEnd, buf, msg, next);
    case NoMessage =>
      if atEnd {
        LastRound(config, st, atEnd);
        AccountedStop(config, st, atEnd, buf);
      } else {
        DropRound(config, st);
        var next := st.(buf := buf[1..]);
        DrainAccounts(config, next, atEnd);
        AccountedSkip(config, st, atEnd, buf, next);
      }
    case NeedMore =>
      LastRound(config, st, atEnd);
      AccountedStop(config, st, atEnd, buf);
  }

  lemma AccountsThen(a: seq<Message>, s: seq<Byte>, left: seq<Byte>, b: seq<Message>, more: seq<Byte>, final: seq<Byte>)
    requires Accounts(a, s, left) && Accounts(b, left + more, final)
    ensures Accounts(a + b, s + more, final)
  {
    hide InOrder;
    var used := s[..|s| - |left|];
    assert s + more == used + (left + more);
    var used2 := (left + more)[..|left + more| - |final|];
    InOrderConcat(Raws(a), used, Raws(b), used2);
    assert Raws(a + b) == Raws(a) + Raws(b);
    assert (s + more)[..|s + more| - |final|] == used + used2;
  }

  /**
   Over any run of pushes: the messages are slices of the input in order and without overlap,
   each honest about its check, and all that is kept is the input's last few bytes.
   */
  lemma {:induction false} RunAccounts(config: Config, st: State, chunks: seq<seq<Byte>>)
    ensures var (final, msgs) := PushAll(config, st, chunks);
            && Accounts(msgs, st.buf + Flatten(chunks), final.buf)
            && AllHonest(config, msgs)
            && (|st.buf| <= MAX_WAITING ==> |final.buf| <= MAX_WAITING)
    decreases |chunks|
  {
    hide PushBytes, Accounts, Honest;
    if chunks == [] {
      assert st.buf + Flatten(chunks) == st.buf;
      AccountsNone(st.buf);
    } else {
      var (next, msgs) := PushBytes(config, st, chunks[0]);
      PushAccounts(config, st, chunks[0]);
      RunAccounts(config, next, chunks[1..]);
      var (final, more) := PushAll(config, next, chunks[1..]);
      assert st.buf + Flatten(chunks) == (st.buf + chunks[0]) + Flatten(chunks[1..]);
      AccountsThen(msgs, st.buf + chunks[0], next.buf, more, Flatten(chunks[1..]), final.buf);
    }
  }

  lemma PushAccounts(config: Config, st: State, bytes: seq<Byte>)
    ensures var (next, msgs) := PushBytes(config, st, bytes);
            && Accounts(msgs, st.buf + bytes, next.buf)
            && AllHonest(config, msgs)
            && (|st.buf| <= MAX_WAITING ==> |next.buf| <= MAX_WAITING)
  {
    hide Drain, Accounts, Honest;
    if bytes == [] {
      assert st.buf + bytes == st.buf;
      AccountsNone(st.buf);
    } else {
      var fed := st.(buf := st.buf + bytes);
      DrainAccounts(config, fed, false);
      EvictionNeverFires(config, fed, bytes);
      EvictionNeverFires(config, st, bytes);
    }
  }

  // ---------- end of stream ----------

  lemma DrainNothing(config: Config, st: State)
    requires st.buf == []
    ensures Drain(config, st, true) == (st, [])
  {
  }

  /** What is left over starts no message that its bytes could complete. */
  ghost predicate NoMessageAtHead(config: Config, residue: seq<Byte>) {
    && (residue == [] || AddressMatches(config.deviceAddress, residue[0]))
    && (|residue| >= 4 ==>
          forall c :: c in Candidates(residue) && c.len <= |residue| ==>
            !ModbusCrc.Valid(residue[..c.len]) && (config.policy.Lenient? ==> !IsPlausible(residue, c)))
  }

  lemma {:induction false} NothingChosen(cs: seq<Candidate>, buf: seq<Byte>, c: Candidate)
    requires |buf| >= 2 && c in cs && c.len <= |buf|
    ensures FirstValid(cs, buf).None? ==> !ModbusCrc.Valid(buf[..c.len])
    ensures FirstGuess(cs, buf).None? ==> !IsPlausible(buf, c)
  {
    hide ModbusCrc.Valid, IsPlausible;
    if cs[0] != c {
      NothingChosen(cs[1..], buf, c);
    }
  }

  lemma NotTaken(config: Config, buf: seq<Byte>)
    requires !Decide(config.policy, buf, true).Take? && (buf == [] || AddressMatches(config.deviceAddress, buf[0]))
    ensures NoMessageAtHead(config, buf)
  {
    hide ModbusCrc.Valid, IsPlausible, Candidates, FirstValid, FirstPlausible, FirstGuess, AddressMatches;
    if |buf| >= 4 {
      forall c | c in Candidates(buf) && c.len <= |buf|
        ensures !ModbusCrc.Valid(buf[..c.len]) && (config.policy.Lenient? ==> !IsPlausible(buf, c))
      {
        NothingChosen(Candidates(buf), buf, c);
      }
    }
  }

  lemma {:induction false} DrainStops(config: Config, st: State)
    ensures var left := Drain(config, st, true).0.buf;
            && SkipToAddress(config.deviceAddress, left) == left
            && !Decide(config.policy, left, true).Take?
            && (left == [] || AddressMatches(config.deviceAddress, left[0]))
    decreases |st.buf|
  {
    hide Decide, Build, Candidates, Framed, Drain, AddressMatches;
    var buf := SkipToAddress(config.deviceAddress, st.buf);
    if Decide(config.policy, buf, true).Take? {
      TakeRound(config, st, true);
      var t := Decide(config.policy, buf, true);
      var c := t.candidate;
      var last := Build(st.lastRequest, st.pendingFrames, buf[..c.len], c.direction, t.crcValid).1;
      DrainStops(config, State(buf[c.len..], if buf[c.len..] == [] then 0 else 1, last));
    } else {
      LastRound(config, st, true);
      SkipStops(config.deviceAddress, st.buf);
      NoSkip(config.deviceAddress, buf);
    }
  }

  /** `Finish` accounts for every byte, leaves no message over, empties the buffer, and has nothing to say twice. */
  lemma FinishOnce(config: Config, st: State)
    ensures var (done, msgs, residue) := Finish(config, st);
            && Accounts(msgs, st.buf, residue)
            && AllHonest(config, msgs)
            && NoMessageAtHead(config, residue)
            && done.buf == []
            && Finish(config, done) == (done, [], [])
  {
    hide Accounts, Honest, Drain, Decide, NoMessageAtHead;
    DrainAccounts(config, st, true);
    DrainStops(config, st);
    NotTaken(config, Drain(config, st, true).0.buf);
    var done := Finish(config, st).0;
    DrainNothing(config, done);
  }

  /**
   What `Finish` leaves is not a message: no layout of its head is complete with a check that agrees, nor, under
   the lenient policy, plausible. Fed to `Finish` again it stays whole and yields nothing.
   */
  lemma ResidueIsNoMessage(config: Config, st: State, again: State)
    requires again.buf == Finish(config, st).2
    ensures NoMessageAtHead(config, Finish(config, st).2)
    ensures Finish(config, again).1 == [] && Finish(config, again).2 == Finish(config, st).2
  {
    hide Drain, Decide, NoMessageAtHead, SkipToAddress;
    DrainStops(config, st);
    NotTaken(config, again.buf);
    LastRound(config, again, true);
  }
}
