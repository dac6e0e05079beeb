/**
 Whole messages with bytes between them that no message can start with come back as exactly
 those messages, however the bytes are cut up and under either CRC policy.
 */
module RtuNoisyStream {
  import opened Common
  import opened Sequences
  import opened RtuStream
  import opened RtuCleanStream
  import opened RtuSafety

  /** Bytes that start nothing, and the message behind them. */
  datatype Item = Item(noise: seq<Byte>, message: seq<Byte>)

  /** The items on the wire, and what comes behind the last. */
  function Wire(items: seq<Item>, tail: seq<Byte>): seq<Byte> {
    if items == [] then tail else items[0].noise + (items[0].message + Wire(items[1..], tail))
  }

  function Messages(items: seq<Item>): seq<seq<Byte>> {
    if items == [] then [] else [items[0].message] + Messages(items[1..])
  }

  /** Each message is clean at the head of what follows, its noise included. */
  ghost predicate NoisyClean(config: Config, items: seq<Item>, tail: seq<Byte>) {
    if items == [] then Junk(config.deviceAddress, tail)
    else
      && Junk(config.deviceAddress, items[0].noise)
      && CleanHead(config, items[0].message, items[0].message + Wire(items[1..], tail))
      && NoisyClean(config, items[1..], tail)
  }

  // ---------- where a cut falls ----------

  /** The messages before a cut, the part of the next one before it, and what is still to come, that part included. */
  datatype Cut = Cut(whole: seq<seq<Byte>>, part: seq<Byte>, rest: seq<Item>, tail: seq<Byte>)

  function CutAt(items: seq<Item>, tail: seq<Byte>, n: nat): Cut
    requires n <= |Wire(items, tail)|
  {
    if items == [] then Cut([], [], [], tail[n..])
    else
      var noise, message := items[0].noise, items[0].message;
      if n < |noise| then Cut([], [], [Item(noise[n..], message)] + items[1..], tail)
      else if n < |noise| + |message| then
        Cut([], message[..n - |noise|], [Item([], message)] + items[1..], tail)
      else
        var c := CutAt(items[1..], tail, n - |noise| - |message|);
        c.(whole := [message] + c.whole)
  }

  /** What is still to come is the part held back and the bytes behind the cut. */
  lemma {:induction false} CutBytes(items: seq<Item>, tail: seq<Byte>, n: nat)
    requires n <= |Wire(items, tail)|
    ensures var c := CutAt(items, tail, n); c.part + Wire(items, tail)[n..] == Wire(c.rest, c.tail)
    decreases |items|
  {
    if items != [] {
      var noise, message, behind := items[0].noise, items[0].message, Wire(items[1..], tail);
      if n < |noise| {
        assert ([Item(noise[n..], message)] + items[1..])[1..] == items[1..];
        assert (noise + (message + behind))[n..] == noise[n..] + (message + behind);
      } else if n < |noise| + |message| {
        assert ([Item([], message)] + items[1..])[1..] == items[1..];
        assert (noise + (message + behind))[n..] == message[n - |noise|..] + behind;
        assert message[..n - |noise|] + (message[n - |noise|..] + behind) == [] + (message + behind);
      } else {
        var k := n - |noise| - |message|;
        CutBytes(items[1..], tail, k);
        assert (noise + (message + behind))[n..] == behind[k..];
      }
    }
  }

  lemma {:induction false} CutMessages(items: seq<Item>, tail: seq<Byte>, n: nat)
    requires n <= |Wire(items, tail)|
    ensures var c := CutAt(items, tail, n); Messages(items) == c.whole + Messages(c.rest)
    decreases |items|
  {
    if items != [] {
      var noise, message := items[0].noise, items[0].message;
      if n < |noise| {
        assert ([Item(noise[n..], message)] + items[1..])[1..] == items[1..];
      } else if n < |noise| + |message| {
        assert ([Item([], message)] + items[1..])[1..] == items[1..];
      } else {
        var c := CutAt(items[1..], tail, n - |noise| - |message|);
        CutMessages(items[1..], tail, n - |noise| - |message|);
        AppendAssociative([message], c.whole, Messages(c.rest));
      }
    }
  }

  lemma JunkBehind(device: Option<Byte>, bytes: seq<Byte>, n: nat)
    requires Junk(device, bytes) && n <= |bytes|
    ensures Junk(device, bytes[n..]) && Junk(device, bytes[..n])
  {
    hide AddressMatches;
    assert forall i :: 0 <= i < |bytes| - n ==> bytes[n..][i] == bytes[n + i];
  }

  lemma {:induction false} CutClean(config: Config, items: seq<Item>, tail: seq<Byte>, n: nat)
    requires NoisyClean(config, items, tail) && n <= |Wire(items, tail)|
    ensures var c := CutAt(items, tail, n); NoisyClean(config, c.rest, c.tail)
    decreases |items|
  {
    hide CleanHead, Junk;
    if items == [] {
      JunkBehind(config.deviceAddress, tail, n);
    } else {
      var noise, message := items[0].noise, items[0].message;
      if n < |noise| {
        JunkBehind(config.deviceAddress, noise, n);
        assert ([Item(noise[n..], message)] + items[1..])[1..] == items[1..];
      } else if n < |noise| + |message| {
        NothingIsJunk(config.deviceAddress);
        assert ([Item([], message)] + items[1..])[1..] == items[1..];
      } else {
        CutClean(config, items[1..], tail, n - |noise| - |message|);
      }
    }
  }

  lemma NothingIsJunk(device: Option<Byte>)
    ensures Junk(device, [])
  {
  }

  // ---------- draining ----------

  /** The whole messages come out as `Interpret` reads them, and the part of the next one stays. */
  ghost predicate Yields(config: Config, st: State, c: Cut) {
    var (final, msgs) := Drain(config, st, false);
    && final.buf == c.part && final.pendingFrames <= 1
    && (msgs, final.lastRequest) == InterpretAll(config, st.lastRequest, c.whole)
  }

  lemma JunkYields(config: Config, st: State, c: Cut)
    requires Junk(config.deviceAddress, st.buf) && st.pendingFrames <= 1 && c.whole == [] && c.part == []
    ensures Yields(config, st, c)
  {
    hide Drain, Junk, Decide;
    JunkIsSkipped(config.deviceAddress, st.buf);
    ShortWaits(config.policy, []);
    LastRound(config, st, false);
  }

  /** Junk in front of bytes that start a message is as good as absent. */
  lemma JunkAway(config: Config, st: State, noise: seq<Byte>, bytes: seq<Byte>)
    requires st.buf == noise + bytes && Junk(config.deviceAddress, noise)
    requires bytes == [] || AddressMatches(config.deviceAddress, bytes[0])
    ensures Drain(config, st, false) == Drain(config, st.(buf := bytes), false)
  {
    hide Drain, AddressMatches, Junk;
    JunkIsSkipped(config.deviceAddress, noise);
    SkipAppends(config.deviceAddress, noise, bytes);
    NoSkip(config.deviceAddress, bytes);
    SameSkip(config, st, st.(buf := bytes), false);
  }

  lemma PartYields(config: Config, st: State, noise: seq<Byte>, m: seq<Byte>, stream: seq<Byte>, c: Cut)
    requires st.buf == noise + c.part && Junk(config.deviceAddress, noise) && st.pendingFrames <= 1
    requires CleanHead(config, m, stream) && c.part <= m && |c.part| < |m| && c.whole == []
    ensures Yields(config, st, c)
  {
    hide Drain, Decide, CleanHead, AddressMatches, Junk;
    HeadFacts(config, m, stream);
    JunkAway(config, st, noise, c.part);
    NoSkip(config.deviceAddress, c.part);
    PartWaits(config, m, stream, c.part);
    DrainWaits(config, st.(buf := c.part));
  }

  /** One whole message comes out first, and then what the rest yields. */
  lemma WholeYields(
    config: Config, st: State, noise: seq<Byte>, m: seq<Byte>, stream: seq<Byte>, more: seq<Byte>, c: Cut)
    returns (next: State)
    requires st.buf == noise + (m + more) && Junk(config.deviceAddress, noise) && st.pendingFrames <= 1
    requires CleanHead(config, m, stream) && m + more <= stream
    ensures next.buf == more && next.pendingFrames <= 1
    ensures Yields(config, next, c) ==> Yields(config, st, c.(whole := [m] + c.whole))
  {
    hide Drain, Decide, CleanHead, AddressMatches, Junk, Interpret, Build, Candidates, FirstOfLength, Framed;
    HeadFacts(config, m, stream);
    JunkAway(config, st, noise, m + more);
    NoSkip(config.deviceAddress, m + more);
    WholeIsTaken(config, m, stream, m + more, false);
    var t := FirstOfLength(Candidates(m), |m|).value;
    assert (m + more)[..|m|] == m && (m + more)[|m|..] == more;
    DrainTakes(config, st.(buf := m + more), t, true);
    InterpretsClean(config, st.lastRequest, m, stream, st.pendingFrames);
    var (msg, last) := Build(st.lastRequest, st.pendingFrames, m, t.direction, true);
    next := State(more, if more == [] then 0 else 1, last);
    assert ([m] + c.whole)[1..] == c.whole;
  }

  /** Draining the first bytes of a noisy stream yields the messages whole within them. */
  lemma {:induction false} DrainNoisy(config: Config, st: State, items: seq<Item>, tail: seq<Byte>)
    requires NoisyClean(config, items, tail) && st.buf <= Wire(items, tail) && st.pendingFrames <= 1
    ensures Yields(config, st, CutAt(items, tail, |st.buf|))
    decreases |items|
  {
    hide Yields, CleanHead, Junk;
    var n := |st.buf|;
    if items == [] {
      JunkBehind(config.deviceAddress, tail, n);
      assert st.buf == tail[..n];
      JunkYields(config, st, CutAt(items, tail, n));
    } else {
      var noise, m, behind := items[0].noise, items[0].message, Wire(items[1..], tail);
      if n < |noise| {
        JunkBehind(config.deviceAddress, noise, n);
        assert st.buf == noise[..n];
        JunkYields(config, st, CutAt(items, tail, n));
      } else if n < |noise| + |m| {
        assert st.buf == noise + m[..n - |noise|];
        PartYields(config, st, noise, m, m + behind, CutAt(items, tail, n));
      } else {
        var k := n - |noise| - |m|;
        assert st.buf == noise + (m + behind[..k]) && m + behind[..k] <= m + behind;
        var next := WholeYields(config, st, noise, m, m + behind, behind[..k], CutAt(items[1..], tail, k));
        DrainNoisy(config, next, items[1..], tail);
      }
    }
  }

  // ---------- any way of cutting the stream ----------

  lemma PushNoisy(config: Config, st: State, chunk: seq<Byte>, items: seq<Item>, tail: seq<Byte>)
    requires NoisyClean(config, items, tail) && st.buf + chunk <= Wire(items, tail) && st.pendingFrames <= 1
    requires chunk != []
    ensures var c := CutAt(items, tail, |st.buf + chunk|);
            var (next, msgs) := PushBytes(config, st, chunk);
            && next.buf == c.part && next.pendingFrames <= 1
            && (msgs, next.lastRequest) == InterpretAll(config, st.lastRequest, c.whole)
  {
    hide Drain, NoisyClean, CutAt, Evict;
    var fed := st.(buf := st.buf + chunk);
    DrainNoisy(config, fed, items, tail);
    EvictionNeverFires(config, fed, chunk);
  }

  lemma RestOfNoisy(config: Config, read: seq<Byte>, more: seq<Byte>, items: seq<Item>, tail: seq<Byte>)
    requires NoisyClean(config, items, tail) && read + more == Wire(items, tail)
    ensures var c := CutAt(items, tail, |read|);
            && NoisyClean(config, c.rest, c.tail)
            && c.part + more == Wire(c.rest, c.tail)
            && Messages(items) == c.whole + Messages(c.rest)
  {
    hide NoisyClean, CutAt, Wire;
    CutBytes(items, tail, |read|);
    CutMessages(items, tail, |read|);
    CutClean(config, items, tail, |read|);
    assert Wire(items, tail)[|read|..] == more;
  }

  lemma InterpretAllAppend(config: Config, last: Option<Outstanding>, a: seq<seq<Byte>>, b: seq<seq<Byte>>)
    ensures var (first, after) := InterpretAll(config, last, a);
            var (rest, final) := InterpretAll(config, after, b);
            InterpretAll(config, last, a + b) == (first + rest, final)
  {
    hide Interpret, InterpretAll;
    assert (a + b)[..|a|] == a && (a + b)[|a|..] == b;
    InterpretAllSplit(config, last, a + b, |a|);
  }

  /** A buffer that a drain would leave as it is, as every push does. */
  ghost predicate Settled(config: Config, st: State) { Drain(config, st, false) == (st, []) }

  lemma {:induction false} SettledAfterDrain(config: Config, st: State)
    ensures Settled(config, Drain(config, st, false).0)
    decreases |st.buf|
  {
    hide Decide, Build, Candidates, Framed, Drain;
    var buf := SkipToAddress(config.deviceAddress, st.buf);
    match Decide(config.policy, buf, false)
    case Take(c, crcValid) =>
      TakeRound(config, st, false);
      var last := Build(st.lastRequest, st.pendingFrames, buf[..c.len], c.direction, crcValid).1;
      SettledAfterDrain(config, State(buf[c.len..], if buf[c.len..] == [] then 0 else 1, last));
    case NoMessage =>
      DropRound(config, st);
      SettledAfterDrain(config, st.(buf := buf[1..]));
    case NeedMore =>
      LastRound(config, st, false);
      SkipStops(config.deviceAddress, st.buf);
      NoSkip(config.deviceAddress, buf);
      LastRound(config, st.(buf := buf), false);
  }

  lemma SettledAfterPush(config: Config, st: State, chunk: seq<Byte>)
    requires chunk != []
    ensures Settled(config, PushBytes(config, st, chunk).0)
  {
    hide Drain, Settled, Evict;
    var fed := st.(buf := st.buf + chunk);
    SettledAfterDrain(config, fed);
    EvictionNeverFires(config, fed, chunk);
  }

  /** Once everything has been read, nothing of it waits and no message is outstanding. */
  lemma AllNoisyRead(config: Config, st: State, items: seq<Item>, tail: seq<Byte>)
    requires NoisyClean(config, items, tail) && st.buf == Wire(items, tail) && st.pendingFrames <= 1
    requires Settled(config, st)
    ensures st.buf == [] && Messages(items) == []
  {
    hide Drain, CleanHead, Junk, InterpretAll;
    DrainNoisy(config, st, items, tail);
    WholeCut(items, tail);
    if items != [] {
      FirstInterpreted(config, st.lastRequest, items, tail);
      assert false;
    }
  }

  lemma {:induction false} WholeCut(items: seq<Item>, tail: seq<Byte>)
    ensures CutAt(items, tail, |Wire(items, tail)|) == Cut(Messages(items), [], [], [])
  {
    if items != [] {
      WholeCut(items[1..], tail);
    }
  }

  lemma FirstInterpreted(config: Config, last: Option<Outstanding>, items: seq<Item>, tail: seq<Byte>)
    requires NoisyClean(config, items, tail) && items != []
    ensures InterpretAll(config, last, Messages(items)).0 != []
  {
    hide CleanHead, Junk, Interpret, Build, Candidates, Framed, FirstOfLength;
    InterpretsClean(config, last, items[0].message, items[0].message + Wire(items[1..], tail), 0);
  }

  /**
   Clean messages with any bytes between, before and behind them that no message can start with, cut any way
   at all, come back as those messages in order, labelled as if each had been handed over already framed.
   */
  lemma {:induction false} NoisyStreamExact(
    config: Config, st: State, chunks: seq<seq<Byte>>, items: seq<Item>, tail: seq<Byte>)
    requires NoisyClean(config, items, tail) && st.buf + Flatten(chunks) == Wire(items, tail) && st.pendingFrames <= 1
    requires Settled(config, st)
    ensures var (final, msgs) := PushAll(config, st, chunks);
            && final.buf == []
            && (msgs, final.lastRequest) == InterpretAll(config, st.lastRequest, Messages(items))
    decreases |chunks|
  {
    hide PushBytes, InterpretAll, NoisyClean, CutAt, Wire, Messages, Settled;
    if chunks == [] {
      AppendNothing(st.buf);
      AllNoisyRead(config, st, items, tail);
      InterpretNone(config, st.lastRequest);
    } else if chunks[0] == [] {
      PushNothing(config, st, chunks);
      NoisyStreamExact(config, st, chunks[1..], items, tail);
    } else {
      AppendAssociative(st.buf, chunks[0], Flatten(chunks[1..]));
      PushNoisy(config, st, chunks[0], items, tail);
      SettledAfterPush(config, st, chunks[0]);
      RestOfNoisy(config, st.buf + chunks[0], Flatten(chunks[1..]), items, tail);
      var c := CutAt(items, tail, |st.buf + chunks[0]|);
      InterpretAllAppend(config, st.lastRequest, c.whole, Messages(c.rest));
      NoisyStreamExact(config, PushBytes(config, st, chunks[0]).0, chunks[1..], c.rest, c.tail);
    }
  }

  lemma PushNothing(config: Config, st: State, chunks: seq<seq<Byte>>)
    requires chunks != [] && chunks[0] == []
    ensures PushAll(config, st, chunks) == PushAll(config, st, chunks[1..])
    ensures Flatten(chunks) == Flatten(chunks[1..])
  {
    var (final, more) := PushAll(config, st, chunks[1..]);
    assert [] + more == more;
  }

  /** One message out per message in: same bytes, check agreed, one frame each. */
  lemma {:induction false} NoisyFaithful(config: Config, last: Option<Outstanding>, items: seq<Item>, tail: seq<Byte>)
    requires NoisyClean(config, items, tail)
    ensures var msgs := InterpretAll(config, last, Messages(items)).0;
            && |msgs| == |items|
            && forall i :: 0 <= i < |msgs| ==>
                 msgs[i].raw == items[i].message && msgs[i].crcValid && msgs[i].frameCount == 1
    decreases |items|
  {
    hide CleanHead, Junk, Interpret, Candidates, Framed, Build;
    if items != [] {
      var m, stream := items[0].message, items[0].message + Wire(items[1..], tail);
      HeadFacts(config, m, stream);
      InterpretsClean(config, last, m, stream, 0);
      var c := FirstOfLength(Candidates(m), |m|).value;
      BuildKeepsRaw(last, 0, m, c.direction, true);
      NoisyFaithful(config, Build(last, 0, m, c.direction, true).1, items[1..], tail);
    }
  }
}
