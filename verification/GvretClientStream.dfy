/**
 A handshake and then any stream without a second one: the commands a client wrote are the
 commands the server reads, however the bytes arrive.
 */
module GvretClientStream {
  import opened Common
  import opened Sequences
  import opened Numbers
  import opened Resync
  import opened Gvret
  import opened GvretClient

  const SYNC: seq<Octet> := [SYNC_BYTE, SYNC_BYTE]

  ghost function FedAll(st: State, chunks: seq<seq<Octet>>): (State, seq<ClientCommand>)
    decreases |chunks|
  {
    if chunks == [] then (st, [])
    else
      var (next, cmds) := Fed(st, chunks[0]);
      var (final, more) := FedAll(next, chunks[1..]);
      (final, cmds + more)
  }

  // ---------- once latched ----------

  lemma QuietFeed(buf: seq<Octet>, chunk: seq<Octet>)
    requires NoSync(buf + chunk)
    ensures Bounded(ReadClient)
    ensures Fed(State(true, buf), chunk) ==
            (State(true, Run(ReadClient, buf + chunk).1), Run(ReadClient, buf + chunk).0)
  {
    ClientReader();
    hide ReadClient, Bounded, Steady, Run, NoSync;
    NoSyncNoCut(buf + chunk);
  }

  lemma LeftStaysQuiet(all: seq<Octet>, left: seq<Octet>, more: seq<Octet>)
    requires NoSync(all + more) && Ends(all, left)
    ensures NoSync(left + more)
  {
    hide NoSync;
    assert Ends(all + more, left + more);
    SuffixNoSync(all + more, left + more);
  }

  /** A latched decoder that meets no further handshake just reads. */
  lemma {:induction false} QuietFeeds(buf: seq<Octet>, chunks: seq<seq<Octet>>)
    requires NoSync(buf + Flatten(chunks)) && SkipToCommand(buf) == buf && ReadClient(buf).NeedMore?
    ensures Bounded(ReadClient)
    ensures var (cmds, left) := Run(ReadClient, buf + Flatten(chunks));
            FedAll(State(true, buf), chunks) == (State(true, left), cmds)
    decreases |chunks|
  {
    ClientReader();
    hide ReadClient, Bounded, Steady, Run, NoSync, Ends, SkipToCommand, Fed;
    if chunks == [] {
      assert buf + Flatten(chunks) == buf;
      RunWaits(ReadClient, buf);
    } else {
      var all, more := buf + chunks[0], Flatten(chunks[1..]);
      AppendAssociative(buf, chunks[0], more);
      PrefixNoSync(all, more);
      QuietFeed(buf, chunks[0]);
      RunLeaves(ReadClient, all);
      var left := Run(ReadClient, all).1;
      LeftStaysQuiet(all, left, more);
      QuietFeeds(left, chunks[1..]);
      RunInPieces(ReadClient, all, more);
    }
  }

  // ---------- the handshake itself ----------

  /** Bytes that neither hold a handshake nor begin the one that follows them. */
  ghost predicate BeforeSync(noise: seq<Octet>) { NoSync(noise + [SYNC_BYTE]) }

  lemma SyncAtPieces(noise: seq<Octet>, after: seq<Octet>, j: nat)
    ensures var buf := noise + (SYNC + after);
            && (j < |noise| ==> SyncAt(buf, j) == SyncAt(noise + [SYNC_BYTE], j))
            && (j == |noise| ==> SyncAt(buf, j))
            && (j >= |noise| + 2 ==> SyncAt(buf, j) == SyncAt(after, j - |noise| - 2))
  {
  }

  lemma SyncSeen(noise: seq<Octet>, after: seq<Octet>)
    requires BeforeSync(noise) && NoSync(after)
    ensures LastSync(noise + (SYNC + after), 0) == |noise| + 2
    ensures (noise + (SYNC + after))[|noise| + 2..] == after
  {
    hide LastSync, SyncAt;
    var buf := noise + (SYNC + after);
    forall j: nat | j < |noise| ensures !SyncAt(buf, j) {
      SyncAtPieces(noise, after, j);
      assert !SyncAt(noise + [SYNC_BYTE], j);
    }
    ScanFrom(buf, 0, |noise|);
    forall j: nat | |noise| + 2 <= j ensures !SyncAt(buf, j) {
      SyncAtPieces(noise, after, j);
      assert !SyncAt(after, j - |noise| - 2);
    }
    ScanFrom(buf, |noise| + 2, |buf|);
    SyncAtPieces(noise, after, |noise|);
    ScanPair(buf, |noise|);
  }

  lemma ScanPair(buf: seq<Octet>, i: nat)
    requires SyncAt(buf, i) && LastSync(buf, i + 2) == LastSync(buf, |buf|)
    ensures LastSync(buf, i) == i + 2
  {
  }

  lemma NotYet(noise: seq<Octet>, after: seq<Octet>, part: seq<Octet>)
    requires BeforeSync(noise) && part <= noise + (SYNC + after) && |part| < |noise| + 2
    ensures NoSync(part)
  {
    var rest := (noise + [SYNC_BYTE])[|part|..];
    assert part + rest == noise + [SYNC_BYTE];
    PrefixNoSync(part, rest);
  }

  lemma FeedBeforeSync(buf: seq<Octet>, chunk: seq<Octet>)
    requires NoSync(buf + chunk)
    ensures Fed(State(false, buf), chunk) == (State(false, buf + chunk), [])
  {
    hide NoSync, LastSync;
    NoSyncNoCut(buf + chunk);
  }

  lemma FeedAcrossSync(buf: seq<Octet>, chunk: seq<Octet>, noise: seq<Octet>, after: seq<Octet>)
    requires BeforeSync(noise) && NoSync(after) && buf + chunk == noise + (SYNC + after)
    ensures Bounded(ReadClient)
    ensures Fed(State(false, buf), chunk) == (State(true, Run(ReadClient, after).1), Run(ReadClient, after).0)
  {
    ClientReader();
    hide NoSync, LastSync, ReadClient, Bounded, Steady, Run, BeforeSync;
    SyncSeen(noise, after);
  }

  /** Where the chunk that completes the handshake leaves off. */
  lemma Crossing(noise: seq<Octet>, stream: seq<Octet>, all: seq<Octet>, more: seq<Octet>)
    requires all + more == noise + (SYNC + stream) && |all| >= |noise| + 2
    ensures var after := all[|noise| + 2..];
            all == noise + (SYNC + after) && after + more == stream
  {
    var after := all[|noise| + 2..];
    assert noise + (SYNC + stream) == (noise + SYNC) + stream;
    assert all == all[..|noise| + 2] + after;
    assert all[..|noise| + 2] == ((noise + SYNC) + stream)[..|noise| + 2];
    assert all == (noise + SYNC) + after;
    AppendAssociative(noise + SYNC, after, more);
    SamePrefix(noise + SYNC, after + more, stream);
    AppendAssociative(noise, SYNC, after);
  }

  /**
   Noise, a handshake, and a stream that holds no other: in any chunking the server ends up
   latched, having read exactly the stream's commands.
   */
  lemma {:induction false} HandshakeThenStream(
    buf: seq<Octet>, chunks: seq<seq<Octet>>, noise: seq<Octet>, stream: seq<Octet>)
    requires BeforeSync(noise) && NoSync(stream)
    requires buf + Flatten(chunks) == noise + (SYNC + stream) && |buf| < |noise| + 2
    ensures Bounded(ReadClient)
    ensures var (cmds, left) := Run(ReadClient, stream);
            FedAll(State(false, buf), chunks) == (State(true, left), cmds)
    decreases |chunks|
  {
    ClientReader();
    hide ReadClient, Bounded, Steady, Run, NoSync, BeforeSync, SkipToCommand, Fed, SyncAt;
    var all, more := buf + chunks[0], Flatten(chunks[1..]);
    AppendAssociative(buf, chunks[0], more);
    if |all| < |noise| + 2 {
      NotYet(noise, stream, all);
      FeedBeforeSync(buf, chunks[0]);
      HandshakeThenStream(all, chunks[1..], noise, stream);
      assert [] + FedAll(State(false, all), chunks[1..]).1 == FedAll(State(false, all), chunks[1..]).1;
    } else {
      Crossing(noise, stream, all, more);
      FeedTheRest(buf, chunks, noise, all[|noise| + 2..]);
    }
  }

  lemma FeedTheRest(buf: seq<Octet>, chunks: seq<seq<Octet>>, noise: seq<Octet>, after: seq<Octet>)
    requires chunks != [] && buf + chunks[0] == noise + (SYNC + after)
    requires BeforeSync(noise) && NoSync(after + Flatten(chunks[1..]))
    ensures Bounded(ReadClient)
    ensures var (cmds, left) := Run(ReadClient, after + Flatten(chunks[1..]));
            FedAll(State(false, buf), chunks) == (State(true, left), cmds)
  {
    ClientReader();
    hide ReadClient, Bounded, Steady, Run, NoSync, BeforeSync, SkipToCommand, Fed, Ends;
    var more := Flatten(chunks[1..]);
    PrefixNoSync(after, more);
    FeedAcrossSync(buf, chunks[0], noise, after);
    RunLeaves(ReadClient, after);
    var left := Run(ReadClient, after).1;
    LeftStaysQuiet(after, left, more);
    QuietFeeds(left, chunks[1..]);
    RunInPieces(ReadClient, after, more);
  }

  // ---------- a client's own commands come back ----------

  /** What the client end is asked to write. */
  datatype Ask =
    | SendFrame(arbId: U32, extended: bool, bus: Octet, data: seq<Octet>)
    | Bare(op: Octet)
  {
    /** The bare requests a host sends, and the keepalive. */
    ghost predicate Valid() { Bare? ==> Request(op).Some? }

    function Wire(): seq<Octet> {
      match this
      case SendFrame(arbId, extended, bus, data) => EncodeTransmit(arbId, extended, bus, data)
      case Bare(op) => [CMD, op]
    }

    /** What the server should read: the id at its own width and the first 8 payload bytes. */
    function Understood(): ClientCommand
      requires Valid()
    {
      match this
      case SendFrame(arbId, extended, bus, data) =>
        Transmit(bus, MaskedId(arbId, extended), extended, data[..Min(|data|, 8)])
      case Bare(op) => Request(op).value
    }
  }

  lemma TransmitRead(arbId: U32, extended: bool, bus: Octet, data: seq<Octet>)
    ensures var wire := EncodeTransmit(arbId, extended, bus, data);
            ReadClient(wire) == Consume(Some(SendFrame(arbId, extended, bus, data).Understood()), |wire|)
  {
    var id := MakeId(arbId, extended);
    LittleEndianRoundTrip(id);
    IdRoundTrip(arbId, extended);
    hide MakeId, MaskedId, SplitId, Byte0, Byte1, Byte2, Byte3, LittleEndian;
    var wire := EncodeTransmit(arbId, extended, bus, data);
    var n := Min(|data|, 8);
    assert wire[..|wire|] == wire;
    assert wire[TRANSMIT_HEADER..TRANSMIT_HEADER + n] == data[..n];
  }

  lemma AskReadable(item: Item<ClientCommand>, ask: Ask)
    requires ask.Valid() && NoCommand(item.noise) && item.wire == ask.Wire() && item.msg == ask.Understood()
    ensures Readable(ReadClient, item)
  {
    AskTaken(ask);
    hide ReadClient, NoCommand, Ask.Wire, Ask.Understood;
    NothingBehind(item.wire);
    assert TakenWith(ReadClient, item, |item.wire|);
  }

  lemma AskTaken(ask: Ask)
    requires ask.Valid()
    ensures ask.Wire() != [] && ask.Wire()[0] == CMD
    ensures ReadClient(ask.Wire()) == Consume(Some(ask.Understood()), |ask.Wire()|)
  {
    match ask
    case SendFrame(arbId, extended, bus, data) =>
      TransmitRead(arbId, extended, bus, data);
      hide ReadClient;
    case Bare(op) =>
  }

  function Written(asks: seq<Ask>, noises: seq<seq<Octet>>): seq<Item<ClientCommand>>
    requires |noises| == |asks| && forall i :: 0 <= i < |asks| ==> asks[i].Valid()
  {
    if asks == [] then []
    else [Item(noises[0], asks[0].Wire(), asks[0].Understood())] + Written(asks[1..], noises[1..])
  }

  function AllUnderstood(asks: seq<Ask>): seq<ClientCommand>
    requires forall i :: 0 <= i < |asks| ==> asks[i].Valid()
  {
    if asks == [] then [] else [asks[0].Understood()] + AllUnderstood(asks[1..])
  }

  lemma {:induction false} WrittenReadable(asks: seq<Ask>, noises: seq<seq<Octet>>)
    requires |noises| == |asks| && forall i :: 0 <= i < |asks| ==> asks[i].Valid()
    requires forall i :: 0 <= i < |noises| ==> NoCommand(noises[i])
    ensures var items := Written(asks, noises);
            && Messages(items) == AllUnderstood(asks)
            && forall i :: 0 <= i < |items| ==> Readable(ReadClient, items[i])
  {
    hide Readable, NoCommand, Ask.Wire, Ask.Understood, Ask.Valid;
    if asks != [] {
      AskReadable(Item(noises[0], asks[0].Wire(), asks[0].Understood()), asks[0]);
      WrittenReadable(asks[1..], noises[1..]);
    }
  }

  /**
   Whatever a client asks after its handshake, with whatever noise between, a fresh server
   reads exactly that, provided the bytes behind the handshake hold no other.
   */
  lemma ClientRoundTrip(asks: seq<Ask>, noises: seq<seq<Octet>>, last: seq<Octet>,
                        before: seq<Octet>, chunks: seq<seq<Octet>>)
    requires |noises| == |asks| && forall i :: 0 <= i < |asks| ==> asks[i].Valid()
    requires forall i :: 0 <= i < |noises| ==> NoCommand(noises[i])
    requires NoCommand(last) && BeforeSync(before)
    requires NoSync(Stream(Written(asks, noises), last))
    requires Flatten(chunks) == before + (SYNC + Stream(Written(asks, noises), last))
    ensures FedAll(State(false, []), chunks) == (State(true, []), AllUnderstood(asks))
  {
    ClientReader();
    var stream := Stream(Written(asks, noises), last);
    WrittenReadable(asks, noises);
    RunStream(ReadClient, Written(asks, noises), last);
    assert [] + Flatten(chunks) == Flatten(chunks);
    HandshakeThenStream([], chunks, before, stream);
    hide ReadClient, Readable, Bounded, Steady, Run, Written, AllUnderstood;
  }

  // ---------- why the stream must hold no other handshake ----------

  lemma FedOne(st: State, chunk: seq<Octet>)
    ensures FedAll(st, [chunk]) == Fed(st, chunk)
  {
    hide Fed;
    assert [chunk][1..] == [];
    assert Fed(st, chunk).1 + [] == Fed(st, chunk).1;
  }

  lemma FedTwo(st: State, first: seq<Octet>, second: seq<Octet>)
    ensures var (next, cmds) := Fed(st, first);
            var (final, more) := Fed(next, second);
            FedAll(st, [first, second]) == (final, cmds + more)
  {
    hide Fed;
    assert [first, second][1..] == [second];
    FedOne(Fed(st, first).0, second);
  }

  /** A handshake clears whatever was waiting. */
  lemma FeedSync(st: State, waiting: seq<Octet>, chunk: seq<Octet>)
    requires BeforeSync(waiting) && st.buf + chunk == waiting + (SYNC + [])
    ensures Fed(st, chunk) == (State(true, []), [])
  {
    ClientReader();
    hide LastSync, ReadClient, Bounded, Steady, BeforeSync, NoSync;
    NoSyncNothing();
    SyncSeen(waiting, []);
    RunNoise(ReadClient, []);
  }

  lemma NoSyncNothing()
    ensures NoSync([]) && ReadClient([]).NeedMore? && NoCommand([])
  {
  }

  lemma FedTogether(stream: seq<Octet>)
    requires BeforeSync(stream)
    ensures FedAll(State(true, []), [stream + SYNC]) == (State(true, []), [])
  {
    hide NoSync, BeforeSync, Fed, FedAll;
    assert [] + (stream + SYNC) == stream + (SYNC + []);
    FedOne(State(true, []), stream + SYNC);
    FeedSync(State(true, []), stream, stream + SYNC);
  }

  lemma FedAlone(stream: seq<Octet>)
    requires BeforeSync(stream)
    ensures Bounded(ReadClient)
    ensures Fed(State(true, []), stream) == (State(true, Run(ReadClient, stream).1), Run(ReadClient, stream).0)
    ensures BeforeSync(Run(ReadClient, stream).1)
  {
    ClientReader();
    hide ReadClient, Bounded, Steady, NoSync, Fed, SkipToCommand, Run, Ends;
    PrefixNoSync(stream, [SYNC_BYTE]);
    assert [] + stream == stream;
    QuietFeed([], stream);
    RunLeaves(ReadClient, stream);
    LeftStaysQuiet(stream, Run(ReadClient, stream).1, [SYNC_BYTE]);
  }

  lemma SyncThenNothing(left: seq<Octet>)
    ensures left + SYNC == left + (SYNC + [])
  {
  }

  lemma FedApart(stream: seq<Octet>)
    requires BeforeSync(stream)
    ensures Bounded(ReadClient)
    ensures FedAll(State(true, []), [stream, SYNC]) == (State(true, []), Run(ReadClient, stream).0)
  {
    hide ReadClient, Bounded, Fed, FedAll, Run, BeforeSync;
    FedAlone(stream);
    var (cmds, left) := Run(ReadClient, stream);
    FedTwo(State(true, []), stream, SYNC);
    SyncThenNothing(left);
    FeedSync(State(true, left), left, SYNC);
    assert cmds + [] == cmds;
  }

  /**
   Commands read in one read with a later handshake are eaten, and read in a read of their
   own they are not: chunking matters to any stream that yields a command before a handshake.
   */
  lemma ASecondHandshakeEats(stream: seq<Octet>)
    requires BeforeSync(stream)
    ensures Bounded(ReadClient)
    ensures FedAll(State(true, []), [stream + SYNC]).1 == []
    ensures FedAll(State(true, []), [stream, SYNC]).1 == Run(ReadClient, stream).0
  {
    FedTogether(stream);
    FedApart(stream);
    hide ReadClient, Bounded, FedAll, Run, BeforeSync;
  }
}
