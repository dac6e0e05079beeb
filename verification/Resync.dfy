/**
 The loop both GVRET decoders run: skip to a command byte, read one command off the head,
 and go round again until the head is incomplete. What is decided at the head must not
 depend on bytes beyond it; everything here follows from that.
 */
module Resync {
  import opened Common
  import opened Sequences

  const CMD: Octet := 0xF1

  /** What the head of the buffer is worth: wait, or use up `n` bytes with perhaps a message. */
  datatype Outcome<M> = NeedMore | Consume(msg: Option<M>, n: nat)

  type Reader<!M> = seq<Octet> -> Outcome<M>

  /** A reader uses up at least one byte and no more than it was given. */
  ghost predicate Bounded<M>(read: Reader<M>) {
    forall buf :: read(buf).Consume? ==> 0 < read(buf).n <= |buf|
  }

  /** What a reader has decided, more bytes do not change. */
  ghost predicate Steady<M>(read: Reader<M>) {
    forall buf, more {:trigger read(buf + more)} :: read(buf).Consume? ==> read(buf + more) == read(buf)
  }

  function SkipToCommand(buf: seq<Octet>): (r: seq<Octet>)
    ensures |r| <= |buf|
    ensures r != [] ==> r[0] == CMD
  {
    if buf == [] || buf[0] == CMD then buf else SkipToCommand(buf[1..])
  }

  lemma {:induction false} SkippedFromFront(buf: seq<Octet>)
    ensures SkipToCommand(buf) == buf[|buf| - |SkipToCommand(buf)|..]
  {
    if buf != [] && buf[0] != CMD {
      SkippedFromFront(buf[1..]);
    }
  }

  /** Bytes that start nothing. */
  predicate NoCommand(bytes: seq<Octet>) { SkipToCommand(bytes) == [] }

  lemma NothingBehind(wire: seq<Octet>)
    ensures wire[|wire|..] == [] && NoCommand(wire[|wire|..])
  {
  }

  ghost predicate Ends(buf: seq<Octet>, tail: seq<Octet>) {
    |tail| <= |buf| && tail == buf[|buf| - |tail|..]
  }

  lemma EndsTwice(a: seq<Octet>, b: seq<Octet>, c: seq<Octet>)
    requires Ends(a, b) && Ends(b, c)
    ensures Ends(a, c)
  {
  }

  lemma EndsAfter(a: seq<Octet>, n: nat)
    requires n <= |a|
    ensures Ends(a, a[n..])
  {
  }

  function Emitted<M>(msg: Option<M>): seq<M> {
    match msg case Some(m) => [m] case None => []
  }

  /** All the messages a buffer yields, and what is left waiting. */
  ghost function Run<M>(read: Reader<M>, buf: seq<Octet>): (seq<M>, seq<Octet>)
    requires Bounded(read)
    decreases |buf|
  {
    var b := SkipToCommand(buf);
    match read(b)
    case NeedMore => ([], b)
    case Consume(msg, n) =>
      var (msgs, left) := Run(read, b[n..]);
      (Emitted(msg) + msgs, left)
  }

  lemma {:induction false} SkipAppends(buf: seq<Octet>, more: seq<Octet>)
    ensures SkipToCommand(buf + more) ==
              (if SkipToCommand(buf) == [] then SkipToCommand(more) else SkipToCommand(buf) + more)
  {
    if buf == [] {
      assert buf + more == more;
    } else {
      assert (buf + more)[1..] == buf[1..] + more;
      if buf[0] != CMD {
        SkipAppends(buf[1..], more);
      }
    }
  }

  lemma SkipNoise(noise: seq<Octet>, more: seq<Octet>)
    requires NoCommand(noise)
    ensures SkipToCommand(noise + more) == SkipToCommand(more)
  {
    SkipAppends(noise, more);
  }

  /** Where the first command byte is, or the end. */
  method FindCommand(buf: seq<Octet>) returns (at: nat)
    ensures at <= |buf| && buf[at..] == SkipToCommand(buf)
    ensures at < |buf| ==> buf[at] == CMD
    ensures CMD !in buf[..at]
  {
    at := 0;
    while at < |buf| && buf[at] != CMD
      invariant at <= |buf| && CMD !in buf[..at]
      invariant SkipToCommand(buf[at..]) == SkipToCommand(buf)
    {
      assert buf[at..][1..] == buf[at + 1..];
      at := at + 1;
    }
  }

  lemma SkipTwice(buf: seq<Octet>)
    ensures SkipToCommand(SkipToCommand(buf)) == SkipToCommand(buf)
  {
  }

  lemma SkipThenAppend(buf: seq<Octet>, more: seq<Octet>)
    ensures SkipToCommand(SkipToCommand(buf) + more) == SkipToCommand(buf + more)
  {
    SkipTwice(buf);
    hide SkipToCommand;
    SkipAppends(buf, more);
    SkipAppends(SkipToCommand(buf), more);
    if SkipToCommand(buf) == [] {
      assert SkipToCommand(buf) + more == more;
    }
  }

  /** Only what lies from the first command byte on matters. */
  lemma RunSkips<M>(read: Reader<M>, a: seq<Octet>, b: seq<Octet>)
    requires Bounded(read) && SkipToCommand(a) == SkipToCommand(b)
    ensures Run(read, a) == Run(read, b)
  {
  }

  /** What is left is the end of what came in, and is itself settled. */
  lemma {:induction false} RunLeaves<M>(read: Reader<M>, buf: seq<Octet>)
    requires Bounded(read)
    ensures var left := Run(read, buf).1;
            && Ends(buf, left)
            && SkipToCommand(left) == left && read(left).NeedMore?
    decreases |buf|
  {
    hide SkipToCommand, Ends, Run;
    var b := SkipToCommand(buf);
    SkipTwice(buf);
    assert Ends(buf, b) by {
      SkippedFromFront(buf);
      EndsAfter(buf, |buf| - |b|);
    }
    match read(b)
    case NeedMore =>
      RunWaits(read, buf);
    case Consume(msg, n) =>
      RunConsumes(read, buf, msg, n);
      EndsAfter(b, n);
      RunLeaves(read, b[n..]);
      EndsTwice(buf, b, b[n..]);
      EndsTwice(buf, b[n..], Run(read, b[n..]).1);
  }

  /** The buffer as the last round found it, noise and all. */
  ghost function Tail<M>(read: Reader<M>, buf: seq<Octet>): seq<Octet>
    requires Bounded(read)
    decreases |buf|
  {
    var b := SkipToCommand(buf);
    match read(b)
    case NeedMore => buf
    case Consume(msg, n) => Tail(read, b[n..])
  }

  lemma {:induction false} TailLeaves<M>(read: Reader<M>, buf: seq<Octet>)
    requires Bounded(read)
    ensures SkipToCommand(Tail(read, buf)) == Run(read, buf).1
    ensures read(SkipToCommand(Tail(read, buf))).NeedMore?
    decreases |buf|
  {
    hide SkipToCommand;
    var b := SkipToCommand(buf);
    if read(b).Consume? {
      TailLeaves(read, b[read(b).n..]);
    }
  }

  lemma RunConsumes<M>(read: Reader<M>, buf: seq<Octet>, msg: Option<M>, n: nat)
    requires Bounded(read) && read(SkipToCommand(buf)) == Consume(msg, n)
    ensures n <= |SkipToCommand(buf)|
    ensures var (msgs, left) := Run(read, SkipToCommand(buf)[n..]); Run(read, buf) == (Emitted(msg) + msgs, left)
  {
  }

  lemma RunWaits<M>(read: Reader<M>, buf: seq<Octet>)
    requires Bounded(read) && read(SkipToCommand(buf)).NeedMore?
    ensures Run(read, buf) == ([], SkipToCommand(buf))
  {
  }

  /** What a buffer and then more bytes yield, fed one after the other. */
  ghost function RunThen<M>(read: Reader<M>, buf: seq<Octet>, more: seq<Octet>): (seq<M>, seq<Octet>)
    requires Bounded(read)
  {
    var (msgs, left) := Run(read, buf);
    var (rest, final) := Run(read, left + more);
    (msgs + rest, final)
  }

  lemma WaitThen<M>(read: Reader<M>, buf: seq<Octet>, more: seq<Octet>)
    requires Bounded(read) && read(SkipToCommand(buf)).NeedMore?
    ensures Run(read, buf + more) == RunThen(read, buf, more)
  {
    hide SkipToCommand, Run, Bounded;
    RunWaits(read, buf);
    SkipThenAppend(buf, more);
    RunSkips(read, buf + more, SkipToCommand(buf) + more);
    assert [] + Run(read, SkipToCommand(buf) + more).0 == Run(read, SkipToCommand(buf) + more).0;
  }

  lemma ConsumeThen<M>(read: Reader<M>, buf: seq<Octet>, more: seq<Octet>, msg: Option<M>, n: nat)
    requires Bounded(read) && Steady(read) && read(SkipToCommand(buf)) == Consume(msg, n)
    ensures n <= |SkipToCommand(buf)|
    ensures var rest := SkipToCommand(buf)[n..];
            Run(read, rest + more) == RunThen(read, rest, more) ==> Run(read, buf + more) == RunThen(read, buf, more)
  {
    hide SkipToCommand, Run;
    var b := SkipToCommand(buf);
    SkipAppends(buf, more);
    RunConsumes(read, buf, msg, n);
    assert read(b + more) == read(b) && 0 < n;
    assert (b + more)[n..] == b[n..] + more;
    RunConsumes(read, buf + more, msg, n);
    var (msgs, left) := Run(read, b[n..]);
    var rest := Run(read, left + more).0;
    assert Emitted(msg) + (msgs + rest) == (Emitted(msg) + msgs) + rest;
  }

  /** Reading in two pieces is reading at once. */
  lemma {:induction false} RunInPieces<M>(read: Reader<M>, buf: seq<Octet>, more: seq<Octet>)
    requires Bounded(read) && Steady(read)
    ensures Run(read, buf + more) == RunThen(read, buf, more)
    decreases |buf|
  {
    hide SkipToCommand, Run, RunThen, Steady;
    var b := SkipToCommand(buf);
    match read(b)
    case NeedMore =>
      WaitThen(read, buf, more);
    case Consume(msg, n) =>
      ConsumeThen(read, buf, more, msg, n);
      RunInPieces(read, b[n..], more);
  }

  // ---------- a stream of whole messages ----------

  /** Bytes on the wire: noise, then one message's bytes, of which the reader may leave a tail. */
  datatype Item<M> = Item(noise: seq<Octet>, wire: seq<Octet>, msg: M)

  /** The reader takes the message whatever follows, and what it leaves of it is noise. */
  ghost predicate Readable<M>(read: Reader<M>, item: Item<M>) {
    && NoCommand(item.noise)
    && item.wire != [] && item.wire[0] == CMD
    && exists n: nat :: TakenWith(read, item, n)
  }

  ghost predicate TakenWith<M>(read: Reader<M>, item: Item<M>, n: nat) {
    n <= |item.wire| && NoCommand(item.wire[n..]) && read(item.wire) == Consume(Some(item.msg), n)
  }

  /** The items one after another, with a last run of noise behind them. */
  function Stream<M>(items: seq<Item<M>>, last: seq<Octet>): seq<Octet> {
    if items == [] then last else items[0].noise + (items[0].wire + Stream(items[1..], last))
  }

  function Messages<M>(items: seq<Item<M>>): seq<M> {
    if items == [] then [] else [items[0].msg] + Messages(items[1..])
  }

  lemma SkipAtCommand(buf: seq<Octet>)
    requires buf == [] || buf[0] == CMD
    ensures SkipToCommand(buf) == buf
  {
  }

  /** A reader takes what it would take of the wire alone, and what it leaves of it is skipped. */
  lemma RunTaken<M>(read: Reader<M>, wire: seq<Octet>, tail: seq<Octet>, msg: Option<M>, n: nat)
    requires Bounded(read) && Steady(read)
    requires SkipToCommand(wire + tail) == wire + tail
    requires n <= |wire| && NoCommand(wire[n..]) && read(wire) == Consume(msg, n)
    ensures Run(read, wire + tail) == (Emitted(msg) + Run(read, tail).0, Run(read, tail).1)
  {
    hide SkipToCommand, Run, Bounded, NoCommand;
    assert read(wire + tail) == read(wire);
    RunConsumes(read, wire + tail, msg, n);
    DropAppend(wire, tail, n);
    SkipNoise(wire[n..], tail);
    RunSkips(read, wire[n..] + tail, tail);
  }

  lemma StartsWithCommand(wire: seq<Octet>, tail: seq<Octet>)
    requires wire != [] && wire[0] == CMD
    ensures SkipToCommand(wire + tail) == wire + tail
  {
    SkipAtCommand(wire + tail);
  }

  /** One message off the front: the noise before it and its own tail do not matter. */
  lemma RunItem<M>(read: Reader<M>, item: Item<M>, tail: seq<Octet>)
    requires Bounded(read) && Steady(read) && Readable(read, item)
    ensures Run(read, item.noise + (item.wire + tail)) == ([item.msg] + Run(read, tail).0, Run(read, tail).1)
  {
    hide SkipToCommand, Run, Bounded, Steady, NoCommand;
    var n: nat :| TakenWith(read, item, n);
    StartsWithCommand(item.wire, tail);
    RunTaken(read, item.wire, tail, Some(item.msg), n);
    SkipNoise(item.noise, item.wire + tail);
    RunSkips(read, item.noise + (item.wire + tail), item.wire + tail);
  }

  lemma RunNoise<M>(read: Reader<M>, noise: seq<Octet>)
    requires Bounded(read) && read([]).NeedMore? && NoCommand(noise)
    ensures Run(read, noise) == ([], [])
  {
  }

  /** A stream of readable messages, with any noise between them, reads as those messages. */
  lemma {:induction false} RunStream<M>(read: Reader<M>, items: seq<Item<M>>, noise: seq<Octet>)
    requires Bounded(read) && Steady(read) && read([]).NeedMore?
    requires forall i :: 0 <= i < |items| ==> Readable(read, items[i])
    requires NoCommand(noise)
    ensures Run(read, Stream(items, noise)) == (Messages(items), [])
    decreases |items|
  {
    hide NoCommand, Run, Bounded, Steady, Readable;
    if items == [] {
      RunNoise(read, noise);
    } else {
      RunItem(read, items[0], Stream(items[1..], noise));
      RunStream(read, items[1..], noise);
    }
  }
}
