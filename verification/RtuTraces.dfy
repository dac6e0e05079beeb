/**
 Where in the stream each message lies, which frame completed it, and what its frame count
 counts: for every run of frames, clean or not.
 */
module RtuTraces {
  import opened Common
  import opened Sequences
  import opened RtuStream
  import opened RtuCleanStream
  import opened RtuSafety
  import opened RtuFrames

  /** A message and the place in the stream its first byte came from. */
  datatype Placed = Placed(msg: Message, at: int) {
    function End(): int { at + |msg.raw| }
  }

  /** The messages a buffer yields, each at its place; `base` is the place of the buffer's first byte. */
  function Trace(config: Config, st: State, base: int, atEnd: bool): seq<Placed>
    decreases |st.buf|
  {
    var buf := SkipToAddress(config.deviceAddress, st.buf);
    var at := base + |st.buf| - |buf|;
    TakeIsFramed(config.policy, buf, atEnd);
    match Decide(config.policy, buf, atEnd)
    case Take(c, crcValid) =>
      var (msg, last) := Build(st.lastRequest, st.pendingFrames, buf[..c.len], c.direction, crcValid);
      var rest := buf[c.len..];
      [Placed(msg, at)] + Trace(config, State(rest, if rest == [] then 0 else 1, last), at + c.len, atEnd)
    case NoMessage => if atEnd then [] else Trace(config, st.(buf := buf[1..]), at + 1, atEnd)
    case NeedMore => []
  }

  function MessagesOf(placed: seq<Placed>): (msgs: seq<Message>)
    ensures |msgs| == |placed|
  {
    if placed == [] then [] else [placed[0].msg] + MessagesOf(placed[1..])
  }

  // ---------- one round ----------

  lemma TraceTakes(config: Config, st: State, base: int, atEnd: bool) returns (msg: Message, at: int, next: State)
    requires Decide(config.policy, SkipToAddress(config.deviceAddress, st.buf), atEnd).Take?
    ensures Drain(config, st, atEnd) == (Drain(config, next, atEnd).0, [msg] + Drain(config, next, atEnd).1)
    ensures Trace(config, st, base, atEnd) == [Placed(msg, at)] + Trace(config, next, at + |msg.raw|, atEnd)
    ensures base <= at && |msg.raw| >= 5 && at + |msg.raw| + |next.buf| == base + |st.buf|
    ensures msg.raw == st.buf[at - base..at - base + |msg.raw|] && next.buf == st.buf[at - base + |msg.raw|..]
    ensures msg.frameCount == AtLeastOne(st.pendingFrames)
    ensures next.pendingFrames == if next.buf == [] then 0 else 1
  {
    hide Drain, Build, Decide, Framed, SkipToAddress, AtLeastOne;
    var buf := SkipToAddress(config.deviceAddress, st.buf);
    var t := Decide(config.policy, buf, atEnd);
    var c := t.candidate;
    SkipStops(config.deviceAddress, st.buf);
    TakeRound(config, st, atEnd);
    BuildKeepsRaw(st.lastRequest, st.pendingFrames, buf[..c.len], c.direction, t.crcValid);
    var built := Build(st.lastRequest, st.pendingFrames, buf[..c.len], c.direction, t.crcValid);
    msg, at := built.0, base + |st.buf| - |buf|;
    next := State(buf[c.len..], if buf[c.len..] == [] then 0 else 1, built.1);
  }

  lemma TraceDrops(config: Config, st: State, base: int)
    requires Decide(config.policy, SkipToAddress(config.deviceAddress, st.buf), false).NoMessage?
    ensures var buf := SkipToAddress(config.deviceAddress, st.buf);
            && buf != [] && buf == st.buf[|st.buf| - |buf|..]
            && Trace(config, st, base, false)
               == Trace(config, st.(buf := buf[1..]), base + |st.buf| - |buf| + 1, false)
            && Drain(config, st, false) == Drain(config, st.(buf := buf[1..]), false)
  {
    hide Decide, Build, Drain, Framed, SkipToAddress;
    DropRound(config, st);
    SkipStops(config.deviceAddress, st.buf);
  }

  lemma TraceWaits(config: Config, st: State, base: int, atEnd: bool)
    requires var d := Decide(config.policy, SkipToAddress(config.deviceAddress, st.buf), atEnd);
             d.NeedMore? || (d.NoMessage? && atEnd)
    ensures var buf := SkipToAddress(config.deviceAddress, st.buf);
            Trace(config, st, base, atEnd) == [] && Drain(config, st, atEnd) == (st.(buf := buf), [])
  {
    LastRound(config, st, atEnd);
    hide Decide, Build, Drain, Framed, SkipToAddress;
  }

  // ---------- one drain ----------

  /** A slice of the stream that is the message's own bytes. */
  predicate Lies(whole: seq<Byte>, p: Placed) {
    0 <= p.at && p.End() <= |whole| && p.msg.raw == whole[p.at..p.End()] && p.msg.raw != []
  }

  /** Each message lies in the stream, from `from` on, behind the one before it. */
  ghost predicate InPlace(placed: seq<Placed>, whole: seq<Byte>, from: int) {
    placed == [] ||
    (from <= placed[0].at && Lies(whole, placed[0]) && InPlace(placed[1..], whole, placed[0].End()))
  }

  /** Where the last message ends. */
  function LastEnd(placed: seq<Placed>, from: int): int {
    if placed == [] then from else placed[|placed| - 1].End()
  }

  lemma {:induction false} TraceIsDrain(config: Config, st: State, base: int, atEnd: bool)
    ensures MessagesOf(Trace(config, st, base, atEnd)) == Drain(config, st, atEnd).1
    decreases |st.buf|
  {
    hide Decide, Drain, SkipToAddress, Trace;
    var buf := SkipToAddress(config.deviceAddress, st.buf);
    var d := Decide(config.policy, buf, atEnd);
    if d.Take? {
      var msg, at, next := TraceTakes(config, st, base, atEnd);
      TraceIsDrain(config, next, at + |msg.raw|, atEnd);
    } else if d.NoMessage? && !atEnd {
      TraceDrops(config, st, base);
      TraceIsDrain(config, st.(buf := buf[1..]), base + |st.buf| - |buf| + 1, atEnd);
    } else {
      TraceWaits(config, st, base, atEnd);
    }
  }

  lemma InPlaceCons(p: Placed, rest: seq<Placed>, whole: seq<Byte>, from: int, end: int)
    requires from <= p.at && Lies(whole, p) && InPlace(rest, whole, p.End()) && LastEnd(rest, p.End()) <= end
    ensures InPlace([p] + rest, whole, from) && LastEnd([p] + rest, from) <= end
  {
    hide Lies;
    assert ([p] + rest)[1..] == rest;
  }

  lemma {:induction false} TraceInPlace(config: Config, st: State, whole: seq<Byte>, base: nat, atEnd: bool)
    requires base + |st.buf| <= |whole| && st.buf == whole[base..base + |st.buf|]
    ensures InPlace(Trace(config, st, base, atEnd), whole, base)
    ensures LastEnd(Trace(config, st, base, atEnd), base) <= base + |st.buf|
    decreases |st.buf|
  {
    hide Decide, Drain, SkipToAddress, Trace, InPlace, LastEnd;
    var buf, end := SkipToAddress(config.deviceAddress, st.buf), base + |st.buf|;
    var d := Decide(config.policy, buf, atEnd);
    if d.Take? {
      var msg, at, next := TraceTakes(config, st, base, atEnd);
      SliceOfSlice(whole, base, end, at, at + |msg.raw|);
      SliceOfSlice(whole, base, end, at + |msg.raw|, end);
      TraceInPlace(config, next, whole, at + |msg.raw|, atEnd);
      InPlaceCons(Placed(msg, at), Trace(config, next, at + |msg.raw|, atEnd), whole, base, end);
    } else if d.NoMessage? && !atEnd {
      TraceDrops(config, st, base);
      var at := base + |st.buf| - |buf| + 1;
      SliceOfSlice(whole, base, end, at, end);
      TraceInPlace(config, st.(buf := buf[1..]), whole, at, atEnd);
      InPlaceEarlier(Trace(config, st, base, atEnd), whole, at, base);
    } else {
      TraceWaits(config, st, base, atEnd);
      NothingPlaced(whole, base);
    }
  }

  lemma NothingPlaced(whole: seq<Byte>, from: int)
    ensures InPlace([], whole, from) && LastEnd([], from) == from
  {
  }

  lemma SliceOfSlice(whole: seq<Byte>, from: nat, to: nat, a: nat, b: nat)
    requires from <= a <= b <= to <= |whole|
    ensures whole[from..to][a - from..b - from] == whole[a..b]
    ensures b == to ==> whole[from..to][a - from..] == whole[a..b]
  {
    forall i | 0 <= i < b - a ensures whole[from..to][a - from..b - from][i] == whole[a..b][i] {
      assert whole[from..to][a - from + i] == whole[a + i];
    }
  }

  lemma InPlaceEarlier(placed: seq<Placed>, whole: seq<Byte>, from: int, earlier: int)
    requires InPlace(placed, whole, from) && earlier <= from
    ensures InPlace(placed, whole, earlier)
    ensures LastEnd(placed, earlier) <= LastEnd(placed, from)
  {
  }

  /** The first counts `first`, the others one each. */
  ghost predicate CountsOneEach(placed: seq<Placed>, first: nat) {
    forall k :: 0 <= k < |placed| ==> placed[k].msg.frameCount == if k == 0 then first else 1
  }

  /** The first message counts the frames pending, and each one behind it in the drain counts one. */
  lemma {:induction false} TraceCounts(config: Config, st: State, base: int, atEnd: bool)
    ensures CountsOneEach(Trace(config, st, base, atEnd), AtLeastOne(st.pendingFrames))
    decreases |st.buf|
  {
    hide Decide, Drain, SkipToAddress, Trace;
    var buf := SkipToAddress(config.deviceAddress, st.buf);
    var d := Decide(config.policy, buf, atEnd);
    if d.Take? {
      var msg, at, next := TraceTakes(config, st, base, atEnd);
      TraceCounts(config, next, at + |msg.raw|, atEnd);
    } else if d.NoMessage? && !atEnd {
      TraceDrops(config, st, base);
      TraceCounts(config, st.(buf := buf[1..]), base + |st.buf| - |buf| + 1, atEnd);
    } else {
      TraceWaits(config, st, base, atEnd);
    }
  }

  /** What a drain leaves pending: nothing behind a message that ends the buffer, one behind any other. */
  lemma {:induction false} TracePending(config: Config, st: State, base: int, atEnd: bool)
    ensures var placed := Trace(config, st, base, atEnd);
            Drain(config, st, atEnd).0.pendingFrames ==
            if placed == [] then st.pendingFrames else if LastEnd(placed, base) == base + |st.buf| then 0 else 1
    decreases |st.buf|
  {
    hide Decide, Drain, SkipToAddress, Trace;
    var buf := SkipToAddress(config.deviceAddress, st.buf);
    var d := Decide(config.policy, buf, atEnd);
    if d.Take? {
      var msg, at, next := TraceTakes(config, st, base, atEnd);
      TracePending(config, next, at + |msg.raw|, atEnd);
    } else if d.NoMessage? && !atEnd {
      TraceDrops(config, st, base);
      TracePending(config, st.(buf := buf[1..]), base + |st.buf| - |buf| + 1, atEnd);
    } else {
      TraceWaits(config, st, base, atEnd);
    }
  }

  /** What a drain leaves buffered is the end of what it was given. */
  lemma DrainLeavesEnd(config: Config, st: State, atEnd: bool)
    ensures var left := Drain(config, st, atEnd).0.buf; |left| <= |st.buf| && left == st.buf[|st.buf| - |left|..]
  {
    hide Drain, InOrder, Raws, AllHonest;
    DrainAccounts(config, st, atEnd);
  }

  // ---------- a run of frames ----------

  /** A message, its place in the stream, and the number of the last frame that had come when it came out. */
  datatype Row = Row(msg: Message, at: int, push: nat) {
    function End(): int { at + |msg.raw| }
  }

  function RowsOf(placed: seq<Placed>, push: nat): (rows: seq<Row>)
    ensures |rows| == |placed|
    ensures forall k :: 0 <= k < |rows| ==> rows[k] == Row(placed[k].msg, placed[k].at, push)
  {
    if placed == [] then [] else [Row(placed[0].msg, placed[0].at, push)] + RowsOf(placed[1..], push)
  }

  /** How many bytes the first `n` frames hold. */
  function Before(frames: seq<seq<Byte>>, n: nat): nat
    requires n <= |frames|
  {
    |Flatten(frames[..n])|
  }

  /** The state a frame is drained from. */
  function Fed(st: State, frame: seq<Byte>): State { State(st.buf + frame, st.pendingFrames + 1, st.lastRequest) }

  function TraceFrames(config: Config, st: State, frames: seq<seq<Byte>>, n: nat): seq<Row>
    requires n <= |frames|
    decreases |frames| - n
  {
    if n == |frames| then []
    else
      RowsOf(Trace(config, Fed(st, frames[n]), Before(frames, n) - |st.buf|, false), n)
      + TraceFrames(config, Push(config, st, frames[n]).0, frames, n + 1)
  }

  function RowMessages(rows: seq<Row>): (msgs: seq<Message>)
    ensures |msgs| == |rows|
  {
    if rows == [] then [] else [rows[0].msg] + RowMessages(rows[1..])
  }

  lemma {:induction false} RowMessagesConcat(a: seq<Row>, b: seq<Row>)
    ensures RowMessages(a + b) == RowMessages(a) + RowMessages(b)
    decreases |a|
  {
    if a == [] {
      AppendNothing(b);
      AppendNothing(RowMessages(b));
    } else {
      assert (a + b)[1..] == a[1..] + b;
      RowMessagesConcat(a[1..], b);
    }
  }

  lemma {:induction false} RowMessagesOf(placed: seq<Placed>, push: nat)
    ensures RowMessages(RowsOf(placed, push)) == MessagesOf(placed)
  {
    if placed != [] {
      RowMessagesOf(placed[1..], push);
      assert RowsOf(placed, push)[1..] == RowsOf(placed[1..], push);
    }
  }

  lemma PushIs(config: Config, st: State, frame: seq<Byte>)
    requires frame != []
    ensures Push(config, st, frame) == Drain(config, Fed(st, frame), false)
  {
    hide Drain;
    EvictionNeverFires(config, Fed(st, frame), frame);
  }

  /** The rows are the messages the frames yield. */
  lemma {:induction false} TraceFramesIsPushAll(config: Config, st: State, frames: seq<seq<Byte>>, n: nat)
    requires NoneEmpty(frames) && n <= |frames|
    ensures RowMessages(TraceFrames(config, st, frames, n)) == PushAllFrames(config, st, frames[n..]).1
    decreases |frames| - n
  {
    hide Push, Trace, Drain;
    if n < |frames| {
      assert frames[n..][0] == frames[n] && frames[n..][1..] == frames[n + 1..];
      var base := Before(frames, n) - |st.buf|;
      PushIs(config, st, frames[n]);
      TraceIsDrain(config, Fed(st, frames[n]), base, false);
      RowMessagesOf(Trace(config, Fed(st, frames[n]), base, false), n);
      TraceFramesIsPushAll(config, Push(config, st, frames[n]).0, frames, n + 1);
      RowMessagesConcat(RowsOf(Trace(config, Fed(st, frames[n]), base, false), n),
                        TraceFrames(config, Push(config, st, frames[n]).0, frames, n + 1));
    }
  }

  /** The rows came out together, the first counting `first` and the others one each. */
  ghost predicate CountedTogether(rows: seq<Row>, push: nat, first: nat) {
    forall k :: 0 <= k < |rows| ==> rows[k].push == push && rows[k].msg.frameCount == if k == 0 then first else 1
  }

  lemma RowsCount(placed: seq<Placed>, push: nat, first: nat)
    requires CountsOneEach(placed, first)
    ensures CountedTogether(RowsOf(placed, push), push, first)
  {
  }

  // ---------- what the counts count ----------

  /** The first frame a message counts when the message before it is `p`: the same one when both came out together. */
  function FirstCounted(frames: seq<seq<Byte>>, p: Row, push: nat): nat
    requires p.push < |frames|
  {
    if push == p.push then push
    else if p.End() == Before(frames, p.push + 1) then p.push + 1
    else p.push
  }

  /** Every row came out with one of the frames from `n` on. */
  ghost predicate Within(rows: seq<Row>, frames: seq<seq<Byte>>, n: nat) {
    forall i :: 0 <= i < |rows| ==> n <= rows[i].push < |frames|
  }

  /** The first frame that the count of row `k` takes in; `since` for the first row. */
  function Since(rows: seq<Row>, frames: seq<seq<Byte>>, since: nat, k: nat): nat
    requires k < |rows| && Within(rows, frames, 0)
  {
    if k == 0 then since else FirstCounted(frames, rows[k - 1], rows[k].push)
  }

  /** The first frame that a message still to come would count, were it in a later frame. */
  function NextCounted(rows: seq<Row>, frames: seq<seq<Byte>>, since: nat): nat
    requires Within(rows, frames, 0)
  {
    if rows == [] then since
    else
      var p := rows[|rows| - 1];
      if p.End() == Before(frames, p.push + 1) then p.push + 1 else p.push
  }

  ghost predicate CountedAt(rows: seq<Row>, frames: seq<seq<Byte>>, since: nat, k: nat)
    requires k < |rows| && Within(rows, frames, 0)
  {
    && Since(rows, frames, since, k) <= rows[k].push
    && rows[k].msg.frameCount == rows[k].push - Since(rows, frames, since, k) + 1
  }

  ghost predicate AllCounted(rows: seq<Row>, frames: seq<seq<Byte>>, since: nat)
    requires Within(rows, frames, 0)
  {
    forall k :: 0 <= k < |rows| ==> CountedAt(rows, frames, since, k)
  }

  lemma {:induction false} RowsLater(config: Config, st: State, frames: seq<seq<Byte>>, n: nat)
    requires n <= |frames|
    ensures Within(TraceFrames(config, st, frames, n), frames, n)
    ensures Within(TraceFrames(config, st, frames, n), frames, 0)
    decreases |frames| - n
  {
    hide Push, Trace;
    if n < |frames| {
      RowsLater(config, Push(config, st, frames[n]).0, frames, n + 1);
    }
  }

  lemma BeforeNext(frames: seq<seq<Byte>>, n: nat)
    requires n < |frames|
    ensures Before(frames, n + 1) == Before(frames, n) + |frames[n]|
    ensures Flatten(frames[..n + 1]) == Flatten(frames[..n]) + frames[n]
  {
    assert frames[..n + 1] == frames[..n] + [frames[n]];
    FlattenSplit(frames[..n + 1], n);
    assert frames[..n + 1][..n] == frames[..n] && frames[..n + 1][n..] == [frames[n]];
    assert [frames[n]][1..] == [];
    AppendNothing(frames[n]);
  }

  /** What one frame leaves behind: which frame the next count starts from. */
  function SinceAfter(placed: seq<Placed>, since: nat, n: nat, end: int): nat {
    if placed == [] then since else if LastEnd(placed, 0) == end then n + 1 else n
  }

  lemma PendingAfter(config: Config, st: State, frames: seq<seq<Byte>>, n: nat, since: nat)
    requires n < |frames| && frames[n] != [] && since <= n && st.pendingFrames == n - since
    ensures var base := Before(frames, n) - |st.buf|;
            var placed := Trace(config, Fed(st, frames[n]), base, false);
            var after := SinceAfter(placed, since, n, Before(frames, n + 1));
            && after <= n + 1 && Push(config, st, frames[n]).0.pendingFrames == n + 1 - after
            && CountsOneEach(placed, n - since + 1)
  {
    hide Push, Trace, Drain, Before, CountsOneEach, Flatten;
    var base := Before(frames, n) - |st.buf|;
    PushIs(config, st, frames[n]);
    TracePending(config, Fed(st, frames[n]), base, false);
    TraceCounts(config, Fed(st, frames[n]), base, false);
    BeforeNext(frames, n);
  }

  /**
   From any point of a run: each count is the frames from the first one counted to the one that completed it,
   and what is pending in the end is the frames that the next one would count.
   */
  lemma {:induction false} CountsSince(config: Config, st: State, frames: seq<seq<Byte>>, n: nat, since: nat)
    requires NoneEmpty(frames) && since <= n <= |frames| && st.pendingFrames == n - since
    ensures var rows := TraceFrames(config, st, frames, n);
            && Within(rows, frames, 0) && AllCounted(rows, frames, since)
            && PushAllFrames(config, st, frames[n..]).0.pendingFrames == |frames| - NextCounted(rows, frames, since)
    decreases |frames| - n
  {
    hide Push, Trace, Before, Within, AllCounted, SinceAfter, NextCounted, PushAllFrames;
    RowsLater(config, st, frames, n);
    if n == |frames| {
      NoneCounted(frames, since);
      assert frames[n..] == [];
      NoFramesLeft(config, st);
    } else {
      FrameThenRest(config, st, frames, n);
      var placed := Trace(config, Fed(st, frames[n]), Before(frames, n) - |st.buf|, false);
      var after := SinceAfter(placed, since, n, Before(frames, n + 1));
      var next := Push(config, st, frames[n]).0;
      PendingAfter(config, st, frames, n, since);
      RowsLater(config, next, frames, n + 1);
      CountsSince(config, next, frames, n + 1, after);
      CountsJoin(placed, TraceFrames(config, next, frames, n + 1), frames, n, since, after);
    }
  }

  lemma NoneCounted(frames: seq<seq<Byte>>, since: nat)
    ensures Within([], frames, 0) && AllCounted([], frames, since) && NextCounted([], frames, since) == since
  {
  }

  lemma NoFramesLeft(config: Config, st: State)
    ensures PushAllFrames(config, st, []) == (st, [])
  {
  }

  lemma FrameThenRest(config: Config, st: State, frames: seq<seq<Byte>>, n: nat)
    requires n < |frames|
    ensures var (next, msgs) := Push(config, st, frames[n]);
            var (final, more) := PushAllFrames(config, next, frames[n + 1..]);
            PushAllFrames(config, st, frames[n..]) == (final, msgs + more)
  {
    hide Push;
    assert frames[n..][0] == frames[n] && frames[n..][1..] == frames[n + 1..];
  }

  lemma CountsJoin(placed: seq<Placed>, later: seq<Row>, frames: seq<seq<Byte>>, n: nat, since: nat, after: nat)
    requires since <= n < |frames| && Within(later, frames, n + 1) && Within(later, frames, 0)
    requires CountsOneEach(placed, n - since + 1)
    requires after == SinceAfter(placed, since, n, Before(frames, n + 1))
    requires AllCounted(later, frames, after)
    ensures var rows := RowsOf(placed, n) + later;
            && Within(rows, frames, 0) && AllCounted(rows, frames, since)
            && NextCounted(rows, frames, since) == NextCounted(later, frames, after)
  {
    hide Before, CountsOneEach, CountedAt, NextCounted;
    var here := RowsOf(placed, n);
    var rows := here + later;
    RowsCount(placed, n, n - since + 1);
    RowsNext(placed, frames, n, since);
    forall k | 0 <= k < |rows| ensures CountedAt(rows, frames, since, k) {
      if k < |here| {
        CountedHere(here, later, frames, n, since, k);
      } else {
        CountedBehind(here, later, frames, n, since, after, k);
      }
    }
    NextJoin(here, later, frames, since, after);
  }

  lemma RowsNext(placed: seq<Placed>, frames: seq<seq<Byte>>, n: nat, since: nat)
    requires n < |frames|
    ensures Within(RowsOf(placed, n), frames, 0)
    ensures NextCounted(RowsOf(placed, n), frames, since) == SinceAfter(placed, since, n, Before(frames, n + 1))
  {
    hide Before;
  }

  lemma CountedHere(here: seq<Row>, later: seq<Row>, frames: seq<seq<Byte>>, n: nat, since: nat, k: nat)
    requires since <= n < |frames| && CountedTogether(here, n, n - since + 1) && k < |here|
    requires Within(here, frames, 0) && Within(later, frames, 0)
    ensures Within(here + later, frames, 0) && CountedAt(here + later, frames, since, k)
  {
    hide Before;
    var rows := here + later;
    assert rows[k] == here[k] && (k > 0 ==> rows[k - 1] == here[k - 1]);
  }

  lemma NextJoin(here: seq<Row>, later: seq<Row>, frames: seq<seq<Byte>>, since: nat, after: nat)
    requires Within(here, frames, 0) && Within(later, frames, 0) && after == NextCounted(here, frames, since)
    ensures Within(here + later, frames, 0)
    ensures NextCounted(here + later, frames, since) == NextCounted(later, frames, after)
  {
    hide Before;
    var rows := here + later;
    if later != [] {
      assert rows[|rows| - 1] == later[|later| - 1];
    } else {
      assert rows == here;
    }
  }

  lemma CountedBehind(here: seq<Row>, later: seq<Row>, frames: seq<seq<Byte>>, n: nat, since: nat, after: nat, k: nat)
    requires Within(here, frames, 0) && Within(later, frames, n + 1) && Within(later, frames, 0) && n < |frames|
    requires forall i :: 0 <= i < |here| ==> here[i].push == n
    requires after == NextCounted(here, frames, since)
    requires AllCounted(later, frames, after) && |here| <= k < |here| + |later|
    ensures Within(here + later, frames, 0) && CountedAt(here + later, frames, since, k)
  {
    hide Before;
    var rows := here + later;
    assert CountedAt(later, frames, after, k - |here|) && rows[k] == later[k - |here|];
    if k > |here| {
      assert rows[k - 1] == later[k - |here| - 1];
    } else if k > 0 {
      assert rows[k - 1] == here[k - 1];
    }
  }

  // ---------- where the rows lie ----------

  /** A row is a slice of the stream, read by the time its frame has arrived. */
  ghost predicate RowLies(frames: seq<seq<Byte>>, r: Row) {
    && r.push < |frames| && r.msg.raw != []
    && 0 <= r.at && r.End() <= Before(frames, r.push + 1) <= |Flatten(frames)|
    && r.msg.raw == Flatten(frames)[r.at..r.End()]
  }

  /** The rows lie in the stream one behind the other, from `from` on. */
  ghost predicate RowsInPlace(rows: seq<Row>, frames: seq<seq<Byte>>, from: int) {
    && (forall k :: 0 <= k < |rows| ==> RowLies(frames, rows[k]) && from <= rows[k].at)
    && forall k :: 0 < k < |rows| ==> rows[k - 1].End() <= rows[k].at
  }

  lemma BeforeWithin(frames: seq<seq<Byte>>, n: nat)
    requires n <= |frames|
    ensures Before(frames, n) <= |Flatten(frames)| && Flatten(frames[..n]) == Flatten(frames)[..Before(frames, n)]
  {
    FlattenSplit(frames, n);
  }

  lemma RowLiesIn(p: Placed, frames: seq<seq<Byte>>, n: nat)
    requires n < |frames| && Before(frames, n + 1) <= |Flatten(frames)|
    requires Lies(Flatten(frames)[..Before(frames, n + 1)], p)
    ensures RowLies(frames, Row(p.msg, p.at, n))
  {
    hide Before, Flatten;
    var whole := Flatten(frames)[..Before(frames, n + 1)];
    assert whole[p.at..p.End()] == Flatten(frames)[p.at..p.End()];
  }

  lemma RowsCons(row: Row, rest: seq<Row>, frames: seq<seq<Byte>>, from: int)
    requires RowLies(frames, row) && from <= row.at && RowsInPlace(rest, frames, row.End())
    ensures RowsInPlace([row] + rest, frames, from)
  {
    hide RowLies;
    var rows := [row] + rest;
    forall k | 0 < k < |rows|
      ensures RowLies(frames, rows[k]) && from <= rows[k].at && rows[k - 1].End() <= rows[k].at
    {
      assert rows[k] == rest[k - 1];
      assert k > 1 ==> rows[k - 1] == rest[k - 2];
    }
  }

  lemma {:induction false} PlacedRows(placed: seq<Placed>, frames: seq<seq<Byte>>, n: nat, from: int)
    requires n < |frames| && Before(frames, n + 1) <= |Flatten(frames)|
    requires InPlace(placed, Flatten(frames)[..Before(frames, n + 1)], from)
    ensures RowsInPlace(RowsOf(placed, n), frames, from)
    ensures from <= LastEnd(placed, from) && forall k :: 0 <= k < |placed| ==> placed[k].End() <= LastEnd(placed, from)
  {
    hide Before, Flatten, RowsInPlace, Lies;
    if placed == [] {
      NoRows(frames, from);
    } else {
      LiesNotEmpty(placed[0], Flatten(frames)[..Before(frames, n + 1)]);
      RowLiesIn(placed[0], frames, n);
      PlacedRows(placed[1..], frames, n, placed[0].End());
      RowsCons(Row(placed[0].msg, placed[0].at, n), RowsOf(placed[1..], n), frames, from);
    }
  }

  lemma LiesNotEmpty(p: Placed, whole: seq<Byte>)
    requires Lies(whole, p)
    ensures p.at < p.End()
  {
  }

  lemma {:induction false} RowsLie(config: Config, st: State, frames: seq<seq<Byte>>, n: nat)
    requires NoneEmpty(frames) && n <= |frames| && |st.buf| <= Before(frames, n)
    requires st.buf == Flatten(frames[..n])[Before(frames, n) - |st.buf|..]
    ensures RowsInPlace(TraceFrames(config, st, frames, n), frames, Before(frames, n) - |st.buf|)
    ensures LeavesEnd(PushAllFrames(config, st, frames[n..]).0.buf, TraceFrames(config, st, frames, n), frames,
                      Before(frames, n) - |st.buf|)
    decreases |frames| - n
  {
    hide Push, Trace, Before, RowsInPlace, PushAllFrames, LeavesEnd;
    if n == |frames| {
      NoRows(frames, Before(frames, n) - |st.buf|);
      assert frames[n..] == [] && frames[..n] == frames;
      LastBefore(frames);
      NoFramesLeft(config, st);
      EndIsLeft(st.buf, frames);
    } else {
      FrameThenRest(config, st, frames, n);
      var base := Before(frames, n) - |st.buf|;
      FrameInPlace(config, st, frames, n);
      var placed := Trace(config, Fed(st, frames[n]), base, false);
      var next := Push(config, st, frames[n]).0;
      RowsLie(config, next, frames, n + 1);
      RowsJoin(RowsOf(placed, n), TraceFrames(config, next, frames, n + 1), frames, base,
               Before(frames, n + 1) - |next.buf|);
      BeforeWithin(frames, n + 1);
      LeavesJoin(PushAllFrames(config, next, frames[n + 1..]).0.buf, RowsOf(placed, n),
                 TraceFrames(config, next, frames, n + 1), frames, base, Before(frames, n + 1) - |next.buf|);
    }
  }

  /** What is left is the end of the stream, behind `from`, and no row reaches into it. */
  ghost predicate LeavesEnd(left: seq<Byte>, rows: seq<Row>, frames: seq<seq<Byte>>, from: int) {
    && |left| <= |Flatten(frames)| && left == Flatten(frames)[|Flatten(frames)| - |left|..]
    && from <= |Flatten(frames)| - |left|
    && forall k :: 0 <= k < |rows| ==> rows[k].End() <= |Flatten(frames)| - |left|
  }

  lemma LeavesJoin(left: seq<Byte>, a: seq<Row>, b: seq<Row>, frames: seq<seq<Byte>>, from: int, mid: int)
    requires LeavesEnd(left, b, frames, mid) && from <= mid
    requires forall k :: 0 <= k < |a| ==> a[k].End() <= mid
    ensures LeavesEnd(left, a + b, frames, from)
  {
    hide Flatten;
  }

  lemma EndIsLeft(left: seq<Byte>, frames: seq<seq<Byte>>)
    requires |left| <= |Flatten(frames)| && left == Flatten(frames)[|Flatten(frames)| - |left|..]
    ensures LeavesEnd(left, [], frames, |Flatten(frames)| - |left|)
  {
  }

  lemma NoRows(frames: seq<seq<Byte>>, from: int)
    ensures RowsInPlace([], frames, from)
  {
  }

  lemma RowsJoin(a: seq<Row>, b: seq<Row>, frames: seq<seq<Byte>>, from: int, mid: int)
    requires RowsInPlace(a, frames, from) && RowsInPlace(b, frames, mid) && from <= mid
    requires forall k :: 0 <= k < |a| ==> a[k].End() <= mid
    ensures RowsInPlace(a + b, frames, from)
  {
    hide RowLies;
  }

  /** One frame: its messages lie in the bytes read by then, and what is left is behind them. */
  lemma FrameInPlace(config: Config, st: State, frames: seq<seq<Byte>>, n: nat)
    requires n < |frames| && frames[n] != [] && |st.buf| <= Before(frames, n)
    requires st.buf == Flatten(frames[..n])[Before(frames, n) - |st.buf|..]
    ensures var base := Before(frames, n) - |st.buf|;
            var placed := Trace(config, Fed(st, frames[n]), base, false);
            var left := Push(config, st, frames[n]).0.buf;
            && |left| <= Before(frames, n + 1)
            && left == Flatten(frames[..n + 1])[Before(frames, n + 1) - |left|..]
            && base <= Before(frames, n + 1) - |left|
            && RowsInPlace(RowsOf(placed, n), frames, base)
            && forall k :: 0 <= k < |placed| ==> placed[k].End() <= Before(frames, n + 1) - |left|
  {
    hide Push, Trace, Drain, RowsInPlace;
    var base := Before(frames, n) - |st.buf|;
    var fed := Fed(st, frames[n]);
    var whole := Flatten(frames[..n + 1]);
    BeforeNext(frames, n);
    BeforeWithin(frames, n + 1);
    assert fed.buf == whole[base..];
    PushIs(config, st, frames[n]);
    TraceInPlace(config, fed, whole, base, false);
    DrainLeavesEnd(config, fed, false);
    TraceLeaves(config, fed, base, false);
    PlacedRows(Trace(config, fed, base, false), frames, n, base);
  }

  /** What a drain leaves lies behind its last message. */
  lemma {:induction false} TraceLeaves(config: Config, st: State, base: int, atEnd: bool)
    ensures LastEnd(Trace(config, st, base, atEnd), base) + |Drain(config, st, atEnd).0.buf| <= base + |st.buf|
    decreases |st.buf|
  {
    hide Decide, Drain, SkipToAddress, Trace;
    var buf := SkipToAddress(config.deviceAddress, st.buf);
    var d := Decide(config.policy, buf, atEnd);
    if d.Take? {
      var msg, at, next := TraceTakes(config, st, base, atEnd);
      TraceLeaves(config, next, at + |msg.raw|, atEnd);
    } else if d.NoMessage? && !atEnd {
      TraceDrops(config, st, base);
      TraceLeaves(config, st.(buf := buf[1..]), base + |st.buf| - |buf| + 1, atEnd);
    } else {
      TraceWaits(config, st, base, atEnd);
    }
  }

  // ---------- counts against spans ----------

  /** The frame that the byte at `p` came in. */
  function FrameOf(frames: seq<seq<Byte>>, p: int): nat {
    if frames == [] || p < |frames[0]| then 0 else 1 + FrameOf(frames[1..], p - |frames[0]|)
  }

  /** A slice spans the frames from its first byte's to its last byte's. */
  lemma {:induction false} SpanIs(frames: seq<seq<Byte>>, from: nat, to: nat)
    requires NoneEmpty(frames) && from < to <= |Flatten(frames)|
    ensures Span(frames, from, to) == FrameOf(frames, to - 1) - FrameOf(frames, from) + 1
  {
    var n := |frames[0]|;
    if from >= n {
      SpanIs(frames[1..], from - n, to - n);
    } else if to > n {
      SpanFromStart(frames[1..], from - n, to - n);
    } else {
      SpanBefore(frames[1..], from - n, to - n);
    }
  }

  lemma {:induction false} SpanFromStart(frames: seq<seq<Byte>>, from: int, to: nat)
    requires NoneEmpty(frames) && from < 0 < to <= |Flatten(frames)|
    ensures Span(frames, from, to) == FrameOf(frames, to - 1) + 1
  {
    var n := |frames[0]|;
    if to > n {
      SpanFromStart(frames[1..], from - n, to - n);
    } else {
      SpanBefore(frames[1..], from - n, to - n);
    }
  }

  /** A byte is in frame `j` exactly when that frame's bytes are the ones around it. */
  lemma {:induction false} FrameOfIff(frames: seq<seq<Byte>>, p: nat, j: nat)
    requires NoneEmpty(frames) && p < |Flatten(frames)| && j < |frames|
    ensures FrameOf(frames, p) == j <==> Before(frames, j) <= p < Before(frames, j + 1)
    ensures FrameOf(frames, p) >= j <==> Before(frames, j) <= p
    decreases |frames|
  {
    var n := |frames[0]|;
    assert frames[..j + 1][1..] == frames[1..][..j] && frames[..j + 1][0] == frames[0];
    assert Before(frames, j + 1) == n + Before(frames[1..], j);
    if j > 0 {
      assert frames[..j][1..] == frames[1..][..j - 1] && frames[..j][0] == frames[0];
      assert Before(frames, j) == n + Before(frames[1..], j - 1);
      if p >= n {
        FrameOfIff(frames[1..], p - n, j - 1);
      }
    }
  }

  /**
   A count that starts at frame `since` is the number of frames with bytes of the message exactly when
   its bytes reach over as many frames as the count does; for a message wholly in the frames counted,
   when it starts in the first of them and ends in the last.
   */
  ghost predicate SpanIff(frames: seq<seq<Byte>>, r: Row, since: nat)
    requires since <= r.push < |frames|
  {
    && (r.msg.frameCount == Span(frames, r.at, r.End()) <==>
          FrameOf(frames, r.End() - 1) - FrameOf(frames, r.at) == r.push - since)
    && (Before(frames, since) <= r.at ==>
          (r.msg.frameCount == Span(frames, r.at, r.End()) <==>
             r.at < Before(frames, since + 1) && Before(frames, r.push) < r.End()))
  }

  lemma SpanOfRow(frames: seq<seq<Byte>>, r: Row, since: nat)
    requires NoneEmpty(frames) && RowLies(frames, r) && since <= r.push && r.msg.frameCount == r.push - since + 1
    ensures SpanIff(frames, r, since)
  {
    hide Before, Span, FrameOf, Flatten;
    SpanIs(frames, r.at, r.End());
    FrameOfIff(frames, r.at, since);
    FrameOfIff(frames, r.End() - 1, r.push);
  }

  lemma RowFacts(rows: seq<Row>, frames: seq<seq<Byte>>, k: nat)
    requires k < |rows| && Within(rows, frames, 0) && AllCounted(rows, frames, 0) && RowsInPlace(rows, frames, 0)
    ensures var r, since := rows[k], Since(rows, frames, 0, k);
            RowLies(frames, r) && since <= r.push && r.msg.frameCount == r.push - since + 1
  {
    hide RowLies, Since;
    assert CountedAt(rows, frames, 0, k);
  }

  lemma FromTheStart(frames: seq<seq<Byte>>)
    ensures Before(frames, 0) == 0 && frames[0..] == frames && Flatten(frames[..0]) == []
  {
  }

  function WithoutEmpty(frames: seq<seq<Byte>>): (r: seq<seq<Byte>>)
    ensures NoneEmpty(r)
  {
    if frames == [] then []
    else if frames[0] == [] then WithoutEmpty(frames[1..])
    else [frames[0]] + WithoutEmpty(frames[1..])
  }

  /** Empty frames do nothing, carry nothing and are not spanned, so it is enough to look at the others. */
  lemma {:induction false} EmptyFramesDoNothing(config: Config, st: State, frames: seq<seq<Byte>>, from: int, to: int)
    ensures PushAllFrames(config, st, frames) == PushAllFrames(config, st, WithoutEmpty(frames))
    ensures Flatten(frames) == Flatten(WithoutEmpty(frames))
    ensures Span(frames, from, to) == Span(WithoutEmpty(frames), from, to)
    decreases |frames|
  {
    hide Push;
    if frames != [] {
      if frames[0] == [] {
        EmptyFrameSkipped(config, st, frames);
        EmptyFramesDoNothing(config, st, frames[1..], from, to);
      } else {
        var n := |frames[0]|;
        EmptyFramesDoNothing(config, Push(config, st, frames[0]).0, frames[1..], from - n, to - n);
        var rest := WithoutEmpty(frames[1..]);
        assert ([frames[0]] + rest)[1..] == rest;
      }
    }
  }

  // ---------- what is recovered at the end ----------

  /** What the bytes left at the end still yield, all of it once the last frame has come. */
  function FinishRows(config: Config, st: State, frames: seq<seq<Byte>>): seq<Row>
    requires frames != []
  {
    RowsOf(Trace(config, st, |Flatten(frames)| - |st.buf|, true), |frames| - 1)
  }

  lemma NothingTraced(config: Config, st: State, base: int, atEnd: bool)
    requires st.buf == []
    ensures Trace(config, st, base, atEnd) == []
  {
    ShortDecides(config.policy, atEnd);
    hide Decide, Trace;
    TraceWaits(config, st, base, atEnd);
  }

  lemma ShortDecides(policy: CrcPolicy, atEnd: bool)
    ensures Decide(policy, [], atEnd).NeedMore?
  {
  }

  lemma LastBefore(frames: seq<seq<Byte>>)
    ensures Before(frames, |frames|) == |Flatten(frames)|
  {
    assert frames[..|frames|] == frames;
  }

  lemma FinishCounts(config: Config, st: State, frames: seq<seq<Byte>>)
    requires frames != []
    ensures FinishRows(config, st, frames) != [] ==> st.buf != []
    ensures CountedTogether(FinishRows(config, st, frames), |frames| - 1, AtLeastOne(st.pendingFrames))
  {
    hide Trace, Flatten, CountsOneEach, CountedTogether, AtLeastOne;
    var base := |Flatten(frames)| - |st.buf|;
    TraceCounts(config, st, base, true);
    if st.buf == [] {
      NothingTraced(config, st, base, true);
    }
    RowsCount(Trace(config, st, base, true), |frames| - 1, AtLeastOne(st.pendingFrames));
  }

  /** At the end the first message recovered counts what is pending, and the others one each: as in a push. */
  lemma FinishCounted(config: Config, st: State, rows: seq<Row>, frames: seq<seq<Byte>>)
    requires frames != [] && Within(rows, frames, 0) && AllCounted(rows, frames, 0)
    requires st.pendingFrames == |frames| - NextCounted(rows, frames, 0)
    requires LeavesEnd(st.buf, rows, frames, 0)
    ensures var all := rows + FinishRows(config, st, frames); Within(all, frames, 0) && AllCounted(all, frames, 0)
  {
    hide Before, Flatten, FinishRows;
    var fin := FinishRows(config, st, frames);
    var all := rows + fin;
    FinishCounts(config, st, frames);
    LastBefore(frames);
    forall k | 0 <= k < |all| ensures CountedAt(all, frames, 0, k) {
      if k < |rows| {
        assert CountedAt(rows, frames, 0, k);
      } else if k > |rows| {
        assert all[k] == fin[k - |rows|] && all[k - 1] == fin[k - |rows| - 1];
      } else if k > 0 {
        var p := rows[k - 1];
        assert all[k] == fin[0] && all[k - 1] == p && p.End() < |Flatten(frames)| && p.push < |frames|;
        if p.push == |frames| - 1 {
          assert Since(all, frames, 0, k) == p.push == NextCounted(rows, frames, 0);
        } else {
          assert Since(all, frames, 0, k) == NextCounted(rows, frames, 0);
        }
      }
    }
  }

  lemma FinishInPlace(config: Config, st: State, rows: seq<Row>, frames: seq<seq<Byte>>)
    requires frames != [] && RowsInPlace(rows, frames, 0) && LeavesEnd(st.buf, rows, frames, 0)
    ensures RowsInPlace(rows + FinishRows(config, st, frames), frames, 0)
  {
    hide Trace, RowsInPlace, Flatten, Before, InPlace;
    var base := |Flatten(frames)| - |st.buf|;
    LastBefore(frames);
    assert Flatten(frames)[..|Flatten(frames)|] == Flatten(frames);
    TraceInPlace(config, st, Flatten(frames), base, true);
    PlacedRows(Trace(config, st, base, true), frames, |frames| - 1, base);
    RowsJoin(rows, FinishRows(config, st, frames), frames, 0, base);
  }

  lemma FinishMessages(config: Config, st: State, frames: seq<seq<Byte>>)
    requires frames != []
    ensures RowMessages(FinishRows(config, st, frames)) == Finish(config, st).1
  {
    hide Trace, Drain;
    TraceIsDrain(config, st, |Flatten(frames)| - |st.buf|, true);
    RowMessagesOf(Trace(config, st, |Flatten(frames)| - |st.buf|, true), |frames| - 1);
  }

  // ---------- whole runs ----------

  /** The rows that the frames yield as they come, from a start with nothing pending. */
  function PushRows(config: Config, last: Option<Outstanding>, frames: seq<seq<Byte>>): seq<Row> {
    TraceFrames(config, State([], 0, last), frames, 0)
  }

  /** The state the frames leave. */
  function FinalState(config: Config, last: Option<Outstanding>, frames: seq<seq<Byte>>): State {
    PushAllFrames(config, State([], 0, last), frames).0
  }

  /** The rows of the frames, and of what is recovered once they have all come. */
  function Rows(config: Config, last: Option<Outstanding>, frames: seq<seq<Byte>>): seq<Row>
    requires frames != []
  {
    PushRows(config, last, frames) + FinishRows(config, FinalState(config, last, frames), frames)
  }

  /** What is known of the rows of the frames alone. */
  lemma PushRowsAreTheRun(config: Config, last: Option<Outstanding>, frames: seq<seq<Byte>>)
    requires NoneEmpty(frames)
    ensures var rows, final := PushRows(config, last, frames), FinalState(config, last, frames);
            && RowMessages(rows) == PushAllFrames(config, State([], 0, last), frames).1
            && Within(rows, frames, 0) && RowsInPlace(rows, frames, 0) && AllCounted(rows, frames, 0)
            && final.pendingFrames == |frames| - NextCounted(rows, frames, 0)
            && LeavesEnd(final.buf, rows, frames, 0)
  {
    var st := State([], 0, last);
    hide TraceFrames, Before, RowMessages, AllCounted, RowsInPlace, PushAllFrames, Within, NextCounted, LeavesEnd;
    FromTheStart(frames);
    TraceFramesIsPushAll(config, st, frames, 0);
    RowsLie(config, st, frames, 0);
    CountsSince(config, st, frames, 0, 0);
  }

  /**
   The rows are the messages of the run and then those recovered at its end, each a slice of the stream behind
   the one before it.
   */
  lemma RowsAreTheRun(config: Config, last: Option<Outstanding>, frames: seq<seq<Byte>>)
    requires frames != [] && NoneEmpty(frames)
    ensures var rows := Rows(config, last, frames);
            var (final, msgs) := PushAllFrames(config, State([], 0, last), frames);
            && RowMessages(rows) == msgs + Finish(config, final).1
            && PushRows(config, last, frames) <= rows
            && RowMessages(PushRows(config, last, frames)) == msgs
            && Within(rows, frames, 0) && RowsInPlace(rows, frames, 0) && AllCounted(rows, frames, 0)
  {
    hide PushRows, FinishRows, Before, RowMessages, AllCounted, RowsInPlace, PushAllFrames, Within, NextCounted,
         LeavesEnd, Finish, NoneEmpty;
    var rows, final := PushRows(config, last, frames), FinalState(config, last, frames);
    PushRowsAreTheRun(config, last, frames);
    FinishCounted(config, final, rows, frames);
    FinishInPlace(config, final, rows, frames);
    FinishMessages(config, final, frames);
    RowMessagesConcat(rows, FinishRows(config, final, frames));
  }

  /**
   For every run of frames and every message of it: the count is the number of frames from the first
   one counted to the one that completed it, and exactly when that is the message's span.
   */
  lemma CountIsSpanIff(config: Config, last: Option<Outstanding>, frames: seq<seq<Byte>>, k: nat)
    requires frames != [] && NoneEmpty(frames) && k < |Rows(config, last, frames)|
    ensures Within(Rows(config, last, frames), frames, 0)
    ensures var rows := Rows(config, last, frames);
            var r, since := rows[k], Since(rows, frames, 0, k);
            && RowLies(frames, r)
            && since <= r.push && r.msg.frameCount == r.push - since + 1
            && SpanIff(frames, r, since)
  {
    hide Rows, Before, RowMessages, AllCounted, RowsInPlace, PushAllFrames, Within, Since, RowLies, SpanIff;
    RowsAreTheRun(config, last, frames);
    var rows := Rows(config, last, frames);
    RowFacts(rows, frames, k);
    SpanOfRow(frames, rows[k], Since(rows, frames, 0, k));
  }

  /**
   The first message of a run counts every frame so far, which is its span exactly when it starts
   in the first frame and ends in the one that completed it.
   */
  lemma FirstCountIff(config: Config, last: Option<Outstanding>, frames: seq<seq<Byte>>)
    requires frames != [] && NoneEmpty(frames) && Rows(config, last, frames) != []
    ensures var r := Rows(config, last, frames)[0];
            && RowLies(frames, r) && r.msg.frameCount == r.push + 1
            && (r.msg.frameCount == Span(frames, r.at, r.End()) <==>
                  r.at < |frames[0]| && Before(frames, r.push) < r.End())
  {
    hide Rows, Span, FrameOf, Before, Flatten;
    CountIsSpanIff(config, last, frames, 0);
    FromTheStart(frames);
    BeforeNext(frames, 0);
  }

  /**
   A message that comes out behind another of the same frame counts one, which is its span exactly
   when all its bytes came in one frame.
   */
  lemma LaterCountIff(config: Config, last: Option<Outstanding>, frames: seq<seq<Byte>>, k: nat)
    requires frames != [] && NoneEmpty(frames) && 0 < k < |Rows(config, last, frames)|
    requires Rows(config, last, frames)[k].push == Rows(config, last, frames)[k - 1].push
    ensures var r := Rows(config, last, frames)[k];
            && RowLies(frames, r) && r.msg.frameCount == 1
            && (Span(frames, r.at, r.End()) == 1 <==> FrameOf(frames, r.at) == FrameOf(frames, r.End() - 1))
  {
    hide Rows, Span, FrameOf, Before, RowLies;
    CountIsSpanIff(config, last, frames, k);
  }
}
