/** The device end: what a capture server makes of the stream one client sends. */
module GvretClient {
  import opened Common
  import opened Sequences
  import opened Numbers
  import opened Resync
  import opened Gvret

  // ---------- the handshake ----------

  predicate SyncAt(buf: seq<Octet>, i: nat) {
    i + 1 < |buf| && buf[i] == SYNC_BYTE && buf[i + 1] == SYNC_BYTE
  }

  ghost predicate NoSync(buf: seq<Octet>) { forall i: nat :: !SyncAt(buf, i) }

  /** Where a left-to-right scan from `i` finds its last pair to end; 0 when it finds none. */
  function LastSync(buf: seq<Octet>, i: nat): (cut: nat)
    ensures cut == 0 || i + 2 <= cut <= |buf|
    decreases |buf| - i
  {
    if i + 1 >= |buf| then 0
    else if SyncAt(buf, i) then
      var later := LastSync(buf, i + 2);
      if later > 0 then later else i + 2
    else LastSync(buf, i + 1)
  }

  /** A scan that starts past bytes without a pair finds what a full scan finds. */
  lemma {:induction false} ScanFrom(buf: seq<Octet>, i: nat, from: nat)
    requires i <= from <= |buf| && forall j: nat :: i <= j < from ==> !SyncAt(buf, j)
    ensures LastSync(buf, i) == LastSync(buf, from)
    decreases from - i
  {
    if i < from {
      assert !SyncAt(buf, i);
      ScanFrom(buf, i + 1, from);
    }
  }

  /** Behind the last pair no pair is left. */
  lemma {:induction false} NothingBehindLast(buf: seq<Octet>, i: nat, j: nat)
    requires i <= j && LastSync(buf, i) <= j
    ensures !SyncAt(buf, j)
    decreases |buf| - i
  {
    if i + 1 < |buf| {
      if SyncAt(buf, i) {
        NothingBehindLast(buf, i + 2, j);
      } else if i < j {
        NothingBehindLast(buf, i + 1, j);
      }
    }
  }

  lemma SyncOfSuffix(buf: seq<Octet>, cut: nat, i: nat)
    requires cut <= |buf|
    ensures SyncAt(buf[cut..], i) <==> SyncAt(buf, cut + i)
  {
  }

  lemma CutLeavesNoSync(buf: seq<Octet>)
    ensures NoSync(buf[LastSync(buf, 0)..])
  {
    var cut := LastSync(buf, 0);
    forall i: nat ensures !SyncAt(buf[cut..], i) {
      SyncOfSuffix(buf, cut, i);
      NothingBehindLast(buf, 0, cut + i);
    }
  }

  lemma SuffixNoSync(buf: seq<Octet>, tail: seq<Octet>)
    requires NoSync(buf) && Ends(buf, tail)
    ensures NoSync(tail)
  {
    forall i: nat ensures !SyncAt(tail, i) {
      SyncOfSuffix(buf, |buf| - |tail|, i);
      assert !SyncAt(buf, |buf| - |tail| + i);
    }
  }

  lemma PrefixNoSync(buf: seq<Octet>, more: seq<Octet>)
    requires NoSync(buf + more)
    ensures NoSync(buf)
  {
    forall i: nat ensures !SyncAt(buf, i) {
      assert !SyncAt(buf + more, i);
    }
  }

  lemma NoSyncNoCut(buf: seq<Octet>)
    requires NoSync(buf)
    ensures LastSync(buf, 0) == 0
  {
    ScanFrom(buf, 0, |buf|);
  }

  // ---------- one feed ----------

  datatype State = State(binary: bool, buf: seq<Octet>)

  /** Everything up to the last pair goes; a pair anywhere latches binary mode. */
  function Scanned(st: State, chunk: seq<Octet>): State {
    var all := st.buf + chunk;
    var cut := LastSync(all, 0);
    State(st.binary || cut > 0, all[cut..])
  }

  ghost function Fed(st: State, chunk: seq<Octet>): (State, seq<ClientCommand>) {
    ClientReader();
    var scanned := Scanned(st, chunk);
    if !scanned.binary then (scanned, [])
    else
      var (cmds, left) := Run(ReadClient, scanned.buf);
      (State(true, left), cmds)
  }

  class Decoder {
    var binary: bool
    var buf: seq<Octet>

    function Now(): State
      reads this
    {
      State(binary, buf)
    }

    /** No handshake ever stays buffered. */
    ghost predicate Valid()
      reads this
    {
      NoSync(buf)
    }

    constructor ()
      ensures Valid() && Now() == State(false, [])
    {
      binary, buf := false, [];
    }

    /**
     Append and consume everything up to the last handshake. The scan starts one byte before
     the appended region, and finds what a scan of the whole buffer would find.
     */
    method ScanForHandshake(chunk: seq<Octet>)
      requires Valid()
      modifies this
      ensures Valid()
      ensures Now() == Scanned(old(Now()), chunk)
    {
      hide SyncAt, NoSync;
      var from := if |buf| == 0 then 0 else |buf| - 1;
      ghost var before := buf;
      buf := buf + chunk;
      StartLate(before, chunk, from);
      CutLeavesNoSync(buf);
      var i, cut := from, 0;
      while i + 1 < |buf|
        invariant buf == before + chunk
        invariant from <= i <= |buf| && cut <= i
        invariant LastSync(buf, 0) == (if LastSync(buf, i) > 0 then LastSync(buf, i) else cut)
        invariant binary == (old(binary) || cut > 0)
      {
        if SyncAt(buf, i) {
          i := i + 2;
          cut := i;
          binary := true;
        } else {
          i := i + 1;
        }
      }
      assert LastSync(buf, i) == 0;
      buf := buf[cut..];
    }

    method Feed(chunk: seq<Octet>) returns (out: seq<ClientCommand>)
      requires Valid()
      modifies this
      ensures Valid() && (Now(), out) == Fed(old(Now()), chunk)
    {
      hide Run, LastSync, NoSync, Bounded, Steady, ReadClient, SkipToCommand, Scanned, Ends;
      ClientReader();
      ScanForHandshake(chunk);
      if !binary {
        return [];
      }
      RunKeepsNoSync(buf);
      out := DrainCommands();
    }

    /** Take every complete command off the buffer, skipping what cannot start one. */
    method DrainCommands() returns (out: seq<ClientCommand>)
      modifies this`buf
      ensures Bounded(ReadClient) && (out, buf) == Run(ReadClient, old(buf))
    {
      hide Run, SkipToCommand, Bounded, Steady, ReadTransmit;
      ClientReader();
      ghost var all := buf;
      out := [];
      assert out + Run(ReadClient, buf).0 == Run(ReadClient, buf).0;
      while true
        invariant Run(ReadClient, all) == (out + Run(ReadClient, buf).0, Run(ReadClient, buf).1)
        decreases |buf|
      {
        ghost var before, sofar := buf, out;
        var keep := FindCommand(buf);
        buf := buf[keep..];
        if |buf| < 2 {
          NothingLeft(before, sofar);
          return;
        }
        var command := buf[1];
        if command == OP_FRAME {
          var transmit := TakeTransmit();
          if transmit.None? {
            NothingLeft(before, sofar);
            return;
          }
          OneMore(before, sofar);
          out := out + [transmit.value];
        } else {
          OneMore(before, sofar);
          buf := buf[2..];
          out := out + Emitted(Request(command));
        }
      }
    }

    method TakeTransmit() returns (command: Option<ClientCommand>)
      requires |buf| >= 2
      modifies this`buf
      ensures match ReadTransmit(old(buf))
              case NeedMore => command == None && buf == old(buf)
              case Consume(m, n) => command == m && m.Some? && n <= |old(buf)| && buf == old(buf)[n..]
    {
      hide SplitId, LittleEndian;
      if |buf| < TRANSMIT_HEADER {
        return None;
      }
      var need := TRANSMIT_HEADER + buf[7];
      if |buf| < need {
        return None;
      }
      command := Some(TransmitOf(buf[..need]));
      buf := buf[need..];
    }
  }

  lemma RunKeepsNoSync(buf: seq<Octet>)
    requires NoSync(buf)
    ensures Bounded(ReadClient) && NoSync(Run(ReadClient, buf).1)
  {
    ClientReader();
    hide Run, ReadClient, Bounded, Steady, NoSync, Ends, SkipToCommand;
    RunLeaves(ReadClient, buf);
    SuffixNoSync(buf, Run(ReadClient, buf).1);
  }

  lemma StartLate(before: seq<Octet>, chunk: seq<Octet>, from: nat)
    requires NoSync(before) && from == (if |before| == 0 then 0 else |before| - 1)
    ensures LastSync(before + chunk, 0) == LastSync(before + chunk, from)
  {
    forall j: nat | j < from ensures !SyncAt(before + chunk, j) {
      assert !SyncAt(before, j);
    }
    ScanFrom(before + chunk, 0, from);
  }

  lemma NothingLeft(buf: seq<Octet>, out: seq<ClientCommand>)
    requires ReadClient(SkipToCommand(buf)).NeedMore?
    ensures Bounded(ReadClient)
    ensures (out + Run(ReadClient, buf).0, Run(ReadClient, buf).1) == (out, SkipToCommand(buf))
  {
    ClientReader();
    hide SkipToCommand, ReadClient, Bounded, Steady;
    assert out + [] == out;
  }

  lemma OneMore(buf: seq<Octet>, out: seq<ClientCommand>)
    requires ReadClient(SkipToCommand(buf)).Consume?
    ensures Bounded(ReadClient)
    ensures var r, b := ReadClient(SkipToCommand(buf)), SkipToCommand(buf);
            && 0 < r.n <= |b|
            && (out + Run(ReadClient, buf).0, Run(ReadClient, buf).1)
               == ((out + Emitted(r.msg)) + Run(ReadClient, b[r.n..]).0, Run(ReadClient, b[r.n..]).1)
  {
    ClientReader();
    hide SkipToCommand, ReadClient, Steady;
    var r, b := ReadClient(SkipToCommand(buf)), SkipToCommand(buf);
    AppendAssociative(out, Emitted(r.msg), Run(ReadClient, b[r.n..]).0);
  }
}
