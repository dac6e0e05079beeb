/** From a list of register writes to the transactions that carry them out. */
module WritePlanning {
  import opened Numbers
  import opened Bits
  import opened Sequences
  import opened Manifest
  import RegisterRoundTrip

  // ---------- merging ----------

  predicate Overlap(a: Write, b: Write) { a.address == b.address && And(a.mask, b.mask) != 0 }

  /** Where in `out` the register of `w` is already being written; `|out|` when it is not. */
  function IndexOf(out: seq<Write>, address: U16): (i: nat)
    ensures i <= |out|
    ensures i < |out| ==> out[i].address == address
    ensures forall j :: 0 <= j < i ==> out[j].address != address
  {
    if out == [] || out[0].address == address then 0 else 1 + IndexOf(out[1..], address)
  }

  lemma OrIsWord(a: U16, b: U16)
    ensures Or(a, b) < 0x1_0000
  {
    forall k: nat ensures Bit(Or(a, b), k) == Bit(Low(Or(a, b), 16), k) {
      BitOfOr(a, b, k);
      BitOfLow(Or(a, b), 16, k);
      WordHasSixteenBits(a, k);
      WordHasSixteenBits(b, k);
    }
    SameBits(Or(a, b), Low(Or(a, b), 16));
    LowIsWord(Or(a, b));
  }

  /** Two fields of one register as one write. */
  function Joined(a: Write, b: Write): Write {
    OrIsWord(a.value, Masked(b.value, b.mask));
    OrIsWord(a.mask, b.mask);
    Write(a.address, Or(a.value, Masked(b.value, b.mask)), Or(a.mask, b.mask))
  }

  /** One more write into the merged list, or the address two writes fight over. */
  function MergeOne(out: seq<Write>, w: Write): Result<seq<Write>, U16> {
    var i := IndexOf(out, w.address);
    if i == |out| then Ok(out + [w])
    else if And(out[i].mask, w.mask) != 0 then Err(w.address)
    else Ok(out[i := Joined(out[i], w)])
  }

  function MergeInto(out: seq<Write>, writes: seq<Write>): Result<seq<Write>, U16>
    decreases |writes|
  {
    if writes == [] then Ok(out)
    else
      match MergeOne(out, writes[0])
      case Err(address) => Err(address)
      case Ok(next) => MergeInto(next, writes[1..])
  }

  method MergeRegisterWrites(writes: seq<Write>) returns (merged: Result<seq<Write>, U16>)
    ensures merged == MergeInto([], writes)
  {
    hide And, Or, Joined;
    var out: seq<Write> := [];
    var n := 0;
    while n < |writes|
      invariant 0 <= n <= |writes|
      invariant MergeInto([], writes) == MergeInto(out, writes[n..])
    {
      var w := writes[n];
      assert writes[n..][0] == w && writes[n..][1..] == writes[n + 1..];
      var i := FindAddress(out, w.address);
      if i < |out| {
        if And(out[i].mask, w.mask) != 0 {
          return Err(w.address);
        }
        out := out[i := Joined(out[i], w)];
      } else {
        out := out + [w];
      }
      n := n + 1;
    }
    merged := Ok(out);
  }

  method FindAddress(out: seq<Write>, address: U16) returns (i: nat)
    ensures i == IndexOf(out, address)
  {
    i := 0;
    while i < |out| && out[i].address != address
      invariant i <= |out| && IndexOf(out, address) == i + IndexOf(out[i..], address)
    {
      assert out[i..][1..] == out[i + 1..];
      i := i + 1;
    }
  }

  // ---------- what merging keeps ----------

  predicate Unique(out: seq<Write>) {
    forall i, j :: 0 <= i < j < |out| ==> out[i].address != out[j].address
  }

  /** A value that lies within the bits its write owns. */
  predicate WithinMask(w: Write) { And(w.value, w.mask) == w.value }

  predicate AllWithin(writes: seq<Write>) { forall i :: 0 <= i < |writes| ==> WithinMask(writes[i]) }

  lemma JoinedBits(a: Write, b: Write, k: nat)
    ensures Bit(Joined(a, b).mask, k) == (if Bit(a.mask, k) == 1 || Bit(b.mask, k) == 1 then 1 else 0)
    ensures Bit(Joined(a, b).value, k) ==
            (if Bit(a.value, k) == 1 || (Bit(b.value, k) == 1 && Bit(b.mask, k) == 1) then 1 else 0)
  {
    BitOfOr(a.mask, b.mask, k);
    BitOfOr(a.value, Masked(b.value, b.mask), k);
    BitOfAnd(b.value, b.mask, k);
  }

  lemma WithinBit(w: Write, k: nat)
    requires WithinMask(w)
    ensures Bit(w.value, k) == 1 ==> Bit(w.mask, k) == 1
  {
    BitOfAnd(w.value, w.mask, k);
  }

  lemma DisjointBit(a: Write, b: Write, k: nat)
    requires And(a.mask, b.mask) == 0
    ensures Bit(a.mask, k) == 0 || Bit(b.mask, k) == 0
  {
    BitOfAnd(a.mask, b.mask, k);
    BitOfZero(k);
  }

  /** One joined write does to a register what its two parts do one after the other. */
  lemma JoinedPatches(old_: U16, a: Write, b: Write)
    requires WithinMask(a) && And(a.mask, b.mask) == 0
    ensures Patched(old_, Joined(a, b)) == Patched(Patched(old_, a), b)
  {
    hide Bit, Patched, Joined, And, Or;
    forall k: nat ensures Bit(Patched(old_, Joined(a, b)), k) == Bit(Patched(Patched(old_, a), b), k) {
      RegisterRoundTrip.PatchedBit(old_, Joined(a, b), k);
      RegisterRoundTrip.PatchedBit(Patched(old_, a), b, k);
      RegisterRoundTrip.PatchedBit(old_, a, k);
      JoinedBits(a, b, k);
      WithinBit(a, k);
      DisjointBit(a, b, k);
    }
    SameBits(Patched(old_, Joined(a, b)), Patched(Patched(old_, a), b));
  }

  lemma JoinedWithin(a: Write, b: Write)
    requires WithinMask(a)
    ensures WithinMask(Joined(a, b))
  {
    hide Bit, Joined, And, Or;
    var j := Joined(a, b);
    forall k: nat ensures Bit(And(j.value, j.mask), k) == Bit(j.value, k) {
      BitOfAnd(j.value, j.mask, k);
      JoinedBits(a, b, k);
      WithinBit(a, k);
    }
    SameBits(And(j.value, j.mask), j.value);
  }

  lemma JoinedAddress(a: Write, b: Write)
    ensures Joined(a, b).address == a.address
  {
    hide Or, And;
  }

  // ---------- merging has the same effect ----------

  lemma {:induction false} ApplyAppend(file: File, out: seq<Write>, w: Write)
    ensures ApplyAll(file, out + [w]) == Apply(ApplyAll(file, out), w)
    decreases |out|
  {
    hide Patched;
    if out == [] {
      assert out + [w] == [w];
    } else {
      assert (out + [w])[1..] == out[1..] + [w];
      ApplyAppend(Apply(file, out[0]), out[1..], w);
    }
  }

  /** Writes to different registers do not meet: each register sees its own write, or none. */
  lemma {:induction false} ApplyUnique(file: File, out: seq<Write>, a: U16)
    requires Unique(out)
    ensures ApplyAll(file, out)[a] ==
            if IndexOf(out, a) < |out| then Patched(file[a], out[IndexOf(out, a)]) else file[a]
    decreases |out|
  {
    hide Patched;
    if out != [] {
      ApplyUnique(Apply(file, out[0]), out[1..], a);
    }
  }

  lemma IndexOfReplaced(out: seq<Write>, i: nat, w: Write, a: U16)
    requires i < |out| && w.address == out[i].address
    ensures IndexOf(out[i := w], a) == IndexOf(out, a)
  {
    var next := out[i := w];
    assert forall j :: 0 <= j < |out| ==> next[j].address == out[j].address;
    var m, n := IndexOf(out, a), IndexOf(next, a);
    assert m < |out| ==> next[m].address == out[m].address;
    assert n < |out| ==> next[n].address == out[n].address;
  }

  lemma MergeOneKeeps(out: seq<Write>, w: Write)
    requires Unique(out) && AllWithin(out) && WithinMask(w) && MergeOne(out, w).Ok?
    ensures Unique(MergeOne(out, w).value) && AllWithin(MergeOne(out, w).value)
  {
    hide Joined, And, WithinMask;
    var i := IndexOf(out, w.address);
    if i < |out| {
      JoinedAddress(out[i], w);
      JoinedWithin(out[i], w);
    }
  }

  lemma MergeOneEffect(file: File, out: seq<Write>, w: Write)
    requires Unique(out) && AllWithin(out) && MergeOne(out, w).Ok?
    ensures ApplyAll(file, MergeOne(out, w).value) == Apply(ApplyAll(file, out), w)
  {
    var i := IndexOf(out, w.address);
    if i == |out| {
      ApplyAppend(file, out, w);
    } else {
      JoinEffect(file, out, w, i);
    }
  }

  lemma JoinEffect(file: File, out: seq<Write>, w: Write, i: nat)
    requires Unique(out) && AllWithin(out) && i == IndexOf(out, w.address) < |out| && And(out[i].mask, w.mask) == 0
    ensures ApplyAll(file, out[i := Joined(out[i], w)]) == Apply(ApplyAll(file, out), w)
  {
    hide Joined, And, Patched, ApplyAll, WithinMask;
    var joined := Joined(out[i], w);
    JoinedAddress(out[i], w);
    var next := out[i := joined];
    forall a: U16 ensures ApplyAll(file, next)[a] == Apply(ApplyAll(file, out), w)[a] {
      ApplyUnique(file, next, a);
      ApplyUnique(file, out, a);
      IndexOfReplaced(out, i, joined, a);
      if a == w.address {
        JoinedPatches(file[a], out[i], w);
      } else if IndexOf(out, a) < |out| {
        assert next[IndexOf(out, a)] == out[IndexOf(out, a)];
      }
    }
  }

  lemma {:induction false} MergeIntoEffect(file: File, out: seq<Write>, writes: seq<Write>)
    requires Unique(out) && AllWithin(out) && AllWithin(writes) && MergeInto(out, writes).Ok?
    ensures ApplyAll(file, MergeInto(out, writes).value) == ApplyAll(ApplyAll(file, out), writes)
    ensures Unique(MergeInto(out, writes).value)
    decreases |writes|
  {
    hide MergeOne, WithinMask, Apply, Unique;
    if writes != [] {
      MergeOneKeeps(out, writes[0]);
      MergeOneEffect(file, out, writes[0]);
      MergeIntoEffect(file, MergeOne(out, writes[0]).value, writes[1..]);
    }
  }

  /** The merged list does to every register file what the writes do in sequence. */
  lemma MergeSameEffect(file: File, writes: seq<Write>)
    requires AllWithin(writes) && MergeInto([], writes).Ok?
    ensures ApplyAll(file, MergeInto([], writes).value) == ApplyAll(file, writes)
    ensures Unique(MergeInto([], writes).value)
  {
    hide MergeInto, WithinMask, Apply;
    MergeIntoEffect(file, [], writes);
  }

  /** Values must lie within their masks: a stray bit of the first write leaks into the second's. */
  lemma StrayBitLeaks(file: File)
    ensures var writes := [Write(0, 1, 2), Write(0, 0, 1)];
            && MergeInto([], writes) == Ok([Write(0, 1, 3)])
            && Bit(ApplyAll(file, writes)[0], 0) == 0
            && Bit(ApplyAll(file, [Write(0, 1, 3)])[0], 0) == 1
  {
    var a, b := Write(0, 1, 2), Write(0, 0, 1);
    assert And(2, 1) == 0 && Or(1, And(0, 1)) == 1 && Or(2, 1) == 3;
    assert MergeInto([], [a, b]) == Ok([Write(0, 1, 3)]) by {
      hide And, Or;
      MergeTwo(a, b);
      assert IndexOf([], 0) == 0 && IndexOf([a], 0) == 0;
      assert [] + [a] == [a];
      assert MergeOne([], a) == Ok([a]);
      assert [a][0 := Joined(a, b)] == [Write(0, 1, 3)];
      assert MergeOne([a], b) == Ok([Write(0, 1, 3)]);
    }
    hide Patched, MergeInto;
    ApplyTwo(file, a, b);
    RegisterRoundTrip.PatchedBit(Patched(file[0], a), b, 0);
    RegisterRoundTrip.PatchedBit(file[0], Write(0, 1, 3), 0);
  }

  lemma MergeTwo(a: Write, b: Write)
    ensures MergeInto([], [a, b]) ==
            match MergeOne([], a) case Err(address) => Err(address) case Ok(next) => MergeOne(next, b)
  {
    hide MergeOne;
    assert [a, b][1..] == [b] && [b][1..] == [];
    if MergeOne([], a).Ok? && MergeOne(MergeOne([], a).value, b).Ok? {
      assert MergeInto(MergeOne([], a).value, [b]) == MergeOne(MergeOne([], a).value, b);
    }
  }

  lemma ApplyTwo(file: File, a: Write, b: Write)
    ensures ApplyAll(file, [a, b]) == Apply(Apply(file, a), b)
    ensures ApplyAll(file, [b]) == Apply(file, b)
  {
    hide Apply;
    assert [a, b][1..] == [b] && [b][1..] == [];
    assert ApplyAll(Apply(file, a), [b]) == ApplyAll(Apply(Apply(file, a), b), []);
  }

  // ---------- when merging fails ----------

  /** Some write of `ws` owns bit `k` of register `a`. */
  ghost predicate Claims(ws: seq<Write>, a: U16, k: nat) {
    exists i :: 0 <= i < |ws| && ws[i].address == a && Bit(ws[i].mask, k) == 1
  }

  ghost predicate SameClaims(out: seq<Write>, done: seq<Write>) {
    forall a: U16, k: nat :: Claims(out, a, k) <==> Claims(done, a, k)
  }

  lemma SharedBit(a: nat, b: nat) returns (k: nat)
    requires And(a, b) != 0
    ensures Bit(a, k) == 1 && Bit(b, k) == 1
  {
    hide And, Bit;
    if forall j: nat :: Bit(And(a, b), j) == 0 {
      forall j: nat ensures Bit(And(a, b), j) == Bit(0, j) {
        BitOfZero(j);
      }
      SameBits(And(a, b), 0);
      assert false;
    }
    k :| Bit(And(a, b), k) != 0;
    BitOfAnd(a, b, k);
  }

  lemma NoSharedBit(a: nat, b: nat, k: nat)
    requires Bit(a, k) == 1 && Bit(b, k) == 1
    ensures And(a, b) != 0
  {
    BitOfAnd(a, b, k);
    BitOfZero(k);
  }

  lemma {:induction false} IndexFinds(out: seq<Write>, i: nat)
    requires Unique(out) && i < |out|
    ensures IndexOf(out, out[i].address) == i
  {
  }

  /** One write is refused exactly when some write before it owns one of its bits. */
  lemma RefusedIff(out: seq<Write>, done: seq<Write>, w: Write)
    requires Unique(out) && SameClaims(out, done)
    ensures MergeOne(out, w).Err? <==> exists i :: 0 <= i < |done| && Overlap(done[i], w)
  {
    hide And, Bit, Joined;
    var i := IndexOf(out, w.address);
    if MergeOne(out, w).Err? {
      var k := SharedBit(out[i].mask, w.mask);
      assert Claims(out, w.address, k);
      assert Claims(done, w.address, k);
      var j :| 0 <= j < |done| && done[j].address == w.address && Bit(done[j].mask, k) == 1;
      NoSharedBit(done[j].mask, w.mask, k);
      assert Overlap(done[j], w);
    }
    if j :| 0 <= j < |done| && Overlap(done[j], w) {
      var k := SharedBit(done[j].mask, w.mask);
      assert Claims(done, w.address, k);
      assert Claims(out, w.address, k);
      var m :| 0 <= m < |out| && out[m].address == w.address && Bit(out[m].mask, k) == 1;
      IndexFinds(out, m);
      NoSharedBit(out[i].mask, w.mask, k);
    }
  }

  lemma ClaimsAppend(ws: seq<Write>, w: Write, a: U16, k: nat)
    ensures Claims(ws + [w], a, k) <==> Claims(ws, a, k) || (w.address == a && Bit(w.mask, k) == 1)
  {
    hide Bit;
    if Claims(ws, a, k) {
      var i :| 0 <= i < |ws| && ws[i].address == a && Bit(ws[i].mask, k) == 1;
      assert (ws + [w])[i] == ws[i];
    }
    if w.address == a && Bit(w.mask, k) == 1 {
      assert (ws + [w])[|ws|] == w;
    }
  }

  lemma ClaimsJoined(out: seq<Write>, i: nat, w: Write, a: U16, k: nat)
    requires i < |out| && out[i].address == w.address
    ensures Claims(out[i := Joined(out[i], w)], a, k) <==> Claims(out, a, k) || (w.address == a && Bit(w.mask, k) == 1)
  {
    hide Bit, Joined;
    JoinedAddress(out[i], w);
    JoinedBits(out[i], w, k);
    var next := out[i := Joined(out[i], w)];
    if Claims(out, a, k) {
      var j :| 0 <= j < |out| && out[j].address == a && Bit(out[j].mask, k) == 1;
      assert next[j].address == a && Bit(next[j].mask, k) == 1;
    }
    if w.address == a && Bit(w.mask, k) == 1 {
      assert next[i].address == a;
    }
    if Claims(next, a, k) {
      var j :| 0 <= j < |next| && next[j].address == a && Bit(next[j].mask, k) == 1;
      assert j != i ==> out[j] == next[j];
      assert j == i ==> Bit(out[i].mask, k) == 1 || Bit(w.mask, k) == 1;
    }
  }

  lemma MergeOneClaims(out: seq<Write>, done: seq<Write>, w: Write)
    requires SameClaims(out, done) && MergeOne(out, w).Ok?
    ensures SameClaims(MergeOne(out, w).value, done + [w])
  {
    hide Bit, Joined, Claims, And;
    var i := IndexOf(out, w.address);
    forall a: U16, k: nat ensures Claims(MergeOne(out, w).value, a, k) <==> Claims(done + [w], a, k) {
      ClaimsAppend(done, w, a, k);
      if i == |out| {
        ClaimsAppend(out, w, a, k);
      } else {
        ClaimsJoined(out, i, w, a, k);
      }
    }
  }

  lemma MergeOneUnique(out: seq<Write>, w: Write)
    requires Unique(out) && MergeOne(out, w).Ok?
    ensures Unique(MergeOne(out, w).value)
  {
    hide Joined, And;
    var i := IndexOf(out, w.address);
    if i < |out| {
      JoinedAddress(out[i], w);
    }
  }

  /** The write at `j` collides with one before it. */
  ghost predicate CollidesAt(writes: seq<Write>, j: nat) {
    j < |writes| && exists i :: 0 <= i < j && Overlap(writes[i], writes[j])
  }

  lemma {:induction false} MergeFailsFrom(all: seq<Write>, n: nat, out: seq<Write>)
    requires n <= |all| && Unique(out) && SameClaims(out, all[..n])
    ensures MergeInto(out, all[n..]).Err? <==> exists j :: n <= j < |all| && CollidesAt(all, j)
    ensures MergeInto(out, all[n..]).Err? ==>
              exists j :: n <= j < |all| && CollidesAt(all, j) && MergeInto(out, all[n..]).error == all[j].address
    decreases |all| - n
  {
    hide MergeOne, Overlap, SameClaims, Unique;
    if n < |all| {
      var w := all[n];
      RefusedIff(out, all[..n], w);
      CollidesHere(all, n);
      if MergeOne(out, w).Ok? {
        MergeOneUnique(out, w);
        MergeOneClaims(out, all[..n], w);
        assert all[..n] + [w] == all[..n + 1];
        assert all[n..][1..] == all[n + 1..];
        MergeFailsFrom(all, n + 1, MergeOne(out, w).value);
      } else {
        RefusedNames(out, w);
      }
    }
  }

  lemma RefusedNames(out: seq<Write>, w: Write)
    requires MergeOne(out, w).Err?
    ensures MergeOne(out, w).error == w.address
  {
  }

  lemma CollidesHere(all: seq<Write>, n: nat)
    requires n < |all|
    ensures CollidesAt(all, n) <==> exists i :: 0 <= i < |all[..n]| && Overlap(all[..n][i], all[n])
  {
    hide Overlap;
    if CollidesAt(all, n) {
      var i :| 0 <= i < n && Overlap(all[i], all[n]);
      assert all[..n][i] == all[i];
    }
  }

  /** Merging fails exactly when two writes claim overlapping bits of one register, and names it. */
  lemma MergeFailsIff(writes: seq<Write>)
    ensures MergeInto([], writes).Err? <==> exists j :: 0 <= j < |writes| && CollidesAt(writes, j)
    ensures MergeInto([], writes).Err? ==>
              exists j :: 0 <= j < |writes| && CollidesAt(writes, j) && MergeInto([], writes).error == writes[j].address
  {
    assert writes[..0] == [] && writes[0..] == writes;
    MergeFailsFrom(writes, 0, []);
  }

  // ---------- exactly when merging keeps the effect ----------

  /** A bit that the first write to a register has set outside its mask, and a later one owns and clears. */
  predicate StrayAt(writes: seq<Write>, j: nat) {
    j < |writes| &&
    var i := IndexOf(writes, writes[j].address);
    i < j && Without(And(writes[i].value, writes[j].mask), writes[j].value) != 0
  }

  /** Some write behind the first to its register sets bit `k` of it. */
  ghost predicate LaterSets(ws: seq<Write>, a: U16, k: nat) {
    exists j :: IndexOf(ws, a) < j < |ws| && ws[j].address == a && Bit(ws[j].mask, k) == 1 && Bit(ws[j].value, k) == 1
  }

  /** The merged value: the first write's as it is, and the later ones' within their masks. */
  ghost predicate MergedBit(ws: seq<Write>, a: U16, k: nat) {
    (IndexOf(ws, a) < |ws| && Bit(ws[IndexOf(ws, a)].value, k) == 1) || LaterSets(ws, a, k)
  }

  /** `out` holds for each register what `done` says of it. */
  ghost predicate MergedFrom(out: seq<Write>, done: seq<Write>) {
    forall a: U16 ::
      && (IndexOf(out, a) < |out| <==> IndexOf(done, a) < |done|)
      && (IndexOf(out, a) < |out| ==> forall k: nat :: MergedValue(out, done, a, k))
  }

  ghost predicate MergedValue(out: seq<Write>, done: seq<Write>, a: U16, k: nat)
    requires IndexOf(out, a) < |out|
  {
    Bit(out[IndexOf(out, a)].value, k) == 1 <==> MergedBit(done, a, k)
  }

  lemma {:induction false} IndexOfAppend(ws: seq<Write>, w: Write, a: U16)
    ensures IndexOf(ws + [w], a) ==
            if IndexOf(ws, a) < |ws| then IndexOf(ws, a) else if w.address == a then |ws| else |ws| + 1
    decreases |ws|
  {
    if ws == [] {
      assert ws + [w] == [w] && IndexOf([w][1..], a) == 0;
    } else {
      assert (ws + [w])[1..] == ws[1..] + [w];
      IndexOfAppend(ws[1..], w, a);
    }
  }

  lemma LaterSetsAppend(ws: seq<Write>, w: Write, a: U16, k: nat)
    ensures LaterSets(ws + [w], a, k) <==>
            LaterSets(ws, a, k) ||
            (IndexOf(ws, a) < |ws| && w.address == a && Bit(w.mask, k) == 1 && Bit(w.value, k) == 1)
  {
    hide Bit, IndexOf;
    IndexOfAppend(ws, w, a);
    var more := ws + [w];
    if LaterSets(ws, a, k) {
      var j :| IndexOf(ws, a) < j < |ws| && ws[j].address == a && Bit(ws[j].mask, k) == 1 && Bit(ws[j].value, k) == 1;
      assert more[j] == ws[j];
    }
    if IndexOf(ws, a) < |ws| && w.address == a && Bit(w.mask, k) == 1 && Bit(w.value, k) == 1 {
      assert more[|ws|] == w;
    }
    if LaterSets(more, a, k) {
      var j :| IndexOf(more, a) < j < |more| && more[j].address == a && Bit(more[j].mask, k) == 1 &&
               Bit(more[j].value, k) == 1;
      assert j < |ws| ==> more[j] == ws[j];
    }
  }

  lemma MergedBitAppend(ws: seq<Write>, w: Write, a: U16, k: nat)
    ensures MergedBit(ws + [w], a, k) <==>
            if w.address != a then MergedBit(ws, a, k)
            else if IndexOf(ws, a) < |ws| then MergedBit(ws, a, k) || (Bit(w.mask, k) == 1 && Bit(w.value, k) == 1)
            else Bit(w.value, k) == 1
  {
    hide Bit, IndexOf, LaterSets;
    IndexOfAppend(ws, w, a);
    LaterSetsAppend(ws, w, a, k);
    NothingLater(ws, a, k);
    if IndexOf(ws, a) < |ws| {
      assert (ws + [w])[IndexOf(ws, a)] == ws[IndexOf(ws, a)];
    }
  }

  lemma NothingLater(ws: seq<Write>, a: U16, k: nat)
    ensures IndexOf(ws, a) == |ws| ==> !LaterSets(ws, a, k)
  {
  }

  lemma MergeOneMerges(out: seq<Write>, done: seq<Write>, w: Write)
    requires MergedFrom(out, done) && MergeOne(out, w).Ok?
    ensures MergedFrom(MergeOne(out, w).value, done + [w])
  {
    hide Bit, IndexOf, MergedBit, Joined, And;
    var next := MergeOne(out, w).value;
    var i := IndexOf(out, w.address);
    forall a: U16
      ensures IndexOf(next, a) < |next| <==> IndexOf(done + [w], a) < |done + [w]|
      ensures IndexOf(next, a) < |next| ==> forall k: nat :: MergedValue(next, done + [w], a, k)
    {
      IndexOfAppend(done, w, a);
      if i == |out| {
        IndexOfAppend(out, w, a);
      } else {
        JoinedAddress(out[i], w);
        IndexOfReplaced(out, i, Joined(out[i], w), a);
      }
      if IndexOf(next, a) < |next| {
        forall k: nat ensures MergedValue(next, done + [w], a, k) {
          MergedBitAppend(done, w, a, k);
          if IndexOf(out, a) < |out| {
            assert MergedValue(out, done, a, k);
          }
          if i < |out| {
            JoinedBits(out[i], w, k);
          }
        }
      }
    }
  }

  lemma {:induction false} MergesFrom(all: seq<Write>, n: nat, out: seq<Write>)
    requires n <= |all| && Unique(out) && SameClaims(out, all[..n]) && MergedFrom(out, all[..n])
    requires MergeInto(out, all[n..]).Ok?
    ensures var merged := MergeInto(out, all[n..]).value;
            Unique(merged) && SameClaims(merged, all) && MergedFrom(merged, all)
    decreases |all| - n
  {
    hide MergeOne, SameClaims, Unique, MergedFrom;
    if n < |all| {
      MergeOneUnique(out, all[n]);
      MergeOneClaims(out, all[..n], all[n]);
      MergeOneMerges(out, all[..n], all[n]);
      assert all[..n] + [all[n]] == all[..n + 1];
      assert all[n..][1..] == all[n + 1..];
      MergesFrom(all, n + 1, MergeOne(out, all[n]).value);
    } else {
      assert all[..n] == all;
    }
  }

  lemma MergedIs(writes: seq<Write>)
    requires MergeInto([], writes).Ok?
    ensures var merged := MergeInto([], writes).value;
            Unique(merged) && SameClaims(merged, writes) && MergedFrom(merged, writes)
  {
    assert writes[..0] == [] && writes[0..] == writes;
    MergesFrom(writes, 0, []);
  }

  /** A bit of the file after the merged writes. */
  lemma MergedFileBit(file: File, writes: seq<Write>, a: U16, k: nat)
    requires MergeInto([], writes).Ok?
    ensures Bit(ApplyAll(file, MergeInto([], writes).value)[a], k) ==
            if Claims(writes, a, k) then (if MergedBit(writes, a, k) then 1 else 0) else Bit(file[a], k)
  {
    hide MergeInto, Bit, Patched, MergedBit, IndexOf, ApplyAll;
    MergedIs(writes);
    var merged := MergeInto([], writes).value;
    ApplyUnique(file, merged, a);
    assert Claims(merged, a, k) <==> Claims(writes, a, k);
    ClaimsUnique(merged, a, k);
    var i := IndexOf(merged, a);
    if i < |merged| {
      RegisterRoundTrip.PatchedBit(file[a], merged[i], k);
      assert MergedValue(merged, writes, a, k);
    }
  }

  lemma ClaimsUnique(out: seq<Write>, a: U16, k: nat)
    requires Unique(out)
    ensures Claims(out, a, k) <==> IndexOf(out, a) < |out| && Bit(out[IndexOf(out, a)].mask, k) == 1
  {
    hide Bit, IndexOf;
    if Claims(out, a, k) {
      var i :| 0 <= i < |out| && out[i].address == a && Bit(out[i].mask, k) == 1;
      IndexFinds(out, i);
    }
  }

  /** A bit of the file after the writes in sequence: that of its one owner. */
  lemma {:induction false} SequenceFileBit(file: File, writes: seq<Write>, a: U16, k: nat, j: nat)
    requires j < |writes| && writes[j].address == a && Bit(writes[j].mask, k) == 1
    requires forall i :: j < i < |writes| && writes[i].address == a ==> Bit(writes[i].mask, k) == 0
    ensures Bit(ApplyAll(file, writes)[a], k) == Bit(writes[j].value, k)
    decreases |writes|
  {
    hide Bit, Patched, ApplyAll;
    var n := |writes| - 1;
    var front, w := writes[..n], writes[n];
    assert writes == front + [w];
    ApplyAppend(file, front, w);
    RegisterRoundTrip.PatchedBit(ApplyAll(file, front)[w.address], w, k);
    if j < n {
      SequenceFileBit(file, front, a, k, j);
    }
  }

  lemma {:induction false} UnclaimedFileBit(file: File, writes: seq<Write>, a: U16, k: nat)
    requires !Claims(writes, a, k)
    ensures Bit(ApplyAll(file, writes)[a], k) == Bit(file[a], k)
    decreases |writes|
  {
    hide Bit, Patched, ApplyAll, Claims;
    if writes == [] {
      assert ApplyAll(file, []) == file by {
        ApplyNone(file);
      }
    } else {
      var n := |writes| - 1;
      var front, w := writes[..n], writes[n];
      assert writes == front + [w];
      ClaimsAppend(front, w, a, k);
      ApplyAppend(file, front, w);
      RegisterRoundTrip.PatchedBit(ApplyAll(file, front)[w.address], w, k);
      UnclaimedFileBit(file, front, a, k);
    }
  }

  lemma ApplyNone(file: File)
    ensures ApplyAll(file, []) == file
  {
  }

  /** Bit `k` of a register has one owner, at `j`. */
  ghost predicate OwnerAt(writes: seq<Write>, a: U16, k: nat, j: nat) {
    j < |writes| && writes[j].address == a && Bit(writes[j].mask, k) == 1
  }

  lemma OneOwner(writes: seq<Write>, a: U16, k: nat, i: nat, j: nat)
    requires MergeInto([], writes).Ok? && OwnerAt(writes, a, k, i) && OwnerAt(writes, a, k, j)
    ensures i == j
  {
    hide MergeInto, Bit, And;
    MergeFailsIff(writes);
    assert !CollidesAt(writes, i) && !CollidesAt(writes, j);
    NoSharedBit(writes[i].mask, writes[j].mask, k);
    NoSharedBit(writes[j].mask, writes[i].mask, k);
    var forward, backward := Overlap(writes[i], writes[j]), Overlap(writes[j], writes[i]);
  }

  /** What the merged value and the owner's have in common: all but the first write's stray bits. */
  lemma OwnedBit(writes: seq<Write>, a: U16, k: nat, j: nat)
    requires MergeInto([], writes).Ok? && OwnerAt(writes, a, k, j)
    ensures var i := IndexOf(writes, a);
            && i <= j
            && (MergedBit(writes, a, k) <==>
                  Bit(writes[j].value, k) == 1 || (i < j && Bit(writes[i].value, k) == 1))
  {
    hide MergeInto, Bit, IndexOf;
    var i := IndexOf(writes, a);
    if LaterSets(writes, a, k) {
      var m :|
        i < m < |writes| && writes[m].address == a && Bit(writes[m].mask, k) == 1 && Bit(writes[m].value, k) == 1;
      OneOwner(writes, a, k, m, j);
    }
  }

  /** Bit `k` is set by the first write to the register of `writes[j]`, and owned and cleared by `writes[j]`. */
  ghost predicate StrayBitAt(writes: seq<Write>, j: nat, k: nat)
    requires j < |writes|
  {
    var i := IndexOf(writes, writes[j].address);
    i < j && Bit(writes[i].value, k) == 1 && Bit(writes[j].mask, k) == 1 && Bit(writes[j].value, k) == 0
  }

  lemma StrayBit(writes: seq<Write>, j: nat)
    requires j < |writes|
    ensures StrayAt(writes, j) <==> exists k: nat :: StrayBitAt(writes, j, k)
  {
    hide Bit, Without, And, IndexOf;
    var i := IndexOf(writes, writes[j].address);
    if i < j {
      var common := And(writes[i].value, writes[j].mask);
      var v := Without(common, writes[j].value);
      forall k: nat ensures Bit(v, k) == 1 <==> StrayBitAt(writes, j, k) {
        BitOfWithout(common, writes[j].value, k);
        BitOfAnd(writes[i].value, writes[j].mask, k);
      }
      NonzeroBit(v);
      if v != 0 {
        var k: nat :| Bit(v, k) == 1;
        assert StrayBitAt(writes, j, k);
      }
    }
  }

  lemma NonzeroBit(v: nat)
    ensures v != 0 ==> exists k: nat :: Bit(v, k) == 1
    ensures v == 0 ==> forall k: nat :: Bit(v, k) == 0
  {
    hide Bit;
    forall k: nat ensures Bit(0, k) == 0 {
      BitOfZero(k);
    }
    if forall k: nat :: Bit(v, k) == 0 {
      SameBits(v, 0);
    } else {
      var k: nat :| Bit(v, k) != 0;
      assert Bit(v, k) == 1;
    }
  }

  lemma SameFileBit(file: File, writes: seq<Write>, a: U16, k: nat)
    requires MergeInto([], writes).Ok? && forall j :: 0 <= j < |writes| ==> !StrayAt(writes, j)
    ensures Bit(ApplyAll(file, MergeInto([], writes).value)[a], k) == Bit(ApplyAll(file, writes)[a], k)
  {
    hide MergeInto, Bit, ApplyAll, StrayAt, MergedBit, IndexOf;
    MergedFileBit(file, writes, a, k);
    if Claims(writes, a, k) {
      var j :| 0 <= j < |writes| && writes[j].address == a && Bit(writes[j].mask, k) == 1;
      OwnerLast(writes, a, k, j);
      SequenceFileBit(file, writes, a, k, j);
      OwnedBit(writes, a, k, j);
      StrayBit(writes, j);
      assert !StrayBitAt(writes, j, k);
    } else {
      UnclaimedFileBit(file, writes, a, k);
    }
  }

  lemma OwnerLast(writes: seq<Write>, a: U16, k: nat, j: nat)
    requires MergeInto([], writes).Ok? && OwnerAt(writes, a, k, j)
    ensures forall i :: j < i < |writes| && writes[i].address == a ==> Bit(writes[i].mask, k) == 0
  {
    hide MergeInto, Bit;
    forall i | j < i < |writes| && writes[i].address == a ensures Bit(writes[i].mask, k) == 0 {
      if Bit(writes[i].mask, k) == 1 {
        OneOwner(writes, a, k, i, j);
      }
    }
  }

  lemma StrayDiffers(file: File, writes: seq<Write>, j: nat)
    requires MergeInto([], writes).Ok? && j < |writes| && StrayAt(writes, j)
    ensures ApplyAll(file, MergeInto([], writes).value) != ApplyAll(file, writes)
  {
    hide MergeInto, Bit, ApplyAll, StrayAt, MergedBit, IndexOf;
    StrayBit(writes, j);
    var a := writes[j].address;
    var i := IndexOf(writes, a);
    var k: nat :| StrayBitAt(writes, j, k);
    OwnerLast(writes, a, k, j);
    SequenceFileBit(file, writes, a, k, j);
    OwnedBit(writes, a, k, j);
    MergedFileBit(file, writes, a, k);
    assert Claims(writes, a, k);
  }

  /**
   Merging keeps the effect of the writes, on every register file, exactly when no first
   write has a bit set that a later write to its register owns and clears.
   */
  lemma MergeSameEffectIff(writes: seq<Write>)
    requires MergeInto([], writes).Ok?
    ensures (forall file: File :: ApplyAll(file, MergeInto([], writes).value) == ApplyAll(file, writes))
            <==> forall j :: 0 <= j < |writes| ==> !StrayAt(writes, j)
  {
    hide MergeInto, ApplyAll, StrayAt, Bit;
    var merged := MergeInto([], writes).value;
    if forall j :: 0 <= j < |writes| ==> !StrayAt(writes, j) {
      forall file: File ensures ApplyAll(file, merged) == ApplyAll(file, writes) {
        forall a: U16 ensures ApplyAll(file, merged)[a] == ApplyAll(file, writes)[a] {
          forall k: nat ensures Bit(ApplyAll(file, merged)[a], k) == Bit(ApplyAll(file, writes)[a], k) {
            SameFileBit(file, writes, a, k);
          }
          SameBits(ApplyAll(file, merged)[a], ApplyAll(file, writes)[a]);
        }
      }
    } else {
      var j :| 0 <= j < |writes| && StrayAt(writes, j);
      var file: File := seq(0x1_0000, _ => 0);
      StrayDiffers(file, writes, j);
    }
  }

  // ---------- the order of the merged writes ----------

  function Addresses(writes: seq<Write>): (r: seq<U16>)
    ensures |r| == |writes| && forall i :: 0 <= i < |r| ==> r[i] == writes[i].address
  {
    if writes == [] then [] else [writes[0].address] + Addresses(writes[1..])
  }

  /** What is not there yet goes to the end. */
  function FirstSeen(seen: seq<U16>, more: seq<U16>): seq<U16>
    decreases |more|
  {
    if more == [] then seen
    else FirstSeen(if more[0] in seen then seen else seen + [more[0]], more[1..])
  }

  lemma {:induction false} MergeOrder(out: seq<Write>, writes: seq<Write>)
    requires MergeInto(out, writes).Ok?
    ensures Addresses(MergeInto(out, writes).value) == FirstSeen(Addresses(out), Addresses(writes))
    decreases |writes|
  {
    hide MergeOne;
    if writes != [] {
      MergeOneOrder(out, writes[0]);
      assert Addresses(writes)[1..] == Addresses(writes[1..]);
      MergeOrder(MergeOne(out, writes[0]).value, writes[1..]);
    }
  }

  lemma MergeOneOrder(out: seq<Write>, w: Write)
    requires MergeOne(out, w).Ok?
    ensures Addresses(MergeOne(out, w).value) ==
            if w.address in Addresses(out) then Addresses(out) else Addresses(out) + [w.address]
  {
    hide Joined, And;
    var i := IndexOf(out, w.address);
    if i < |out| {
      JoinedAddress(out[i], w);
      assert Addresses(out)[i] == w.address;
      assert Addresses(out[i := Joined(out[i], w)]) == Addresses(out);
    } else {
      assert Addresses(out + [w]) == Addresses(out) + [w.address];
    }
  }

  // ---------- grouping into transactions ----------

  predicate Consecutive(run: seq<Write>) {
    run != [] && forall i :: 0 <= i < |run| - 1 ==> run[i].address + 1 == run[i + 1].address
  }

  ghost predicate AllConsecutive(runs: seq<seq<Write>>) {
    forall i :: 0 <= i < |runs| ==> Consecutive(runs[i])
  }

  /** No run could take the write that the next one starts with. */
  predicate Maximal(runs: seq<seq<Write>>)
    requires forall i :: 0 <= i < |runs| ==> runs[i] != []
  {
    forall i :: 0 <= i < |runs| - 1 ==> Last(runs[i]).address + 1 != runs[i + 1][0].address
  }

  function Last<T>(run: seq<T>): T
    requires run != []
  {
    run[|run| - 1]
  }

  /** The writes in their own order, cut into the longest runs of consecutive registers. */
  ghost predicate IsGrouping(runs: seq<seq<Write>>, writes: seq<Write>) {
    && Flatten(runs) == writes
    && AllConsecutive(runs)
    && Maximal(runs)
  }

  lemma {:induction false} FlattenAppend(runs: seq<seq<Write>>, run: seq<Write>)
    ensures Flatten(runs + [run]) == Flatten(runs) + run
  {
    FlattenSplit(runs + [run], |runs|);
    assert (runs + [run])[..|runs|] == runs && (runs + [run])[|runs|..] == [run];
    assert Flatten([run]) == run + Flatten([run][1..]);
  }

  lemma FlattenExtended(runs: seq<seq<Write>>, w: Write)
    requires runs != []
    ensures Flatten(runs[|runs| - 1 := Last(runs) + [w]]) == Flatten(runs) + [w]
  {
    var front, run := runs[..|runs| - 1], Last(runs);
    assert runs == front + [run] && runs[|runs| - 1 := run + [w]] == front + [run + [w]];
    FlattenAppend(front, run);
    FlattenAppend(front, run + [w]);
    AppendAssociative(Flatten(front), run, [w]);
  }

  lemma ExtendConsecutive(run: seq<Write>, w: Write)
    requires Consecutive(run) && Last(run).address + 1 == w.address
    ensures Consecutive(run + [w])
  {
  }

  lemma ExtendLast(runs: seq<seq<Write>>, run: seq<Write>)
    requires runs != [] && AllConsecutive(runs) && Maximal(runs)
    requires Consecutive(run) && Last(runs) <= run
    ensures AllConsecutive(runs[|runs| - 1 := run]) && Maximal(runs[|runs| - 1 := run])
  {
    var next := runs[|runs| - 1 := run];
    forall i | 0 <= i < |next| - 1 ensures Last(next[i]).address + 1 != next[i + 1][0].address {
      assert next[i] == runs[i] && next[i + 1][0] == runs[i + 1][0];
    }
  }

  lemma ExtendRun(runs: seq<seq<Write>>, w: Write, done: seq<Write>)
    requires IsGrouping(runs, done) && runs != [] && Last(Last(runs)).address + 1 == w.address
    ensures IsGrouping(runs[|runs| - 1 := Last(runs) + [w]], done + [w])
  {
    var run := Last(runs);
    FlattenExtended(runs, w);
    ExtendConsecutive(run, w);
    ExtendLast(runs, run + [w]);
    hide Flatten, Consecutive, Maximal;
  }

  lemma StartRun(runs: seq<seq<Write>>, w: Write, done: seq<Write>)
    requires IsGrouping(runs, done) && (runs == [] || Last(Last(runs)).address + 1 != w.address)
    ensures IsGrouping(runs + [[w]], done + [w])
  {
    FlattenAppend(runs, [w]);
    assert Consecutive([w]);
  }

  lemma TailGrouping(runs: seq<seq<Write>>, writes: seq<Write>)
    requires IsGrouping(runs, writes) && runs != []
    ensures writes == runs[0] + Flatten(runs[1..]) && IsGrouping(runs[1..], Flatten(runs[1..]))
  {
    hide Consecutive;
  }

  lemma NoRuns(runs: seq<seq<Write>>, writes: seq<Write>)
    requires IsGrouping(runs, writes)
    ensures runs == [] <==> writes == []
  {
  }

  /** There is only one such way to cut the writes. */
  lemma {:induction false} GroupingUnique(a: seq<seq<Write>>, b: seq<seq<Write>>, writes: seq<Write>)
    requires IsGrouping(a, writes) && IsGrouping(b, writes)
    ensures a == b
    decreases |a|
  {
    hide IsGrouping, Flatten;
    NoRuns(a, writes);
    NoRuns(b, writes);
    if a != [] {
      FirstRunSame(a, b, writes);
      TailGrouping(a, writes);
      TailGrouping(b, writes);
      SamePrefix(a[0], Flatten(a[1..]), Flatten(b[1..]));
      GroupingUnique(a[1..], b[1..], Flatten(a[1..]));
      assert a == [a[0]] + a[1..] && b == [b[0]] + b[1..];
    }
  }

  /** The write at `i` continues the one before it. */
  predicate Chained(writes: seq<Write>, i: nat) {
    0 < i < |writes| && writes[i - 1].address + 1 == writes[i].address
  }

  /** The first run goes on exactly as long as the writes do. */
  lemma FirstRun(runs: seq<seq<Write>>, writes: seq<Write>)
    requires IsGrouping(runs, writes) && runs != []
    ensures var n := |runs[0]|;
            && 0 < n <= |writes| && runs[0] == writes[..n]
            && (forall i :: 0 < i < n ==> Chained(writes, i))
            && !Chained(writes, n)
  {
    var n := |runs[0]|;
    forall i | 0 < i < n ensures Chained(writes, i) {
      assert writes[i - 1] == runs[0][i - 1] && writes[i] == runs[0][i];
    }
    assert writes == runs[0] + Flatten(runs[1..]);
    if |runs| > 1 {
      assert Flatten(runs[1..]) == runs[1] + Flatten(runs[1..][1..]);
      assert writes[n] == runs[1][0] && writes[n - 1] == Last(runs[0]);
    } else {
      assert Flatten(runs[1..]) == [];
    }
  }

  lemma FirstRunSame(a: seq<seq<Write>>, b: seq<seq<Write>>, writes: seq<Write>)
    requires IsGrouping(a, writes) && IsGrouping(b, writes) && a != [] && b != []
    ensures a[0] == b[0]
  {
    hide IsGrouping, Chained;
    FirstRun(a, writes);
    FirstRun(b, writes);
  }

  method GroupContiguous(writes: seq<Write>) returns (runs: seq<seq<Write>>)
    ensures IsGrouping(runs, writes)
  {
    runs := [];
    var n := 0;
    while n < |writes|
      invariant 0 <= n <= |writes|
      invariant IsGrouping(runs, writes[..n])
    {
      var w := writes[n];
      assert writes[..n + 1] == writes[..n] + [w];
      if runs != [] && Last(Last(runs)).address + 1 == w.address {
        ExtendRun(runs, w, writes[..n]);
        runs := runs[|runs| - 1 := runs[|runs| - 1] + [w]];
      } else {
        StartRun(runs, w, writes[..n]);
        runs := runs + [[w]];
      }
      n := n + 1;
    }
    assert writes[..n] == writes;
  }
}
