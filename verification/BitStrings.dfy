/** Bytes and words as strings of bits, the most significant first, and polynomials over two elements written so. */
module BitStrings {
  import opened Common

  type BitString = seq<bool>

  predicate On8(b: Byte, mask: Byte) { b & mask != 0 }

  /** Bit `k` of a byte, the most significant first. */
  function ByteBit(b: Byte, k: nat): bool {
    match k
    case 0 => On8(b, 0x80)
    case 1 => On8(b, 0x40)
    case 2 => On8(b, 0x20)
    case 3 => On8(b, 0x10)
    case 4 => On8(b, 0x08)
    case 5 => On8(b, 0x04)
    case 6 => On8(b, 0x02)
    case _ => On8(b, 0x01)
  }

  function Upper(w: Word): Byte { (w >> 8) as Byte }

  function Lower(w: Word): Byte { (w & 0xFF) as Byte }

  function ByteBits(b: Byte): (bits: BitString)
    ensures |bits| == 8
  {
    seq(8, k requires 0 <= k < 8 => ByteBit(b, k))
  }

  function WordBits(w: Word): (bits: BitString)
    ensures |bits| == 16
  {
    ByteBits(Upper(w)) + ByteBits(Lower(w))
  }

  /** The bits of a message in order, each byte's most significant first. */
  function MessageBits(m: seq<Byte>): (bits: BitString)
    ensures |bits| == 8 * |m|
  {
    if m == [] then [] else MessageBits(m[..|m| - 1]) + ByteBits(m[|m| - 1])
  }

  function Clear(n: nat): (bits: BitString)
    ensures |bits| == n && forall i :: 0 <= i < n ==> !bits[i]
  {
    seq(n, _ => false)
  }

  /** The sum of two polynomials of one length. */
  function Sum(a: BitString, b: BitString): (r: BitString)
    requires |a| == |b|
    ensures |r| == |a| && forall i :: 0 <= i < |r| ==> r[i] == (a[i] != b[i])
  {
    seq(|a|, i requires 0 <= i < |a| => a[i] != b[i])
  }

  /** A polynomial or nothing. */
  function If(c: bool, d: BitString): (r: BitString)
    ensures |r| == |d|
  {
    if c then d else Clear(|d|)
  }

  /** The product of two polynomials, coefficient by coefficient of the first. */
  function Product(q: BitString, d: BitString): (r: BitString)
    requires d != []
    ensures |r| == |q| + |d| - 1
    decreases |q|
  {
    if q == [] then Clear(|d| - 1)
    else Sum(If(q[0], d) + Clear(|q| - 1), [false] + Product(q[1..], d))
  }

  /** `m == q * d + r`, with `r` shorter than `d`. */
  predicate Divides(m: BitString, d: BitString, q: BitString, r: BitString) {
    && d != [] && d[0]
    && |m| == |q| + |d| - 1 && |r| == |d| - 1
    && m == Sum(Product(q, d), Clear(|q|) + r)
  }

  // ---------- there is one quotient and one remainder ----------

  lemma SumTwice(a: BitString, b: BitString)
    requires |a| == |b|
    ensures Sum(Sum(a, b), b) == a
  {
  }

  lemma SumTails(a: BitString, b: BitString)
    requires |a| == |b| && a != []
    ensures Sum(a, b)[0] == (a[0] != b[0]) && Sum(a, b)[1..] == Sum(a[1..], b[1..])
  {
  }

  /** The head of a dividend is that of the quotient; take it away and the rest divides on. */
  lemma DividesHead(m: BitString, d: BitString, q: BitString, r: BitString)
    requires Divides(m, d, q, r) && q != []
    ensures m[0] == q[0]
    ensures Divides(Sum(m, If(q[0], d) + Clear(|q| - 1))[1..], d, q[1..], r)
  {
    var first, rest := If(q[0], d) + Clear(|q| - 1), [false] + Product(q[1..], d);
    var tail := Clear(|q|) + r;
    ProductHead(q, d);
    TailOfTail(|q|, r);
    TailOfRest(Product(q[1..], d));
    IfHead(q[0], d);
    hide Product, If, Sum, Clear;
    TakenAway(first, rest, tail);
    ThreeHeads(first, rest, tail);
    SumTails(rest, tail);
  }

  lemma TailOfTail(n: nat, r: BitString)
    requires n > 0
    ensures (Clear(n) + r)[1..] == Clear(n - 1) + r && !(Clear(n) + r)[0]
  {
  }

  lemma TailOfRest(a: BitString)
    ensures ([false] + a)[1..] == a && !([false] + a)[0]
  {
  }

  lemma ThreeHeads(a: BitString, b: BitString, c: BitString)
    requires |a| == |b| == |c| > 0
    ensures Sum(Sum(a, b), c)[0] == ((a[0] != b[0]) != c[0])
  {
  }

  lemma ProductHead(q: BitString, d: BitString)
    requires d != [] && q != []
    ensures Product(q, d) == Sum(If(q[0], d) + Clear(|q| - 1), [false] + Product(q[1..], d))
  {
  }

  lemma IfHead(c: bool, d: BitString)
    requires d != []
    ensures If(c, d)[0] == (c && d[0])
  {
  }

  lemma TakenAway(first: BitString, rest: BitString, tail: BitString)
    requires |first| == |rest| == |tail|
    ensures Sum(Sum(Sum(first, rest), tail), first) == Sum(rest, tail)
  {
  }

  lemma {:induction false} DividesUniquely(m: BitString, d: BitString, q: BitString, r: BitString,
                                           q': BitString, r': BitString)
    requires Divides(m, d, q, r) && Divides(m, d, q', r')
    ensures q == q' && r == r'
    decreases |q|
  {
    if q == [] {
      assert q' == [];
      assert Product([], d) == Clear(|d| - 1);
      assert Sum(Clear(|r|), Clear(0) + r) == r && Sum(Clear(|r'|), Clear(0) + r') == r';
    } else {
      DividesHead(m, d, q, r);
      DividesHead(m, d, q', r');
      DividesUniquely(Sum(m, If(q[0], d) + Clear(|q| - 1))[1..], d, q[1..], r, q'[1..], r');
      assert q == [q[0]] + q[1..] && q' == [q'[0]] + q'[1..];
    }
  }

  // ---------- dividing one bit at a time ----------

  /** A division step of a register, the most significant bit going out. */
  function Stepped(r: BitString, p: BitString): (s: BitString)
    requires r != [] && |r| == |p|
    ensures |s| == |r|
  {
    Sum(r[1..] + [false], If(r[0], p))
  }

  /** One more bit of a message, meeting the bit that goes out. */
  function Taken(r: BitString, p: BitString, b: bool): (s: BitString)
    requires r != [] && |r| == |p|
    ensures |s| == |r|
  {
    Sum(r[1..] + [false], If(r[0] != b, p))
  }

  function AllTaken(r: BitString, p: BitString, bits: BitString): (s: BitString)
    requires r != [] && |r| == |p|
    ensures |s| == |r|
    decreases |bits|
  {
    if bits == [] then r else AllTaken(Taken(r, p, bits[0]), p, bits[1..])
  }

  lemma {:induction false} AllTakenConcat(r: BitString, p: BitString, a: BitString, b: BitString)
    requires r != [] && |r| == |p|
    ensures AllTaken(r, p, a + b) == AllTaken(AllTaken(r, p, a), p, b)
    decreases |a|
  {
    if a == [] {
      assert a + b == b;
    } else {
      assert (a + b)[1..] == a[1..] + b;
      AllTakenConcat(Taken(r, p, a[0]), p, a[1..], b);
    }
  }

  lemma {:induction false} ProductAppend(q: BitString, o: bool, d: BitString)
    requires d != []
    ensures Product(q + [o], d) == Sum(Product(q, d) + [false], Clear(|q|) + If(o, d))
    decreases |q|
  {
    if q == [] {
      assert q + [o] == [o] && [o][1..] == [];
      assert If(o, d) + Clear(0) == If(o, d) && Clear(0) + If(o, d) == If(o, d);
      assert [false] + Clear(|d| - 1) == Clear(|d|) == Clear(|d| - 1) + [false];
      SumClear(If(o, d));
    } else {
      assert (q + [o])[1..] == q[1..] + [o];
      ProductAppend(q[1..], o, d);
      ProductParts(q, o, d);
    }
  }

  lemma SumClear(a: BitString)
    ensures Sum(a, Clear(|a|)) == a == Sum(Clear(|a|), a)
  {
  }

  lemma ProductParts(q: BitString, o: bool, d: BitString)
    requires d != [] && q != []
    ensures var rest := Product(q[1..], d);
            Sum(If(q[0], d) + Clear(|q|), [false] + Sum(rest + [false], Clear(|q| - 1) + If(o, d)))
            == Sum(Sum(If(q[0], d) + Clear(|q| - 1), [false] + rest) + [false], Clear(|q|) + If(o, d))
  {
    hide Product, If;
    var rest, a, b, k := Product(q[1..], d), If(q[0], d), If(o, d), |q| - 1;
    assert a + Clear(|q|) == (a + Clear(k)) + [false] && [false] + Clear(k) == Clear(|q|);
    SumConcat([false], [false], rest + [false], Clear(k) + b);
    assert Sum([false], [false]) == [false];
    assert [false] + (rest + [false]) == ([false] + rest) + [false] && [false] + (Clear(k) + b) == Clear(|q|) + b;
    SumAssoc((a + Clear(k)) + [false], ([false] + rest) + [false], Clear(|q|) + b);
    SumConcat(a + Clear(k), [false] + rest, [false], [false]);
  }

  lemma SumConcat(a: BitString, b: BitString, c: BitString, d: BitString)
    requires |a| == |b| && |c| == |d|
    ensures Sum(a + c, b + d) == Sum(a, b) + Sum(c, d)
  {
  }

  lemma SumAssoc(a: BitString, b: BitString, c: BitString)
    requires |a| == |b| == |c|
    ensures Sum(a, Sum(b, c)) == Sum(Sum(a, b), c)
  {
  }

  /** The bits of a message with zeros behind them, and a starting register met by the first of them. */
  function Dividend(start: BitString, u: BitString): (m: BitString)
    ensures |m| == |u| + |start|
  {
    Sum(u + Clear(|start|), start + Clear(|u|))
  }

  lemma DividendAppend(start: BitString, u: BitString, b: bool)
    requires start != []
    ensures Dividend(start, u + [b]) == Sum(Dividend(start, u) + [false], Clear(|u|) + ([b] + Clear(|start|)))
  {
  }

  /** What one more bit does to dividend, quotient and remainder. */
  lemma OneMoreBit(m: BitString, p: BitString, q: BitString, r: BitString, b: bool)
    requires |r| == |p| > 0 && Divides(m, [true] + p, q, r)
    ensures Divides(Sum(m + [false], Clear(|q|) + ([b] + Clear(|p|))), [true] + p, q + [r[0] != b], Taken(r, p, b))
  {
    var d, o, next, n := [true] + p, r[0] != b, Taken(r, p, b), |q|;
    ProductAppend(q, o, d);
    ClearConcat(n, next);
    FrontMeets(n, r, p, b);
    hide Product, Sum, If, Taken, Clear;
    MeetBehind(Product(q, d), Clear(n) + r, m, Clear(n) + ([b] + Clear(|p|)), Clear(n) + If(o, d), Clear(n + 1) + next);
  }

  lemma FrontMeets(n: nat, r: BitString, p: BitString, b: bool)
    requires |r| == |p| > 0
    ensures Sum((Clear(n) + r) + [false], Clear(n) + ([b] + Clear(|p|)))
         == Sum(Clear(n) + If(r[0] != b, [true] + p), Clear(n + 1) + Taken(r, p, b))
  {
    BitMeets(r, p, b);
    ClearConcat(n, Taken(r, p, b));
    var front := Clear(n);
    assert (front + r) + [false] == front + (r + [false]);
    hide Sum, If, Taken, Clear;
    SumConcat(front, front, r + [false], [b] + Clear(|p|));
    SumConcat(front, front, If(r[0] != b, [true] + p), [false] + Taken(r, p, b));
  }

  lemma MeetBehind(whole: BitString, a: BitString, m: BitString, x: BitString, y: BitString, z: BitString)
    requires |whole| == |a| && m == Sum(whole, a) && |x| == |y| == |z| == |a| + 1
    requires Sum(a + [false], x) == Sum(y, z)
    ensures Sum(m + [false], x) == Sum(Sum(whole + [false], y), z)
  {
    OneSum();
    SumConcat(whole, a, [false], [false]);
    hide Sum;
    SumAssoc(whole + [false], a + [false], x);
    SumAssoc(whole + [false], y, z);
  }

  lemma OneSum()
    ensures Sum([false], [false]) == [false]
  {
  }

  lemma ClearConcat(n: nat, bits: BitString)
    ensures Clear(n + 1) + bits == Clear(n) + ([false] + bits)
  {
  }

  lemma OneAgainst(a: bool, b: bool)
    ensures Sum([a], [b]) == [a != b]
  {
  }

  lemma IfParts(c: bool, p: BitString)
    ensures If(c, [true] + p) == [c] + If(c, p)
  {
    assert !c ==> Clear(1 + |p|) == [false] + Clear(|p|);
  }

  /** The bit that goes out meets the next one of the message, and the divisor takes both away. */
  lemma BitMeets(r: BitString, p: BitString, b: bool)
    requires |r| == |p| > 0
    ensures Sum(r + [false], [b] + Clear(|p|)) == Sum(If(r[0] != b, [true] + p), [false] + Taken(r, p, b))
  {
    hide Sum, If, Clear;
    var o, shifted := r[0] != b, r[1..] + [false];
    assert r + [false] == [r[0]] + shifted;
    SumConcat([r[0]], [b], shifted, Clear(|p|));
    OneAgainst(r[0], b);
    SumClear(shifted);
    IfParts(o, p);
    SumConcat([o], [false], If(o, p), Taken(r, p, b));
    OneAgainst(o, false);
    TakenBack(shifted, If(o, p));
  }

  lemma TakenBack(a: BitString, b: BitString)
    requires |a| == |b|
    ensures Sum(b, Sum(a, b)) == a
  {
  }

  /** A register ends as the remainder. */
  lemma {:induction false} TakenDivides(start: BitString, u: BitString, p: BitString) returns (q: BitString)
    requires |start| == |p| > 0
    ensures Divides(Dividend(start, u), [true] + p, q, AllTaken(start, p, u))
    decreases |u|
  {
    if u == [] {
      q := [];
      NothingDivided(start, p);
    } else {
      var k := |u| - 1;
      var before := TakenDivides(start, u[..k], p);
      var r := AllTaken(start, p, u[..k]);
      hide Divides, Dividend, Sum, Product;
      OneMoreBit(Dividend(start, u[..k]), p, before, r, u[k]);
      DividesLength(Dividend(start, u[..k]), p, before, r);
      DividendAppend(start, u[..k], u[k]);
      q := before + [r[0] != u[k]];
      assert u == u[..k] + [u[k]];
      LastTaken(start, p, u[..k], u[k]);
    }
  }

  lemma LastTaken(start: BitString, p: BitString, u: BitString, b: bool)
    requires |start| == |p| > 0
    ensures AllTaken(start, p, u + [b]) == Taken(AllTaken(start, p, u), p, b)
  {
    AllTakenConcat(start, p, u, [b]);
    OneTaken(AllTaken(start, p, u), p, b);
  }

  lemma OneTaken(r: BitString, p: BitString, b: bool)
    requires |r| == |p| > 0
    ensures AllTaken(r, p, [b]) == Taken(r, p, b)
  {
    hide Taken;
    assert [b][1..] == [];
  }

  lemma NothingDivided(start: BitString, p: BitString)
    requires |start| == |p| > 0
    ensures Divides(Dividend(start, []), [true] + p, [], start)
  {
    assert Product([], [true] + p) == Clear(|p|);
    SumClear(start);
    assert Clear(0) + start == start && start + Clear(0) == start && [] + Clear(|p|) == Clear(|p|);
  }

  lemma DividesLength(m: BitString, p: BitString, q: BitString, r: BitString)
    requires Divides(m, [true] + p, q, r)
    ensures |m| == |q| + |p|
  {
  }

  // ---------- a block of bits joined at once ----------

  function Steps(r: BitString, p: BitString, n: nat): (s: BitString)
    requires r != [] && |r| == |p|
    ensures |s| == |r|
    decreases n
  {
    if n == 0 then r else Steps(Stepped(r, p), p, n - 1)
  }

  lemma {:induction false} JoinedThenStepped(r: BitString, p: BitString, x: BitString)
    requires r != [] && |r| == |p| && |x| <= |r|
    ensures Steps(Sum(r, x + Clear(|r| - |x|)), p, |x|) == AllTaken(r, p, x)
    decreases |x|
  {
    if x == [] {
      assert x + Clear(|r|) == Clear(|r|);
      SumClear(r);
    } else {
      var joined := Sum(r, x + Clear(|r| - |x|));
      var rest := x[1..] + Clear(|r| - |x| + 1);
      assert Stepped(joined, p) == Sum(Taken(r, p, x[0]), rest);
      JoinedThenStepped(Taken(r, p, x[0]), p, x[1..]);
    }
  }
}
