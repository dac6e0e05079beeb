/**
 What the Modbus check detects. The register is followed one bit at a time, lowest
 bit of each byte first, which is the order in which a line carries them.
 */
module BurstErrors {
  import opened Common
  import opened Crc
  import opened CrcAlgebra
  import opened LinearFold
  import opened ModbusCrc

  predicate Has(b: Byte, mask: Byte) { b & mask != 0 }

  /** Bit `k` of a byte, the lowest first. */
  function BitAt(b: Byte, k: nat): bool {
    match k
    case 0 => Has(b, 0x01)
    case 1 => Has(b, 0x02)
    case 2 => Has(b, 0x04)
    case 3 => Has(b, 0x08)
    case 4 => Has(b, 0x10)
    case 5 => Has(b, 0x20)
    case 6 => Has(b, 0x40)
    case _ => Has(b, 0x80)
  }

  function Bits(b: Byte): (bits: seq<bool>)
    ensures |bits| == 8
  {
    seq(8, k requires 0 <= k < 8 => BitAt(b, k))
  }

  function XorBits(s: seq<bool>, t: seq<bool>): (r: seq<bool>)
    requires |s| == |t|
    ensures |r| == |s|
  {
    seq(|s|, i requires 0 <= i < |s| => s[i] != t[i])
  }

  function AllBits(m: seq<Byte>): (bits: seq<bool>)
    ensures |bits| == 8 * |m|
  {
    if m == [] then [] else AllBits(m[..|m| - 1]) + Bits(m[|m| - 1])
  }

  function Joined(r: Word, b: bool): Word {
    if b then Xor16(r, 1) else r
  }

  /** The register after a run of bits. */
  function Feed(r: Word, bits: seq<bool>): Word
    decreases |bits|
  {
    if bits == [] then r else Feed(Divider()(Joined(r, bits[0])), bits[1..])
  }

  /** Up to sixteen bits as a word, the first lowest. */
  function Pack(bits: seq<bool>): Word
    requires |bits| <= 16
  {
    if bits == [] then 0 else Joined(Doubled(Pack(bits[1..])), bits[0])
  }

  // ---------- words of bits ----------

  lemma JoinedDoubled(w: Word, b: bool)
    ensures Joined(Doubled(w), b) == if b then DoubledPlusOne(w) else Doubled(w)
  {
  }

  lemma {:induction false} PackFits(bits: seq<bool>)
    requires |bits| <= 16
    ensures AtMost(Pack(bits), Ones(|bits|))
  {
    hide Doubled, DoubledPlusOne, Joined, AtMost;
    if bits == [] {
      assert AtMost(0, 0) by { ZeroFits(); }
    } else {
      PackFits(bits[1..]);
      FitsDoubled(Pack(bits[1..]), |bits| - 1);
      JoinedDoubled(Pack(bits[1..]), bits[0]);
    }
  }

  lemma ZeroFits()
    ensures AtMost(0, 0)
  {
  }

  lemma PackTopBitClear(bits: seq<bool>)
    requires |bits| <= 15
    ensures AtMost(Pack(bits), 0x7FFF)
  {
    hide Pack, AtMost, Ones;
    PackFits(bits);
    OnesBound(|bits|);
    TopBitClear(Pack(bits), Ones(|bits|));
  }

  lemma JoinedZero(w: Word, b: bool)
    requires AtMost(w, 0x7FFF) && Joined(Doubled(w), b) == 0
    ensures w == 0 && !b
  {
  }

  lemma {:induction false} PackZero(bits: seq<bool>)
    requires |bits| <= 16 && Pack(bits) == 0
    ensures forall i :: 0 <= i < |bits| ==> !bits[i]
  {
    hide Doubled, Joined, AtMost;
    if bits != [] {
      PackTopBitClear(bits[1..]);
      JoinedZero(Pack(bits[1..]), bits[0]);
      PackZero(bits[1..]);
      assert forall i :: 1 <= i < |bits| ==> bits[i] == bits[1..][i - 1];
    }
  }

  // ---------- feeding bits ----------

  lemma JoinedIsXor(r: Word, w: Word, b: bool)
    ensures Xor16(Joined(r, b), w) == Xor16(r, Joined(w, b))
  {
    hide Xor16;
    if b {
      Xor16Assoc(r, 1, w);
      Xor16Comm(1, w);
    }
  }

  /** Bits that fit the register might as well have joined it all at once. */
  lemma {:induction false} FeedIsIterate(r: Word, bits: seq<bool>)
    requires |bits| <= 16
    ensures Feed(r, bits) == Iterate(Divider(), Xor16(r, Pack(bits)), |bits|)
    decreases |bits|
  {
    hide Divider, Xor16, Doubled, Joined, AtMost;
    if bits == [] {
      Xor16Zero(r);
    } else {
      var b, rest := bits[0], bits[1..];
      var s, w := Joined(r, b), Doubled(Pack(rest));
      calc {
        Feed(r, bits);
        Feed(Divider()(s), rest);
        { FeedIsIterate(Divider()(s), rest); }
        Iterate(Divider(), Xor16(Divider()(s), Pack(rest)), |rest|);
        { PackTopBitClear(rest); DividerHalves(Pack(rest)); }
        Iterate(Divider(), Xor16(Divider()(s), Divider()(w)), |rest|);
        { DividerXor(s, w); }
        Iterate(Divider(), Divider()(Xor16(s, w)), |rest|);
        { IterateFirst(Divider(), Xor16(s, w), |rest|); }
        Iterate(Divider(), Xor16(s, w), |bits|);
        { JoinedIsXor(r, w, b); }
        Iterate(Divider(), Xor16(r, Pack(bits)), |bits|);
      }
    }
  }

  lemma DividerHalves(w: Word)
    requires AtMost(w, 0x7FFF)
    ensures Divider()(Doubled(w)) == w
  {
    hide Step16, Doubled, AtMost;
    DoubledHalves(w);
  }

  lemma DividerXor(a: Word, b: Word)
    ensures Divider()(Xor16(a, b)) == Xor16(Divider()(a), Divider()(b))
  {
    hide Step16, Xor16;
    Stepper16Additive(POLY_REFLECTED, true);
  }

  lemma DividerZero(w: Word)
    ensures Divider()(w) == 0 <==> w == 0
  {
  }

  lemma {:induction false} IterateZero(w: Word, n: nat)
    ensures Iterate(Divider(), w, n) == 0 <==> w == 0
  {
    hide Divider;
    if n > 0 {
      IterateZero(w, n - 1);
      DividerZero(Iterate(Divider(), w, n - 1));
    }
  }

  lemma {:induction false} FeedConcat(r: Word, a: seq<bool>, b: seq<bool>)
    ensures Feed(r, a + b) == Feed(Feed(r, a), b)
    decreases |a|
  {
    hide Divider, Joined;
    if a == [] {
      assert a + b == b;
    } else {
      assert (a + b)[1..] == a[1..] + b;
      FeedConcat(Divider()(Joined(r, a[0])), a[1..], b);
    }
  }

  lemma {:induction false} FeedZeros(r: Word, bits: seq<bool>)
    requires forall i :: 0 <= i < |bits| ==> !bits[i]
    ensures Feed(r, bits) == 0 <==> r == 0
    decreases |bits|
  {
    hide Divider;
    if bits != [] {
      DividerZero(r);
      FeedZeros(Divider()(r), bits[1..]);
    }
  }

  lemma XorZero(a: Word, b: Word)
    ensures Xor16(a, b) == 0 <==> a == b
  {
    hide Xor16;
    Xor16Cancel(a, b, 0);
    Xor16Zero(b);
  }

  // ---------- bytes ----------

  /** A byte without its lowest `k` bits. */
  function Down(b: Byte, k: nat): Word {
    match k
    case 0 => b as Word
    case 1 => (b >> 1) as Word
    case 2 => (b >> 2) as Word
    case 3 => (b >> 3) as Word
    case 4 => (b >> 4) as Word
    case 5 => (b >> 5) as Word
    case 6 => (b >> 6) as Word
    case 7 => (b >> 7) as Word
    case _ => 0
  }

  lemma DownStep(b: Byte, k: nat)
    requires k < 8
    ensures Joined(Doubled(Down(b, k + 1)), BitAt(b, k)) == Down(b, k)
  {
    match k case 0 => case 1 => case 2 => case 3 => case 4 => case 5 => case 6 => case _ =>
  }

  lemma {:induction false} PackDown(b: Byte, k: nat)
    requires k <= 8
    ensures Pack(Bits(b)[k..]) == Down(b, k)
    decreases 8 - k
  {
    if k < 8 {
      hide Joined, Doubled, BitAt, Down;
      PackDown(b, k + 1);
      DownStep(b, k);
      assert Bits(b)[k..][1..] == Bits(b)[k + 1..];
    }
  }

  lemma PackByte(b: Byte)
    ensures Pack(Bits(b)) == b as Word
  {
    hide Pack, Bits;
    PackDown(b, 0);
    assert Bits(b)[0..] == Bits(b);
  }

  lemma DoubledXor(a: Word, b: Word)
    ensures Doubled(Xor16(a, b)) == Xor16(Doubled(a), Doubled(b))
  {
  }

  lemma {:induction false} PackConcat(a: seq<bool>, b: seq<bool>)
    requires |a| + |b| <= 16
    ensures Pack(a + b) == Xor16(Pack(a), Lifted(Pack(b), |a|))
  {
    hide Joined, Doubled, Xor16;
    if a == [] {
      assert a + b == b;
      Xor16Zero(Pack(b));
    } else {
      var h, t := a[0], a[1..];
      assert (a + b)[1..] == t + b;
      PackConcat(t, b);
      DoubledXor(Pack(t), Lifted(Pack(b), |t|));
      JoinedLeft(Doubled(Pack(t)), Lifted(Pack(b), |a|), h);
    }
  }

  lemma JoinedLeft(r: Word, w: Word, b: bool)
    ensures Joined(Xor16(r, w), b) == Xor16(Joined(r, b), w)
  {
    hide Xor16;
    if b {
      Xor16Assoc(r, w, 1);
      Xor16Comm(w, 1);
      Xor16Assoc(r, 1, w);
    }
  }

  // ---------- whole messages ----------

  lemma JoinReflected(r: Word, b: Byte)
    ensures Join16(r, b, true) == Xor16(r, b as Word)
  {
  }

  lemma {:induction false} RegisterIsFeed(r: Word, m: seq<Byte>)
    ensures Register(Divider(), Joiner16(true), r, m) == Feed(r, AllBits(m))
  {
    hide Divider, Xor16, Join16, Bits;
    if m != [] {
      var n := |m| - 1;
      RegisterIsFeed(r, m[..n]);
      var s := Feed(r, AllBits(m[..n]));
      FeedConcat(r, AllBits(m[..n]), Bits(m[n]));
      FeedIsIterate(s, Bits(m[n]));
      PackByte(m[n]);
      JoinReflected(s, m[n]);
    }
  }

  lemma LittleEndianIsPack(low: Byte, high: Byte)
    ensures Xor16(low as Word, Lifted(high as Word, 8)) == BothBytes(high, low)
  {
    LiftedEnds(high as Word);
    hide Lifted;
  }

  /** A message checks out exactly when its register, run over the check as well, ends at zero. */
  lemma ValidIffRegisterZero(m: seq<Byte>)
    requires |m| >= 4
    ensures Valid(m) <==> Register(Divider(), Joiner16(true), 0xFFFF, m) == 0
  {
    hide Divider, Xor16, Join16, Bits, Pack, Lifted, Feed, Iterate, Register, Checksum, BothBytes, AllBits;
    var n := |m| - 2;
    var body, low, high := m[..n], m[n], m[n + 1];
    assert m == body + [low, high];
    ChecksumIsRegister(body);
    var c := Checksum(body);
    RegisterConcat(Divider(), Joiner16(true), 0xFFFF, body, [low, high]);
    RegisterIsFeed(c, [low, high]);
    TwoBytes(low, high);
    FeedIsIterate(c, Bits(low) + Bits(high));
    IterateZero(Xor16(c, Pack(Bits(low) + Bits(high))), 16);
    XorZero(c, Pack(Bits(low) + Bits(high)));
    PackConcat(Bits(low), Bits(high));
    PackByte(low);
    PackByte(high);
    LittleEndianIsPack(low, high);
  }

  lemma TwoBytes(low: Byte, high: Byte)
    ensures AllBits([low, high]) == Bits(low) + Bits(high)
  {
    hide Bits;
    assert [low, high][..1] == [low];
    assert AllBits([low]) == Bits(low);
  }

  lemma HasXor(x: Byte, y: Byte)
    ensures Has(x ^ y, 0x01) == (Has(x, 0x01) != Has(y, 0x01))
    ensures Has(x ^ y, 0x02) == (Has(x, 0x02) != Has(y, 0x02))
    ensures Has(x ^ y, 0x04) == (Has(x, 0x04) != Has(y, 0x04))
    ensures Has(x ^ y, 0x08) == (Has(x, 0x08) != Has(y, 0x08))
    ensures Has(x ^ y, 0x10) == (Has(x, 0x10) != Has(y, 0x10))
    ensures Has(x ^ y, 0x20) == (Has(x, 0x20) != Has(y, 0x20))
    ensures Has(x ^ y, 0x40) == (Has(x, 0x40) != Has(y, 0x40))
    ensures Has(x ^ y, 0x80) == (Has(x, 0x80) != Has(y, 0x80))
  {
  }

  lemma BitXor(x: Byte, y: Byte, k: nat)
    ensures BitAt(x ^ y, k) == (BitAt(x, k) != BitAt(y, k))
  {
    hide Has;
    HasXor(x, y);
  }

  lemma BitsXor(x: Byte, y: Byte)
    ensures Bits(x ^ y) == XorBits(Bits(x), Bits(y))
  {
    hide BitAt;
    forall k | 0 <= k < 8 ensures Bits(x ^ y)[k] == XorBits(Bits(x), Bits(y))[k] { BitXor(x, y, k); }
  }

  lemma XorBitsConcat(a: seq<bool>, b: seq<bool>, c: seq<bool>, d: seq<bool>)
    requires |a| == |c| && |b| == |d|
    ensures XorBits(a + b, c + d) == XorBits(a, c) + XorBits(b, d)
  {
  }

  lemma {:induction false} AllBitsXor(m: seq<Byte>, n: seq<Byte>)
    requires |m| == |n|
    ensures AllBits(XorBytes(m, n)) == XorBits(AllBits(m), AllBits(n))
  {
    hide Bits, XorBits;
    if m == [] {
      assert XorBits([], []) == [];
    } else {
      var k := |m| - 1;
      AllBitsXor(m[..k], n[..k]);
      BitsXor(m[k], n[k]);
      XorBitsConcat(AllBits(m[..k]), Bits(m[k]), AllBits(n[..k]), Bits(n[k]));
      assert XorBytes(m, n)[..k] == XorBytes(m[..k], n[..k]);
    }
  }

  lemma {:induction false} AllBitsInjective(m: seq<Byte>, n: seq<Byte>)
    requires |m| == |n| && AllBits(m) == AllBits(n)
    ensures m == n
  {
    hide Bits;
    if m != [] {
      var k := |m| - 1;
      assert AllBits(m)[..8 * k] == AllBits(m[..k]) && AllBits(n)[..8 * k] == AllBits(n[..k]);
      assert AllBits(m)[8 * k..] == Bits(m[k]) && AllBits(n)[8 * k..] == Bits(n[k]);
      AllBitsInjective(m[..k], n[..k]);
      SameBits(m[k], n[k]);
      assert m == m[..k] + [m[k]] && n == n[..k] + [n[k]];
    }
  }

  lemma SameBits(x: Byte, y: Byte)
    requires Bits(x) == Bits(y)
    ensures x == y
  {
    hide Bits, Pack;
    PackByte(x);
    PackByte(y);
    Narrow(x, y);
  }

  lemma Narrow(x: Byte, y: Byte)
    ensures x as Word == y as Word <==> x == y
  {
  }

  /** A nonzero pattern no longer than the register never divides out. */
  lemma ShortBurstSurvives(bits: seq<bool>, k: nat)
    requires forall j :: 0 <= j < |bits| && bits[j] ==> k <= j < k + 16
    requires Feed(0, bits) == 0
    ensures forall j :: 0 <= j < |bits| ==> !bits[j]
  {
    hide Divider, Xor16, Pack, Feed, Iterate;
    var lo := if k < |bits| then k else |bits|;
    var hi := if k + 16 < |bits| then k + 16 else |bits|;
    var before, burst, after := bits[..lo], bits[lo..hi], bits[hi..];
    assert bits == before + (burst + after);
    FeedConcat(0, before, burst + after);
    FeedZeros(0, before);
    FeedConcat(0, burst, after);
    FeedZeros(Feed(0, burst), after);
    FeedIsIterate(0, burst);
    Xor16Zero(Pack(burst));
    IterateZero(Pack(burst), |burst|);
    PackZero(burst);
    forall j | 0 <= j < |bits| ensures !bits[j] {
      if lo <= j < hi { assert bits[j] == burst[j - lo]; }
    }
  }

  /** What two valid messages differ by divides out. */
  lemma DifferenceDividesOut(m: seq<Byte>, n: seq<Byte>)
    requires |m| == |n| && Valid(m) && Valid(n)
    ensures Feed(0, XorBits(AllBits(m), AllBits(n))) == 0
  {
    hide Divider, Xor16, Feed, Register, Checksum, AllBits, XorBits, AdditiveMap, AdditiveJoin;
    ValidIffRegisterZero(m);
    ValidIffRegisterZero(n);
    Stepper16Additive(POLY_REFLECTED, true);
    DividerIs();
    Joiner16Additive(true);
    RegisterAdditive(Divider(), Joiner16(true), Xor16, 0xFFFF, 0xFFFF, m, n);
    Xor16Self(0xFFFF);
    Xor16Self(0);
    RegisterIsFeed(0, XorBytes(m, n));
    AllBitsXor(m, n);
  }

  /** Any error confined to sixteen consecutive bits of a valid message is caught. */
  lemma BurstDetected(m: seq<Byte>, n: seq<Byte>, k: nat)
    requires |m| == |n| && m != n && Valid(m)
    requires forall j :: 0 <= j < 8 * |m| && AllBits(m)[j] != AllBits(n)[j] ==> k <= j < k + 16
    ensures !Valid(n)
  {
    hide Feed, AllBits, Valid;
    if Valid(n) {
      DifferenceDividesOut(m, n);
      var d := XorBits(AllBits(m), AllBits(n));
      ShortBurstSurvives(d, k);
      assert forall j :: 0 <= j < 8 * |m| ==> d[j] == (AllBits(m)[j] != AllBits(n)[j]);
      AllBitsInjective(m, n);
    }
  }

  /** In particular a change to one byte, or to two adjacent ones. */
  lemma AdjacentBytesDetected(m: seq<Byte>, n: seq<Byte>, i: nat)
    requires |m| == |n| && m != n && Valid(m)
    requires forall j :: 0 <= j < |m| && j != i && j != i + 1 ==> m[j] == n[j]
    ensures !Valid(n)
  {
    hide Valid, Bits;
    forall j | 0 <= j < 8 * |m| && AllBits(m)[j] != AllBits(n)[j] ensures 8 * i <= j < 8 * i + 16 {
      AllBitsAt(m, j);
      AllBitsAt(n, j);
    }
    BurstDetected(m, n, 8 * i);
  }

  lemma {:induction false} AllBitsAt(m: seq<Byte>, j: nat)
    requires j < 8 * |m|
    ensures AllBits(m)[j] == Bits(m[j / 8])[j % 8]
  {
    hide Bits;
    var k := |m| - 1;
    if j < 8 * k {
      AllBitsAt(m[..k], j);
    }
  }

  // ---------- an odd number of bits ----------

  /** How many of the bits are set. */
  function Weight(bits: seq<bool>): nat {
    if bits == [] then 0 else (if bits[0] then 1 else 0) + Weight(bits[1..])
  }

  function One(w: Word, mask: Word): int { if w & mask != 0 then 1 else 0 }

  /** How many of a register's bits are set. */
  function WordWeight(w: Word): int {
    One(w, 0x0001) + One(w, 0x0002) + One(w, 0x0004) + One(w, 0x0008) +
    One(w, 0x0010) + One(w, 0x0020) + One(w, 0x0040) + One(w, 0x0080) +
    One(w, 0x0100) + One(w, 0x0200) + One(w, 0x0400) + One(w, 0x0800) +
    One(w, 0x1000) + One(w, 0x2000) + One(w, 0x4000) + One(w, 0x8000)
  }

  function Down1(w: Word): Word { w >> 1 }

  /** The divisor has three bits, 0, 13 and 15. */
  function WithDivisor(w: Word): Word { w ^ 0xA001 }

  lemma DownOnes(w: Word)
    ensures One(Down1(w), 0x0001) == One(w, 0x0002)
    ensures One(Down1(w), 0x0002) == One(w, 0x0004)
    ensures One(Down1(w), 0x0004) == One(w, 0x0008)
    ensures One(Down1(w), 0x0008) == One(w, 0x0010)
    ensures One(Down1(w), 0x0010) == One(w, 0x0020)
    ensures One(Down1(w), 0x0020) == One(w, 0x0040)
    ensures One(Down1(w), 0x0040) == One(w, 0x0080)
    ensures One(Down1(w), 0x0080) == One(w, 0x0100)
    ensures One(Down1(w), 0x0100) == One(w, 0x0200)
    ensures One(Down1(w), 0x0200) == One(w, 0x0400)
    ensures One(Down1(w), 0x0400) == One(w, 0x0800)
    ensures One(Down1(w), 0x0800) == One(w, 0x1000)
    ensures One(Down1(w), 0x1000) == One(w, 0x2000)
    ensures One(Down1(w), 0x2000) == One(w, 0x4000)
    ensures One(Down1(w), 0x4000) == One(w, 0x8000)
    ensures One(Down1(w), 0x8000) == 0
  {
  }

  lemma DivisorOnes(w: Word)
    ensures One(WithDivisor(w), 0x0001) == 1 - One(w, 0x0001)
    ensures One(WithDivisor(w), 0x0002) == One(w, 0x0002)
    ensures One(WithDivisor(w), 0x0004) == One(w, 0x0004)
    ensures One(WithDivisor(w), 0x0008) == One(w, 0x0008)
    ensures One(WithDivisor(w), 0x0010) == One(w, 0x0010)
    ensures One(WithDivisor(w), 0x0020) == One(w, 0x0020)
    ensures One(WithDivisor(w), 0x0040) == One(w, 0x0040)
    ensures One(WithDivisor(w), 0x0080) == One(w, 0x0080)
    ensures One(WithDivisor(w), 0x0100) == One(w, 0x0100)
    ensures One(WithDivisor(w), 0x0200) == One(w, 0x0200)
    ensures One(WithDivisor(w), 0x0400) == One(w, 0x0400)
    ensures One(WithDivisor(w), 0x0800) == One(w, 0x0800)
    ensures One(WithDivisor(w), 0x1000) == One(w, 0x1000)
    ensures One(WithDivisor(w), 0x2000) == 1 - One(w, 0x2000)
    ensures One(WithDivisor(w), 0x4000) == One(w, 0x4000)
    ensures One(WithDivisor(w), 0x8000) == 1 - One(w, 0x8000)
  {
  }

  lemma FlippedOnes(w: Word)
    ensures One(Xor16(w, 1), 0x0001) == 1 - One(w, 0x0001)
    ensures One(Xor16(w, 1), 0x0002) == One(w, 0x0002)
    ensures One(Xor16(w, 1), 0x0004) == One(w, 0x0004)
    ensures One(Xor16(w, 1), 0x0008) == One(w, 0x0008)
    ensures One(Xor16(w, 1), 0x0010) == One(w, 0x0010)
    ensures One(Xor16(w, 1), 0x0020) == One(w, 0x0020)
    ensures One(Xor16(w, 1), 0x0040) == One(w, 0x0040)
    ensures One(Xor16(w, 1), 0x0080) == One(w, 0x0080)
    ensures One(Xor16(w, 1), 0x0100) == One(w, 0x0100)
    ensures One(Xor16(w, 1), 0x0200) == One(w, 0x0200)
    ensures One(Xor16(w, 1), 0x0400) == One(w, 0x0400)
    ensures One(Xor16(w, 1), 0x0800) == One(w, 0x0800)
    ensures One(Xor16(w, 1), 0x1000) == One(w, 0x1000)
    ensures One(Xor16(w, 1), 0x2000) == One(w, 0x2000)
    ensures One(Xor16(w, 1), 0x4000) == One(w, 0x4000)
    ensures One(Xor16(w, 1), 0x8000) == One(w, 0x8000)
  {
  }

  lemma DownWeight(w: Word)
    ensures WordWeight(Down1(w)) == WordWeight(w) - One(w, 0x0001)
  {
    DownOnes(w);
    hide One, Down1;
  }

  lemma DivisorWeight(w: Word)
    ensures WordWeight(WithDivisor(w)) ==
            WordWeight(w) + 3 - 2 * (One(w, 0x0001) + One(w, 0x2000) + One(w, 0x8000))
  {
    DivisorOnes(w);
    hide One, WithDivisor;
  }

  lemma FlippedWeight(w: Word)
    ensures WordWeight(Xor16(w, 1)) == WordWeight(w) + 1 - 2 * One(w, 0x0001)
  {
    FlippedOnes(w);
    hide One, Xor16;
  }

  predicate LowestSet(w: Word) { w & 1 != 0 }

  lemma DividerParts(w: Word)
    ensures Divider()(w) == if LowestSet(w) then WithDivisor(Down1(w)) else Down1(w)
  {
    StepParts(w);
    hide LowestSet, WithDivisor, Down1, Step16;
  }

  lemma StepParts(w: Word)
    ensures Step16(w, POLY_REFLECTED, true) == if LowestSet(w) then WithDivisor(Down1(w)) else Down1(w)
  {
    OutParts(w);
    ShiftParts(w);
    hide LowestSet, Down1, Out16, Shift16;
  }

  lemma OutParts(w: Word)
    ensures Out16(w, true) == LowestSet(w)
  {
  }

  lemma ShiftParts(w: Word)
    ensures Shift16(w, true) == Down1(w)
  {
  }

  lemma LowestOne(w: Word)
    ensures One(w, 0x0001) == if LowestSet(w) then 1 else 0
  {
  }

  /** A division takes the lowest bit away and joins three in its place, or takes away a zero. */
  lemma DividerKeepsParity(w: Word)
    ensures WordWeight(Divider()(w)) % 2 == WordWeight(w) % 2
  {
    hide *;
    DividerParts(w);
    LowestOne(w);
    DownWeight(w);
    if LowestSet(w) {
      var v := Down1(w);
      DivisorWeight(v);
      var pairs := One(v, 0x0001) + One(v, 0x2000) + One(v, 0x8000);
      assert WordWeight(Divider()(w)) == WordWeight(w) + 2 * (1 - pairs);
    }
  }

  lemma JoinedParity(r: Word, b: bool)
    ensures WordWeight(Joined(r, b)) % 2 == (WordWeight(r) + if b then 1 else 0) % 2
  {
    hide WordWeight, Xor16, One;
    FlippedWeight(r);
    assert WordWeight(Xor16(r, 1)) == WordWeight(r) + 1 + 2 * -One(r, 0x0001);
  }

  lemma ZeroWeight()
    ensures WordWeight(0) == 0
  {
  }

  lemma {:induction false} FeedParity(r: Word, bits: seq<bool>)
    ensures WordWeight(Feed(r, bits)) % 2 == (WordWeight(r) + Weight(bits)) % 2
    decreases |bits|
  {
    hide Divider, Joined, WordWeight;
    if bits != [] {
      var next := Divider()(Joined(r, bits[0]));
      JoinedParity(r, bits[0]);
      DividerKeepsParity(Joined(r, bits[0]));
      FeedParity(next, bits[1..]);
      SameParity(WordWeight(next), WordWeight(r) + if bits[0] then 1 else 0, Weight(bits[1..]));
    }
  }

  lemma SameParity(a: int, b: int, c: int)
    requires a % 2 == b % 2
    ensures (a + c) % 2 == (b + c) % 2
  {
  }

  /** A change of an odd number of bits of a valid message is caught, however long the message and wherever they lie. */
  lemma OddChangeDetected(m: seq<Byte>, n: seq<Byte>)
    requires |m| == |n| && Valid(m)
    requires Weight(XorBits(AllBits(m), AllBits(n))) % 2 == 1
    ensures !Valid(n)
  {
    hide Feed, AllBits, Valid, XorBits, Weight, WordWeight;
    if Valid(n) {
      DifferenceDividesOut(m, n);
      FeedParity(0, XorBits(AllBits(m), AllBits(n)));
      ZeroWeight();
    }
  }
}
