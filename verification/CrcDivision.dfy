/**
 What a CRC is: the remainder of the message, with as many zeros behind it as the register is wide, by the
 polynomial with its leading term; and what the reflections and the starting value make of that.
 */
module CrcDivision {
  import opened Common
  import opened LinearFold
  import opened Crc
  import opened CrcAlgebra
  import opened BitStrings
  import opened WordValues

  // ---------- operations of bytes and words, bit by bit ----------

  lemma Xor8On(a: Byte, b: Byte)
    ensures On8(Xor8(a, b), 0x80) == (On8(a, 0x80) != On8(b, 0x80))
    ensures On8(Xor8(a, b), 0x40) == (On8(a, 0x40) != On8(b, 0x40))
    ensures On8(Xor8(a, b), 0x20) == (On8(a, 0x20) != On8(b, 0x20))
    ensures On8(Xor8(a, b), 0x10) == (On8(a, 0x10) != On8(b, 0x10))
    ensures On8(Xor8(a, b), 0x08) == (On8(a, 0x08) != On8(b, 0x08))
    ensures On8(Xor8(a, b), 0x04) == (On8(a, 0x04) != On8(b, 0x04))
    ensures On8(Xor8(a, b), 0x02) == (On8(a, 0x02) != On8(b, 0x02))
    ensures On8(Xor8(a, b), 0x01) == (On8(a, 0x01) != On8(b, 0x01))
  {
  }

  lemma Shift8On(a: Byte)
    ensures Out8(a, false) == On8(a, 0x80)
    ensures On8(Shift8(a, false), 0x80) == On8(a, 0x40)
    ensures On8(Shift8(a, false), 0x40) == On8(a, 0x20)
    ensures On8(Shift8(a, false), 0x20) == On8(a, 0x10)
    ensures On8(Shift8(a, false), 0x10) == On8(a, 0x08)
    ensures On8(Shift8(a, false), 0x08) == On8(a, 0x04)
    ensures On8(Shift8(a, false), 0x04) == On8(a, 0x02)
    ensures On8(Shift8(a, false), 0x02) == On8(a, 0x01)
    ensures !On8(Shift8(a, false), 0x01)
  {
  }

  lemma Reflect8On(a: Byte)
    ensures On8(Reflect8(a), 0x80) == On8(a, 0x01)
    ensures On8(Reflect8(a), 0x40) == On8(a, 0x02)
    ensures On8(Reflect8(a), 0x20) == On8(a, 0x04)
    ensures On8(Reflect8(a), 0x10) == On8(a, 0x08)
    ensures On8(Reflect8(a), 0x08) == On8(a, 0x10)
    ensures On8(Reflect8(a), 0x04) == On8(a, 0x20)
    ensures On8(Reflect8(a), 0x02) == On8(a, 0x40)
    ensures On8(Reflect8(a), 0x01) == On8(a, 0x80)
  {
  }

  lemma Xor16Halves(a: Word, b: Word)
    ensures Upper(Xor16(a, b)) == Xor8(Upper(a), Upper(b))
    ensures Lower(Xor16(a, b)) == Xor8(Lower(a), Lower(b))
  {
  }

  lemma Out16On(w: Word)
    ensures Out16(w, false) == On8(Upper(w), 0x80)
  {
  }

  /** What goes out of the lower half comes in at the upper half's end. */
  lemma Shift16Halves(w: Word)
    ensures Lower(Shift16(w, false)) == Shift8(Lower(w), false)
    ensures On8(Upper(Shift16(w, false)), 0x01) == On8(Lower(w), 0x80)
    ensures On8(Upper(Shift16(w, false)), 0x80) == On8(Upper(w), 0x40)
    ensures On8(Upper(Shift16(w, false)), 0x40) == On8(Upper(w), 0x20)
    ensures On8(Upper(Shift16(w, false)), 0x20) == On8(Upper(w), 0x10)
    ensures On8(Upper(Shift16(w, false)), 0x10) == On8(Upper(w), 0x08)
    ensures On8(Upper(Shift16(w, false)), 0x08) == On8(Upper(w), 0x04)
    ensures On8(Upper(Shift16(w, false)), 0x04) == On8(Upper(w), 0x02)
    ensures On8(Upper(Shift16(w, false)), 0x02) == On8(Upper(w), 0x01)
  {
  }

  lemma Reflect16Halves(w: Word)
    ensures Upper(Reflect16(w)) == Reflect8(Lower(w)) && Lower(Reflect16(w)) == Reflect8(Upper(w))
  {
  }

  /** A byte joins the upper half. */
  lemma Join16Halves(w: Word, b: Byte)
    ensures Upper(Join16(w, b, false)) == Xor8(Upper(w), b) && Lower(Join16(w, b, false)) == Lower(w)
  {
  }

  // ---------- the same as strings of bits ----------

  lemma Xor8At(a: Byte, b: Byte, k: nat)
    ensures ByteBit(Xor8(a, b), k) == (ByteBit(a, k) != ByteBit(b, k))
  {
    hide On8, Xor8;
    Xor8On(a, b);
  }

  lemma Xor8Bits(a: Byte, b: Byte)
    ensures ByteBits(Xor8(a, b)) == Sum(ByteBits(a), ByteBits(b))
  {
    hide ByteBit, Xor8;
    forall k | 0 <= k < 8 ensures ByteBits(Xor8(a, b))[k] == Sum(ByteBits(a), ByteBits(b))[k] {
      Xor8At(a, b, k);
    }
  }

  lemma Shift8At(a: Byte, k: nat)
    ensures k < 7 ==> ByteBit(Shift8(a, false), k) == ByteBit(a, k + 1)
    ensures k == 7 ==> !ByteBit(Shift8(a, false), k)
    ensures Out8(a, false) == ByteBit(a, 0)
  {
    hide On8, Shift8, Out8;
    Shift8On(a);
  }

  lemma Shift8Bits(a: Byte)
    ensures ByteBits(Shift8(a, false)) == ByteBits(a)[1..] + [false] && Out8(a, false) == ByteBits(a)[0]
  {
    hide ByteBit, Shift8, Out8;
    forall k | 0 <= k < 8 ensures ByteBits(Shift8(a, false))[k] == (ByteBits(a)[1..] + [false])[k] {
      Shift8At(a, k);
    }
    Shift8At(a, 0);
  }

  lemma Xor16Bits(a: Word, b: Word)
    ensures WordBits(Xor16(a, b)) == Sum(WordBits(a), WordBits(b))
  {
    hide ByteBits, Xor16, Xor8, Upper, Lower;
    Xor16Halves(a, b);
    Xor8Bits(Upper(a), Upper(b));
    Xor8Bits(Lower(a), Lower(b));
    SumConcat(ByteBits(Upper(a)), ByteBits(Upper(b)), ByteBits(Lower(a)), ByteBits(Lower(b)));
  }

  lemma Shift16At(w: Word, k: nat)
    ensures k < 7 ==> ByteBit(Upper(Shift16(w, false)), k) == ByteBit(Upper(w), k + 1)
    ensures k == 7 ==> ByteBit(Upper(Shift16(w, false)), k) == ByteBit(Lower(w), 0)
    ensures Out16(w, false) == ByteBit(Upper(w), 0)
    ensures Lower(Shift16(w, false)) == Shift8(Lower(w), false)
  {
    hide On8, Shift16, Shift8, Out16, Upper, Lower;
    Out16On(w);
    Shift16Halves(w);
  }

  lemma Shift16Bits(w: Word)
    ensures WordBits(Shift16(w, false)) == WordBits(w)[1..] + [false] && Out16(w, false) == WordBits(w)[0]
  {
    hide ByteBit, Shift16, Shift8, Out16, Upper, Lower;
    var s := Shift16(w, false);
    Shift16At(w, 0);
    Shift8Bits(Lower(w));
    forall k | 0 <= k < 16 ensures WordBits(s)[k] == (WordBits(w)[1..] + [false])[k] {
      if k < 8 {
        Shift16At(w, k);
      } else {
        assert WordBits(s)[k] == ByteBits(Lower(s))[k - 8];
      }
    }
  }

  lemma Join16Bits(w: Word, b: Byte)
    ensures WordBits(Join16(w, b, false)) == Sum(WordBits(w), ByteBits(b) + Clear(8))
  {
    hide ByteBits, Join16, Xor8, Upper, Lower;
    Join16Halves(w, b);
    Xor8Bits(Upper(w), b);
    SumClear(ByteBits(Lower(w)));
    SumConcat(ByteBits(Upper(w)), ByteBits(b), ByteBits(Lower(w)), Clear(8));
  }

  function Backwards(bits: BitString): (r: BitString)
    ensures |r| == |bits|
  {
    seq(|bits|, i requires 0 <= i < |bits| => bits[|bits| - 1 - i])
  }

  lemma Reflect8At(a: Byte, k: nat)
    ensures k < 8 ==> ByteBit(Reflect8(a), k) == ByteBit(a, 7 - k)
  {
    hide On8, Reflect8;
    Reflect8On(a);
  }

  /** Reflecting writes the bits backwards. */
  lemma Reflect8Bits(a: Byte)
    ensures ByteBits(Reflect8(a)) == Backwards(ByteBits(a))
  {
    hide ByteBit, Reflect8;
    forall k | 0 <= k < 8 ensures ByteBits(Reflect8(a))[k] == Backwards(ByteBits(a))[k] {
      Reflect8At(a, k);
    }
  }

  lemma BackwardsConcat(a: BitString, b: BitString)
    ensures Backwards(a + b) == Backwards(b) + Backwards(a)
  {
  }

  lemma Reflect16Bits(a: Word)
    ensures WordBits(Reflect16(a)) == Backwards(WordBits(a))
  {
    hide ByteBits, Reflect16, Reflect8, Upper, Lower, Backwards;
    Reflect16Halves(a);
    Reflect8Bits(Lower(a));
    Reflect8Bits(Upper(a));
    BackwardsConcat(ByteBits(Upper(a)), ByteBits(Lower(a)));
  }

  // ---------- the remainder ----------

  lemma Step8Bits(w: Byte, p: Byte)
    ensures ByteBits(Step8(w, p, false)) == Stepped(ByteBits(w), ByteBits(p))
  {
    Step8Xor(w, p);
    hide ByteBits, Step8, Shift8, Out8, Xor8, Sum;
    Shift8Bits(w);
    Xor8Bits(Shift8(w, false), p);
    SumClear(ByteBits(Shift8(w, false)));
  }

  lemma Step8Xor(w: Byte, p: Byte)
    ensures Step8(w, p, false) == if Out8(w, false) then Xor8(Shift8(w, false), p) else Shift8(w, false)
  {
    hide Out8, Shift8;
  }

  lemma Step16Bits(w: Word, p: Word)
    ensures WordBits(Step16(w, p, false)) == Stepped(WordBits(w), WordBits(p))
  {
    Step16Xor(w, p);
    hide WordBits, Step16, Shift16, Out16, Xor16, Sum;
    Shift16Bits(w);
    Xor16Bits(Shift16(w, false), p);
    SumClear(WordBits(Shift16(w, false)));
  }

  lemma Step16Xor(w: Word, p: Word)
    ensures Step16(w, p, false) == if Out16(w, false) then Xor16(Shift16(w, false), p) else Shift16(w, false)
  {
    hide Out16, Shift16;
  }

  lemma {:induction false} Iterate8Bits(w: Byte, p: Byte, n: nat)
    ensures ByteBits(Iterate(Stepper8(p, false), w, n)) == Steps(ByteBits(w), ByteBits(p), n)
    decreases n
  {
    hide ByteBits, Step8, BitStrings.Stepped;
    if n > 0 {
      IterateFirst(Stepper8(p, false), w, n - 1);
      Step8Bits(w, p);
      Iterate8Bits(Step8(w, p, false), p, n - 1);
    }
  }

  lemma {:induction false} Iterate16Bits(w: Word, p: Word, n: nat)
    ensures WordBits(Iterate(Stepper16(p, false), w, n)) == Steps(WordBits(w), WordBits(p), n)
    decreases n
  {
    hide WordBits, Step16, BitStrings.Stepped;
    if n > 0 {
      IterateFirst(Stepper16(p, false), w, n - 1);
      Step16Bits(w, p);
      Iterate16Bits(Step16(w, p, false), p, n - 1);
    }
  }

  /** The register after a message is what taking its bits one by one leaves. */
  lemma {:induction false} Register8Bits(init: Byte, m: seq<Byte>, p: Byte)
    ensures ByteBits(Register(Stepper8(p, false), Joiner8(), init, m))
         == AllTaken(ByteBits(init), ByteBits(p), MessageBits(m))
  {
    hide ByteBits, Stepper8, Iterate, Steps, Xor8, Taken;
    if m != [] {
      var k := |m| - 1;
      var r := Register(Stepper8(p, false), Joiner8(), init, m[..k]);
      Register8Bits(init, m[..k], p);
      JoinedXor8(r, m[k]);
      Xor8Bits(r, m[k]);
      AppendClear(ByteBits(m[k]));
      Iterate8Bits(Xor8(r, m[k]), p, 8);
      JoinedThenStepped(ByteBits(r), ByteBits(p), ByteBits(m[k]));
      AllTakenConcat(ByteBits(init), ByteBits(p), MessageBits(m[..k]), ByteBits(m[k]));
    }
  }

  lemma AppendClear(bits: BitString)
    ensures bits + Clear(0) == bits
  {
  }

  lemma JoinedXor8(r: Byte, b: Byte)
    ensures Joiner8()(r, b) == Xor8(r, b)
  {
  }

  lemma {:induction false} Register16Bits(init: Word, m: seq<Byte>, p: Word)
    ensures WordBits(Register(Stepper16(p, false), Joiner16(false), init, m))
         == AllTaken(WordBits(init), WordBits(p), MessageBits(m))
  {
    hide ByteBits, WordBits, Stepper16, Iterate, Steps, Join16, Taken;
    if m != [] {
      var k := |m| - 1;
      var r := Register(Stepper16(p, false), Joiner16(false), init, m[..k]);
      Register16Bits(init, m[..k], p);
      Join16Bits(r, m[k]);
      Iterate16Bits(Join16(r, m[k], false), p, 8);
      JoinedThenStepped(WordBits(r), WordBits(p), ByteBits(m[k]));
      AllTakenConcat(WordBits(init), WordBits(p), MessageBits(m[..k]), ByteBits(m[k]));
    }
  }

  lemma TakenIsRemainder(start: BitString, u: BitString, p: BitString, r: BitString)
    requires |start| == |p| > 0
    ensures r == AllTaken(start, p, u) <==> exists q :: Divides(Dividend(start, u), [true] + p, q, r)
  {
    var q := TakenDivides(start, u, p);
    hide Divides, AllTaken, Dividend;
    forall q' | Divides(Dividend(start, u), [true] + p, q', r) ensures r == AllTaken(start, p, u) {
      DividesUniquely(Dividend(start, u), [true] + p, q, AllTaken(start, p, u), q', r);
    }
  }

  /**
   A plain CRC-8 is the remainder, by x^8 and the polynomial, of the message with eight zeros behind it, the starting
   value added to its first eight bits; then the final exclusive or is added.
   */
  lemma Crc8IsRemainder(m: seq<Byte>, polynomial: Byte, init: Byte, xorOut: Byte, r: BitString)
    requires |r| == 8
    ensures ByteBits(Crc8(m, polynomial, init, xorOut, false)) == Sum(r, ByteBits(xorOut)) <==>
            exists q :: Divides(Dividend(ByteBits(init), MessageBits(m)), [true] + ByteBits(polynomial), q, r)
  {
    hide ByteBits, Stepper8, AllTaken, Register, Divides, Xor8, Dividend;
    var w := Register(Stepper8(polynomial, false), Joiner8(), init, m);
    Xor8Bits(w, xorOut);
    SumTwice(r, ByteBits(xorOut));
    SumTwice(ByteBits(w), ByteBits(xorOut));
    Register8Bits(init, m, polynomial);
    TakenIsRemainder(ByteBits(init), MessageBits(m), ByteBits(polynomial), r);
  }

  /** And a plain CRC-16 the one by x^16 and the polynomial, with sixteen zeros behind the message. */
  lemma Crc16IsRemainder(m: seq<Byte>, polynomial: Word, init: Word, xorOut: Word, r: BitString)
    requires |r| == 16
    ensures WordBits(Crc16(m, polynomial, init, xorOut, false, false)) == Sum(r, WordBits(xorOut)) <==>
            exists q :: Divides(Dividend(WordBits(init), MessageBits(m)), [true] + WordBits(polynomial), q, r)
  {
    hide ByteBits, WordBits, Stepper16, AllTaken, Register, Divides, Xor16, Dividend;
    var w := Register(Stepper16(polynomial, false), Joiner16(false), init, m);
    Xor16Bits(w, xorOut);
    SumTwice(r, WordBits(xorOut));
    SumTwice(WordBits(w), WordBits(xorOut));
    Register16Bits(init, m, polynomial);
    TakenIsRemainder(WordBits(init), MessageBits(m), WordBits(polynomial), r);
  }

  lemma NothingAdded(u: BitString, n: nat)
    ensures Dividend(Clear(n), u) == u + Clear(n)
  {
  }

  lemma ZeroBits()
    ensures ByteBits(0) == Clear(8)
  {
  }

  lemma ZeroHalves()
    ensures Upper(0) == 0 && Lower(0) == 0
  {
  }

  /** With nothing to start from and nothing to add, it is the remainder of the message with zeros behind it. */
  lemma PlainCrc8IsRemainder(m: seq<Byte>, polynomial: Byte, r: BitString)
    requires |r| == 8
    ensures ByteBits(Crc8(m, polynomial, 0, 0, false)) == r <==>
            exists q :: Divides(MessageBits(m) + Clear(8), [true] + ByteBits(polynomial), q, r)
  {
    hide ByteBits, Crc8, Divides, Dividend;
    ZeroBits();
    NothingAdded(MessageBits(m), 8);
    SumClear(r);
    Crc8IsRemainder(m, polynomial, 0, 0, r);
  }

  lemma PlainCrc16IsRemainder(m: seq<Byte>, polynomial: Word, r: BitString)
    requires |r| == 16
    ensures WordBits(Crc16(m, polynomial, 0, 0, false, false)) == r <==>
            exists q :: Divides(MessageBits(m) + Clear(16), [true] + WordBits(polynomial), q, r)
  {
    ZeroWordBits();
    hide ByteBits, WordBits, Crc16, Divides, Dividend;
    NothingAdded(MessageBits(m), 16);
    SumClear(r);
    Crc16IsRemainder(m, polynomial, 0, 0, r);
  }

  lemma ZeroWordBits()
    ensures WordBits(0) == Clear(16)
  {
    hide ByteBits, Upper, Lower;
    ZeroBits();
    ZeroHalves();
  }

  // ---------- reflection ----------

  function ReflectBytes(m: seq<Byte>): (r: seq<Byte>)
    ensures |r| == |m|
  {
    seq(|m|, i requires 0 <= i < |m| => Reflect8(m[i]))
  }

  lemma OutShift8Reflected(w: Byte)
    ensures Out8(Reflect8(w), true) == Out8(w, false) && Shift8(Reflect8(w), true) == Reflect8(Shift8(w, false))
  {
  }

  lemma Out16Reflected(w: Word)
    ensures Out16(Reflect16(w), true) == Out16(w, false)
  {
  }

  function UpInto(h: Byte, l: Byte): Byte { (h << 1) | (l >> 7) }

  function DownInto(h: Byte, l: Byte): Byte { (l >> 1) | (h << 7) }

  lemma Shift16Parts(w: Word)
    ensures Upper(Shift16(w, false)) == UpInto(Upper(w), Lower(w))
    ensures Lower(Shift16(w, false)) == Shift8(Lower(w), false)
    ensures Lower(Shift16(w, true)) == DownInto(Upper(w), Lower(w))
    ensures Upper(Shift16(w, true)) == Shift8(Upper(w), true)
  {
  }

  lemma IntoReflected(h: Byte, l: Byte)
    ensures Reflect8(UpInto(h, l)) == DownInto(Reflect8(l), Reflect8(h))
  {
  }

  lemma SameHalves(a: Word, b: Word)
    requires Upper(a) == Upper(b) && Lower(a) == Lower(b)
    ensures a == b
  {
    Halves(a);
    Halves(b);
    hide Upper, Lower, BothBytes;
  }

  lemma Shift16Reflected(w: Word)
    ensures Shift16(Reflect16(w), true) == Reflect16(Shift16(w, false))
  {
    hide Shift16, Shift8, Reflect16, Reflect8, Upper, Lower, UpInto, DownInto;
    Shift16Parts(w);
    Shift16Parts(Reflect16(w));
    Reflect16Halves(w);
    Reflect16Halves(Shift16(w, false));
    IntoReflected(Upper(w), Lower(w));
    OutShift8Reflected(Lower(w));
    SameHalves(Shift16(Reflect16(w), true), Reflect16(Shift16(w, false)));
  }

  lemma Join16Reflected(w: Word, b: Byte)
    ensures Join16(Reflect16(w), Reflect8(b), true) == Reflect16(Join16(w, b, false))
  {
  }

  lemma Reflect8Xor(a: Byte, b: Byte)
    ensures Reflect8(Xor8(a, b)) == Xor8(Reflect8(a), Reflect8(b))
  {
  }

  lemma Reflect8Involution(a: Byte)
    ensures Reflect8(Reflect8(a)) == a
  {
  }

  lemma Step8Reflected(w: Byte, p: Byte)
    ensures Step8(Reflect8(w), Reflect8(p), true) == Reflect8(Step8(w, p, false))
  {
    Step8Xor(w, p);
    Step8XorReflected(Reflect8(w), Reflect8(p));
    hide Step8, Out8, Shift8, Xor8, Reflect8;
    OutShift8Reflected(w);
    Reflect8Xor(Shift8(w, false), p);
  }

  lemma Step8XorReflected(w: Byte, p: Byte)
    ensures Step8(w, p, true) == if Out8(w, true) then Xor8(Shift8(w, true), p) else Shift8(w, true)
  {
    hide Out8, Shift8;
  }

  lemma Step16Reflected(w: Word, p: Word)
    ensures Step16(Reflect16(w), Reflect16(p), true) == Reflect16(Step16(w, p, false))
  {
    Step16Xor(w, p);
    Step16XorReflected(Reflect16(w), Reflect16(p));
    hide Step16, Out16, Shift16, Xor16, Reflect16;
    Out16Reflected(w);
    Shift16Reflected(w);
    Reflect16Xor(Shift16(w, false), p);
  }

  lemma Step16XorReflected(w: Word, p: Word)
    ensures Step16(w, p, true) == if Out16(w, true) then Xor16(Shift16(w, true), p) else Shift16(w, true)
  {
    hide Out16, Shift16;
  }

  /** The reflected register is the reflection of the plain one over reflected bytes. */
  lemma {:induction false} Register8Reflected(init: Byte, m: seq<Byte>, p: Byte)
    ensures Register(Stepper8(Reflect8(p), true), Joiner8(), init, m)
         == Reflect8(Register(Stepper8(p, false), Joiner8(), Reflect8(init), ReflectBytes(m)))
  {
    hide Reflect8, Step8, Iterate, Xor8;
    if m == [] {
      Reflect8Involution(init);
    } else {
      var k := |m| - 1;
      Register8Reflected(init, m[..k], p);
      assert ReflectBytes(m)[..k] == ReflectBytes(m[..k]);
      var r := Register(Stepper8(p, false), Joiner8(), Reflect8(init), ReflectBytes(m[..k]));
      JoinedXor8(r, Reflect8(m[k]));
      JoinedXor8(Reflect8(r), m[k]);
      Reflect8Xor(r, Reflect8(m[k]));
      Reflect8Involution(m[k]);
      Iterate8Reflected(Xor8(r, Reflect8(m[k])), p, 8);
    }
  }

  lemma {:induction false} Iterate8Reflected(w: Byte, p: Byte, n: nat)
    ensures Iterate(Stepper8(Reflect8(p), true), Reflect8(w), n) == Reflect8(Iterate(Stepper8(p, false), w, n))
  {
    hide Reflect8, Step8;
    if n > 0 {
      Iterate8Reflected(w, p, n - 1);
      Step8Reflected(Iterate(Stepper8(p, false), w, n - 1), p);
    }
  }

  lemma {:induction false} Register16Reflected(init: Word, m: seq<Byte>, p: Word)
    ensures Register(Stepper16(Reflect16(p), true), Joiner16(true), init, m)
         == Reflect16(Register(Stepper16(p, false), Joiner16(false), Reflect16(init), ReflectBytes(m)))
  {
    hide Reflect16, Reflect8, Step16, Iterate, Join16;
    if m == [] {
      Reflect16Involution(init);
    } else {
      var k := |m| - 1;
      Register16Reflected(init, m[..k], p);
      assert ReflectBytes(m)[..k] == ReflectBytes(m[..k]);
      var r := Register(Stepper16(p, false), Joiner16(false), Reflect16(init), ReflectBytes(m[..k]));
      Join16Reflected(r, Reflect8(m[k]));
      Reflect8Involution(m[k]);
      Iterate16Reflected(Join16(r, Reflect8(m[k]), false), p, 8);
    }
  }

  lemma {:induction false} Iterate16Reflected(w: Word, p: Word, n: nat)
    ensures Iterate(Stepper16(Reflect16(p), true), Reflect16(w), n) == Reflect16(Iterate(Stepper16(p, false), w, n))
  {
    hide Reflect16, Step16;
    if n > 0 {
      Iterate16Reflected(w, p, n - 1);
      Step16Reflected(Iterate(Stepper16(p, false), w, n - 1), p);
    }
  }

  /** A reflected CRC-8 is the plain one seen in a mirror: bytes, starting value, result and final exclusive or. */
  lemma Crc8Reflected(m: seq<Byte>, polynomial: Byte, init: Byte, xorOut: Byte)
    ensures Crc8(m, polynomial, init, xorOut, true)
         == Reflect8(Crc8(ReflectBytes(m), polynomial, Reflect8(init), Reflect8(xorOut), false))
  {
    hide Reflect8, Register, Xor8, Stepper8;
    Register8Reflected(init, m, polynomial);
    Reflect8Xor(Register(Stepper8(polynomial, false), Joiner8(), Reflect8(init), ReflectBytes(m)), Reflect8(xorOut));
    Reflect8Involution(xorOut);
  }

  /** So is a CRC-16 reflected in and out. */
  lemma Crc16Reflected(m: seq<Byte>, polynomial: Word, init: Word, xorOut: Word)
    ensures Crc16(m, polynomial, init, xorOut, true, true)
         == Reflect16(Crc16(ReflectBytes(m), polynomial, Reflect16(init), Reflect16(xorOut), false, false))
  {
    hide Reflect16, Register, Xor16, Stepper16, ReflectBytes;
    Register16Reflected(init, m, polynomial);
    var r := Register(Stepper16(polynomial, false), Joiner16(false), Reflect16(init), ReflectBytes(m));
    Reflect16Xor(r, Reflect16(xorOut));
    Reflect16Involution(xorOut);
  }

  /** Reflected in alone, it is the plain one of the reflected bytes. */
  lemma Crc16ReflectedIn(m: seq<Byte>, polynomial: Word, init: Word, xorOut: Word)
    ensures Crc16(m, polynomial, init, xorOut, true, false)
         == Crc16(ReflectBytes(m), polynomial, Reflect16(init), xorOut, false, false)
  {
    hide Reflect16, Register, Xor16, Stepper16, ReflectBytes;
    Register16Reflected(init, m, polynomial);
    Reflect16Involution(Register(Stepper16(polynomial, false), Joiner16(false), Reflect16(init), ReflectBytes(m)));
  }

  /** Reflected out alone, it is the plain one reflected. */
  lemma Crc16ReflectedOut(m: seq<Byte>, polynomial: Word, init: Word, xorOut: Word)
    ensures Crc16(m, polynomial, init, xorOut, false, true)
         == Reflect16(Crc16(m, polynomial, init, Reflect16(xorOut), false, false))
  {
    hide Reflect16, Register, Xor16, Stepper16;
    Reflect16Xor(Register(Stepper16(polynomial, false), Joiner16(false), init, m), Reflect16(xorOut));
    Reflect16Involution(xorOut);
  }
}
