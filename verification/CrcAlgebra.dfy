/**
 The CRC register is linear over GF(2), so a starting value, a constant prefix and
 a final exclusive or each contribute one constant to every message of a length.
 */
module CrcAlgebra {
  import opened Common
  import opened Crc
  import opened LinearFold

  // ---------- exclusive or, one law at a time ----------

  lemma Xor8Assoc(a: Byte, b: Byte, c: Byte)
    ensures Xor8(Xor8(a, b), c) == Xor8(a, Xor8(b, c))
  {
  }

  lemma Xor8Zero(a: Byte)
    ensures Xor8(a, 0) == Xor8(0, a) == a
  {
  }

  lemma Xor8Self(a: Byte)
    ensures Xor8(a, a) == 0
  {
  }

  lemma Xor8Comm(a: Byte, b: Byte)
    ensures Xor8(a, b) == Xor8(b, a)
  {
  }

  lemma Xor16Assoc(a: Word, b: Word, c: Word)
    ensures Xor16(Xor16(a, b), c) == Xor16(a, Xor16(b, c))
  {
  }

  lemma Xor16Zero(a: Word)
    ensures Xor16(a, 0) == Xor16(0, a) == a
  {
  }

  lemma Xor16Self(a: Word)
    ensures Xor16(a, a) == 0
  {
  }

  lemma Xor16Comm(a: Word, b: Word)
    ensures Xor16(a, b) == Xor16(b, a)
  {
  }

  /** Equal differences from one value: the other two are the same. */
  lemma Xor16Cancel(a: Word, b: Word, c: Word)
    ensures Xor16(a, b) == c <==> a == Xor16(c, b)
  {
    hide Xor16;
    Xor16Assoc(a, b, b);
    Xor16Assoc(c, b, b);
    Xor16Self(b);
    Xor16Zero(a);
    Xor16Zero(c);
  }

  // ---------- one step of the 8-bit register ----------

  lemma OutShiftXor8(a: Byte, b: Byte, reflect: bool)
    ensures Out8(a ^ b, reflect) == (Out8(a, reflect) != Out8(b, reflect))
    ensures Shift8(a ^ b, reflect) == Shift8(a, reflect) ^ Shift8(b, reflect)
  {
  }

  lemma Step8BothKeep(a: Byte, b: Byte, p: Byte, reflect: bool)
    requires !Out8(a, reflect) && !Out8(b, reflect)
    ensures Step8(a ^ b, p, reflect) == Step8(a, p, reflect) ^ Step8(b, p, reflect)
  {
    OutShiftXor8(a, b, reflect);
    hide Out8, Shift8;
  }

  lemma Step8OneDivides(a: Byte, b: Byte, p: Byte, reflect: bool)
    requires !Out8(a, reflect) && Out8(b, reflect)
    ensures Step8(a ^ b, p, reflect) == Step8(a, p, reflect) ^ Step8(b, p, reflect)
  {
    OutShiftXor8(a, b, reflect);
    hide Out8, Shift8;
  }

  lemma Step8BothDivide(a: Byte, b: Byte, p: Byte, reflect: bool)
    requires Out8(a, reflect) && Out8(b, reflect)
    ensures Step8(a ^ b, p, reflect) == Step8(a, p, reflect) ^ Step8(b, p, reflect)
  {
    OutShiftXor8(a, b, reflect);
    hide Out8, Shift8;
  }

  lemma Step8Linear(a: Byte, b: Byte, p: Byte, reflect: bool)
    ensures Step8(a ^ b, p, reflect) == Step8(a, p, reflect) ^ Step8(b, p, reflect)
  {
    hide *;
    match (Out8(a, reflect), Out8(b, reflect))
    case (false, false) => Step8BothKeep(a, b, p, reflect);
    case (false, true) => Step8OneDivides(a, b, p, reflect);
    case (true, false) => Step8OneDivides(b, a, p, reflect); assert a ^ b == b ^ a;
    case (true, true) => Step8BothDivide(a, b, p, reflect);
  }

  lemma Stepper8Additive(p: Byte, reflect: bool)
    ensures AdditiveMap(Stepper8(p, reflect), Xor8)
  {
    forall a, b ensures Step8(Xor8(a, b), p, reflect) == Xor8(Step8(a, p, reflect), Step8(b, p, reflect)) {
      hide Step8;
      Step8Linear(a, b, p, reflect);
    }
    hide Step8, Xor8;
  }

  lemma Join8Linear(a: Byte, b: Byte, x: Byte, y: Byte)
    ensures (a ^ b) ^ (x ^ y) == (a ^ x) ^ (b ^ y)
  {
  }

  lemma Joiner8Additive()
    ensures AdditiveJoin(Joiner8(), Xor8)
  {
    forall a, b, x, y ensures Joiner8()(Xor8(a, b), x ^ y) == Xor8(Joiner8()(a, x), Joiner8()(b, y)) {
      Join8Linear(a, b, x, y);
    }
    hide Joiner8, Xor8;
  }

  // ---------- one step of the 16-bit register ----------

  lemma OutShiftXor16(a: Word, b: Word, reflect: bool)
    ensures Out16(a ^ b, reflect) == (Out16(a, reflect) != Out16(b, reflect))
    ensures Shift16(a ^ b, reflect) == Shift16(a, reflect) ^ Shift16(b, reflect)
  {
  }

  lemma Step16BothKeep(a: Word, b: Word, p: Word, reflect: bool)
    requires !Out16(a, reflect) && !Out16(b, reflect)
    ensures Step16(a ^ b, p, reflect) == Step16(a, p, reflect) ^ Step16(b, p, reflect)
  {
    OutShiftXor16(a, b, reflect);
    hide Out16, Shift16;
  }

  lemma Step16OneDivides(a: Word, b: Word, p: Word, reflect: bool)
    requires !Out16(a, reflect) && Out16(b, reflect)
    ensures Step16(a ^ b, p, reflect) == Step16(a, p, reflect) ^ Step16(b, p, reflect)
  {
    OutShiftXor16(a, b, reflect);
    hide Out16, Shift16;
  }

  lemma Step16BothDivide(a: Word, b: Word, p: Word, reflect: bool)
    requires Out16(a, reflect) && Out16(b, reflect)
    ensures Step16(a ^ b, p, reflect) == Step16(a, p, reflect) ^ Step16(b, p, reflect)
  {
    OutShiftXor16(a, b, reflect);
    hide Out16, Shift16;
  }

  lemma Step16Linear(a: Word, b: Word, p: Word, reflect: bool)
    ensures Step16(a ^ b, p, reflect) == Step16(a, p, reflect) ^ Step16(b, p, reflect)
  {
    hide *;
    match (Out16(a, reflect), Out16(b, reflect))
    case (false, false) => Step16BothKeep(a, b, p, reflect);
    case (false, true) => Step16OneDivides(a, b, p, reflect);
    case (true, false) => Step16OneDivides(b, a, p, reflect); assert a ^ b == b ^ a;
    case (true, true) => Step16BothDivide(a, b, p, reflect);
  }

  lemma Stepper16Additive(p: Word, reflect: bool)
    ensures AdditiveMap(Stepper16(p, reflect), Xor16)
  {
    forall a, b ensures Step16(Xor16(a, b), p, reflect) == Xor16(Step16(a, p, reflect), Step16(b, p, reflect)) {
      hide Step16;
      Step16Linear(a, b, p, reflect);
    }
    hide Step16, Xor16;
  }

  lemma Join16Linear(a: Word, b: Word, x: Byte, y: Byte, reflect: bool)
    ensures Join16(a ^ b, x ^ y, reflect) == Join16(a, x, reflect) ^ Join16(b, y, reflect)
  {
  }

  lemma Joiner16Additive(reflect: bool)
    ensures AdditiveJoin(Joiner16(reflect), Xor16)
  {
    forall a, b, x, y
      ensures Join16(Xor16(a, b), x ^ y, reflect) == Xor16(Join16(a, x, reflect), Join16(b, y, reflect))
    {
      hide Join16;
      Join16Linear(a, b, x, y, reflect);
    }
    hide Join16, Xor16;
  }

  // ---------- reflection of the finished register ----------

  lemma Reflect16Linear(a: Word, b: Word)
    ensures Reflect16(a ^ b) == Reflect16(a) ^ Reflect16(b)
  {
  }

  lemma Reflect16Involution(a: Word)
    ensures Reflect16(Reflect16(a)) == a
  {
  }

  lemma Reflect16Xor(a: Word, b: Word)
    ensures Reflect16(Xor16(a, b)) == Xor16(Reflect16(a), Reflect16(b))
  {
    hide Reflect16;
    Reflect16Linear(a, b);
  }

  lemma Finish16Xor(a: Word, b: Word, reflectIn: bool, reflectOut: bool)
    ensures Finish16(Xor16(a, b), reflectIn, reflectOut)
         == Xor16(Finish16(a, reflectIn, reflectOut), Finish16(b, reflectIn, reflectOut))
  {
    hide Reflect16, Xor16;
    Reflect16Xor(a, b);
  }

  // ---------- whole messages ----------

  lemma Crc8Affine(m: seq<Byte>, polynomial: Byte, init: Byte, xorOut: Byte, reflect: bool)
    ensures Crc8(m, polynomial, init, xorOut, reflect)
         == Xor8(Xor8(Crc8(m, polynomial, 0, 0, reflect), Crc8(Zeros(|m|), polynomial, init, 0, reflect)), xorOut)
  {
    hide Register, Stepper8, Joiner8, Oriented8, Xor8, AdditiveMap, AdditiveJoin;
    var p := Oriented8(polynomial, reflect);
    Stepper8Additive(p, reflect);
    Joiner8Additive();
    Xor8Zero(init);
    RegisterAffine(Stepper8(p, reflect), Joiner8(), Xor8, 0, init, m);
    Xor8Zero(Register(Stepper8(p, reflect), Joiner8(), 0, m));
    Xor8Zero(Register(Stepper8(p, reflect), Joiner8(), init, Zeros(|m|)));
  }

  lemma Crc16Affine(m: seq<Byte>, polynomial: Word, init: Word, xorOut: Word, reflectIn: bool, reflectOut: bool)
    ensures Crc16(m, polynomial, init, xorOut, reflectIn, reflectOut)
         == Xor16(Xor16(Crc16(m, polynomial, 0, 0, reflectIn, reflectOut),
                        Crc16(Zeros(|m|), polynomial, init, 0, reflectIn, reflectOut)), xorOut)
  {
    hide Register, Stepper16, Joiner16, Oriented16, Finish16, Xor16, AdditiveMap, AdditiveJoin;
    var p := Oriented16(polynomial, reflectIn);
    Stepper16Additive(p, reflectIn);
    Joiner16Additive(reflectIn);
    Xor16Zero(init);
    RegisterAffine(Stepper16(p, reflectIn), Joiner16(reflectIn), Xor16, 0, init, m);
    var a := Register(Stepper16(p, reflectIn), Joiner16(reflectIn), 0, m);
    var b := Register(Stepper16(p, reflectIn), Joiner16(reflectIn), init, Zeros(|m|));
    Finish16Xor(a, b, reflectIn, reflectOut);
    Xor16Zero(Finish16(a, reflectIn, reflectOut));
    Xor16Zero(Finish16(b, reflectIn, reflectOut));
  }

  /** A prefix is a starting value: the register it leaves behind. */
  lemma Crc8Prefix(prefix: seq<Byte>, m: seq<Byte>, polynomial: Byte, reflect: bool)
    ensures Crc8(prefix + m, polynomial, 0, 0, reflect)
         == Crc8(m, polynomial, Crc8(prefix, polynomial, 0, 0, reflect), 0, reflect)
  {
    hide Stepper8, Joiner8, Oriented8, Xor8;
    var p := Oriented8(polynomial, reflect);
    RegisterConcat(Stepper8(p, reflect), Joiner8(), 0, prefix, m);
    Xor8Zero(Register(Stepper8(p, reflect), Joiner8(), 0, prefix));
  }
}
