/** Bytes and words as numbers. */
module WordValues {
  import opened Common
  import opened BitStrings

  function WordValue(w: Word): nat { w as nat }

  function ByteValue(b: Byte): nat { b as nat }

  /** Two bytes as a number, the high one first. */
  function PairValue(high: Byte, low: Byte): nat { 256 * ByteValue(high) + ByteValue(low) }

  lemma JoinedRaw(high: Byte, low: Byte)
    ensures WordValue(((high as Word) << 8) | (low as Word)) == 256 * (high as nat) + low as nat
  {
  }

  /** They are worth what they are as a number. */
  lemma JoinedValue(high: Byte, low: Byte)
    ensures WordValue(BothBytes(high, low)) == PairValue(high, low)
  {
    JoinedRaw(high, low);
    hide WordValue;
  }

  lemma ByteBound(b: Byte)
    ensures ByteValue(b) < 256
  {
  }

  lemma SameByte(a: Byte, b: Byte)
    requires ByteValue(a) == ByteValue(b)
    ensures a == b
  {
  }

  lemma Halves(w: Word)
    ensures w == BothBytes(Upper(w), Lower(w))
  {
  }

  /** A word is its upper byte and its lower byte. */
  lemma ValueOfHalves(w: Word)
    ensures WordValue(w) == PairValue(Upper(w), Lower(w))
  {
    hide *;
    Halves(w);
    JoinedValue(Upper(w), Lower(w));
  }

  /** And a number below 65536 is that of one word, and of one pair of bytes. */
  lemma SameWord(a: Word, b: Word)
    requires WordValue(a) == WordValue(b)
    ensures a == b
  {
    hide WordValue, ByteValue, Upper, Lower, BothBytes;
    Halves(a);
    Halves(b);
    ValueOfHalves(a);
    ValueOfHalves(b);
    SamePair(Upper(a), Lower(a), Upper(b), Lower(b));
  }

  lemma SamePair(h: Byte, l: Byte, i: Byte, k: Byte)
    requires PairValue(h, l) == PairValue(i, k)
    ensures h == i && l == k
  {
    hide ByteValue;
    ByteBound(l);
    ByteBound(k);
    SameByte(l, k);
    SameByte(h, i);
  }
}
