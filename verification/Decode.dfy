/** The bit core of decoding: bit-field extraction and the 16-bit word swap. */
module Decode {
  import opened Common
  import opened Bits
  import opened Sequences

  datatype Endianness = Big | Little

  // ---------- extraction ----------

  /** Bit `p` of a byte buffer, counted from the first byte's top bit or from its bottom bit. */
  function BufferBit(bytes: seq<Octet>, endian: Endianness, p: nat): nat
    requires p < 8 * |bytes|
  {
    Bit(bytes[p / 8], if endian.Big? then 7 - p % 8 else p % 8)
  }

  function BufferBits(bytes: seq<Octet>, endian: Endianness): (bits: seq<nat>)
    ensures |bits| == 8 * |bytes|
  {
    seq(8 * |bytes|, p requires 0 <= p < 8 * |bytes| => BufferBit(bytes, endian, p))
  }

  /** The part of a bit range that lies in a buffer of `n` bits. */
  function Field(bits: seq<nat>, startBit: nat, bitLength: nat): seq<nat> {
    var start := Min(startBit, |bits|);
    bits[start..Min(start + bitLength, |bits|)]
  }

  function Reversed(bits: seq<nat>): (r: seq<nat>)
    ensures |r| == |bits|
  {
    if bits == [] then [] else [bits[|bits| - 1]] + Reversed(bits[..|bits| - 1])
  }

  /** Two's complement: a value with its top bit set reads as negative. */
  function Signed(value: int, bitLength: nat, signed: bool): int
    requires bitLength > 0
  {
    if signed && Bit(value, bitLength - 1) == 1 then value - Pow2(bitLength) else value
  }

  /** The raw integer of a bit-field; bits beyond the buffer are not there to count. */
  function Extract(bytes: seq<Octet>, startBit: nat, bitLength: nat, endian: Endianness, signed: bool): int {
    if bitLength == 0 then 0
    else
      var field := Field(BufferBits(bytes, endian), startBit, bitLength);
      Signed(FromBits(if endian.Big? then field else Reversed(field)), bitLength, signed)
  }

  lemma FromBitsAppend(bits: seq<nat>, b: nat)
    ensures FromBits(bits + [b]) == 2 * FromBits(bits) + b
  {
    assert (bits + [b])[..|bits|] == bits;
  }

  lemma ShiftedBit(b: Octet, k: nat)
    requires k < 8
    ensures ShiftRight(b, k) % 2 == Bit(b, k)
  {
    BitOfShiftRight(b, k, 0);
  }

  method ExpandBits(bytes: seq<Octet>, endian: Endianness) returns (bits: seq<nat>)
    ensures bits == BufferBits(bytes, endian)
  {
    bits := [];
    var i := 0;
    while i < |bytes|
      invariant i <= |bytes| && |bits| == 8 * i
      invariant forall p :: 0 <= p < 8 * i ==> bits[p] == BufferBit(bytes, endian, p)
    {
      var b, j := bytes[i], 0;
      while j < 8
        invariant 0 <= j <= 8 && |bits| == 8 * i + j
        invariant forall p :: 0 <= p < 8 * i + j ==> bits[p] == BufferBit(bytes, endian, p)
      {
        var k := if endian.Big? then 7 - j else j;
        ShiftedBit(b, k);
        assert (8 * i + j) / 8 == i && (8 * i + j) % 8 == j;
        bits := bits + [ShiftRight(b, k) % 2];
        j := j + 1;
      }
      i := i + 1;
    }
  }

  method Accumulate(bits: seq<nat>) returns (value: int)
    ensures value == FromBits(bits)
  {
    value := 0;
    var i := 0;
    while i < |bits|
      invariant i <= |bits| && value == FromBits(bits[..i])
    {
      FromBitsAppend(bits[..i], bits[i]);
      assert bits[..i + 1] == bits[..i] + [bits[i]];
      value := 2 * value + bits[i];
      i := i + 1;
    }
    assert bits[..|bits|] == bits;
  }

  method ReverseBits(bits: seq<nat>) returns (r: seq<nat>)
    ensures r == Reversed(bits)
  {
    r := [];
    var i := |bits|;
    assert bits[..i] == bits;
    while i > 0
      invariant 0 <= i <= |bits|
      invariant Reversed(bits) == r + Reversed(bits[..i])
    {
      i := i - 1;
      assert bits[..i + 1][..i] == bits[..i] && bits[..i + 1][i] == bits[i];
      AppendAssociative(r, [bits[i]], Reversed(bits[..i]));
      r := r + [bits[i]];
    }
  }

  method ExtractBits(bytes: seq<Octet>, startBit: nat, bitLength: nat, endian: Endianness, signed: bool)
    returns (value: int)
    ensures value == Extract(bytes, startBit, bitLength, endian, signed)
  {
    hide BufferBits, Reversed, FromBits, Bit, Pow2;
    if bitLength == 0 {
      return 0;
    }
    var bits := ExpandBits(bytes, endian);
    var start := Min(startBit, |bits|);
    var field := bits[start..Min(start + bitLength, |bits|)];
    if endian.Little? {
      field := ReverseBits(field);
    }
    value := Accumulate(field);
    if signed && Bit(value, bitLength - 1) == 1 {
      value := value - Pow2(bitLength);
    }
  }

  /** A field that lies in the buffer is read bit by bit, top bit first, and then signed. */
  lemma ExtractIs(bytes: seq<Octet>, startBit: nat, bitLength: nat, signed: bool, v: int)
    requires 0 < bitLength && startBit + bitLength <= 8 * |bytes|
    requires forall p :: startBit <= p < startBit + bitLength ==>
               BufferBit(bytes, Big, p) == Bit(v, bitLength - 1 - (p - startBit))
    ensures Extract(bytes, startBit, bitLength, Big, signed) == Signed(Low(v, bitLength), bitLength, signed)
  {
    hide Bit, Low, FromBits, BufferBit;
    var field := Field(BufferBits(bytes, Big), startBit, bitLength);
    forall i | 0 <= i < |field| ensures field[i] == Bit(v, |field| - 1 - i) {
      assert field[i] == BufferBit(bytes, Big, startBit + i);
    }
    FromBitsIs(field, v);
  }

  /** Reading the low `n` bits back as signed or unsigned undoes taking them. */
  lemma SignedLow(raw: int, n: nat, signed: bool)
    requires n > 0
    requires if signed then 0 <= raw + Pow2(n - 1) && raw < Pow2(n - 1) else 0 <= raw < Pow2(n)
    ensures Signed(Low(raw, n), n, signed) == raw
  {
    LowOfRange(raw, n);
    TopBit(Low(raw, n), n);
  }

  // ---------- word swap ----------

  function GetOrZero(bytes: seq<Octet>, i: nat): Octet { if i < |bytes| then bytes[i] else 0 }

  function WordCount(bitLength: nat): nat { ((bitLength + 7) / 8 + 1) / 2 }

  /**
   The 16-bit words a signal spans, in the opposite order. Words past the end of the buffer
   read as zero, and what lands there is lost.
   */
  function SwapWords(bytes: seq<Octet>, startBit: nat, bitLength: nat): (r: seq<Octet>)
    ensures |r| == |bytes|
  {
    var first, words := startBit / 8, WordCount(bitLength);
    seq(|bytes|, p requires 0 <= p < |bytes| =>
      if first <= p < first + 2 * words then SwappedByte(bytes, first, words, p) else bytes[p])
  }

  function SwappedByte(bytes: seq<Octet>, first: nat, words: nat, p: nat): Octet
    requires first <= p < first + 2 * words
  {
    GetOrZero(bytes, first + 2 * (words - 1 - (p - first) / 2) + (p - first) % 2)
  }

  /** The two bytes of the `j`-th word from byte `first`. */
  function WordAt(bytes: seq<Octet>, first: nat, j: nat): (Octet, Octet) {
    (GetOrZero(bytes, first + 2 * j), GetOrZero(bytes, first + 2 * j + 1))
  }

  lemma SwappedPair(bytes: seq<Octet>, first: nat, words: nat, i: nat)
    requires i < words
    ensures SwappedByte(bytes, first, words, first + 2 * i) == WordAt(bytes, first, words - 1 - i).0
    ensures SwappedByte(bytes, first, words, first + 2 * i + 1) == WordAt(bytes, first, words - 1 - i).1
  {
    assert (first + 2 * i + 1 - first) / 2 == i;
  }

  method CollectWords(bytes: array<Octet>, first: nat, count: nat) returns (words: seq<(Octet, Octet)>)
    ensures |words| == count
    ensures forall j :: 0 <= j < count ==> words[j] == WordAt(bytes[..], first, count - 1 - j)
  {
    words := [];
    var i := 0;
    while i < count
      invariant 0 <= i <= count && |words| == i
      invariant forall j :: 0 <= j < i ==> words[j] == WordAt(bytes[..], first, i - 1 - j)
    {
      var idx := first + 2 * i;
      var a := if idx < bytes.Length then bytes[idx] else 0;
      var b := if idx + 1 < bytes.Length then bytes[idx + 1] else 0;
      words := [(a, b)] + words;
      i := i + 1;
    }
  }

  method ApplyWordSwap(bytes: array<Octet>, startBit: nat, bitLength: nat)
    modifies bytes
    ensures bytes[..] == SwapWords(old(bytes[..]), startBit, bitLength)
  {
    hide SwappedByte, WordAt;
    var first, count := startBit / 8, WordCount(bitLength);
    ghost var was := bytes[..];
    var words := CollectWords(bytes, first, count);
    var i := 0;
    while i < count
      invariant 0 <= i <= count
      invariant forall p :: 0 <= p < bytes.Length ==>
                  bytes[p] == if first <= p < first + 2 * i then SwappedByte(was, first, count, p) else was[p]
    {
      SwappedPair(was, first, count, i);
      var idx := first + 2 * i;
      if idx < bytes.Length {
        bytes[idx] := words[i].0;
      }
      if idx + 1 < bytes.Length {
        bytes[idx + 1] := words[i].1;
      }
      i := i + 1;
    }
  }
}
