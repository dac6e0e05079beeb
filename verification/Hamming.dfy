/** How many bits two payloads differ in. */
module Hamming {
  import opened Common
  import opened Bits

  type Payload = seq<Octet>

  function Xor(a: nat, b: nat): nat
    decreases a + b
  {
    if a == 0 && b == 0 then 0 else 2 * Xor(a / 2, b / 2) + (if a % 2 == b % 2 then 0 else 1)
  }

  function CountOnes(v: nat): nat
    decreases v
  {
    if v == 0 then 0 else CountOnes(v / 2) + v % 2
  }

  function ByteDistance(x: nat, y: nat): nat { CountOnes(Xor(x, y)) }

  /** The differing bits of the bytes both payloads have. */
  function CommonDistance(a: Payload, b: Payload): nat {
    if a == [] || b == [] then 0 else ByteDistance(a[0], b[0]) + CommonDistance(a[1..], b[1..])
  }

  function AbsDiff(m: nat, n: nat): nat { if m < n then n - m else m - n }

  /** Bytes past the shorter payload count as fully different. */
  function Distance(a: Payload, b: Payload): nat {
    CommonDistance(a, b) + AbsDiff(|a|, |b|) * 8
  }

  /** Byte distance, one bit at a time. */
  lemma ByteStep(x: nat, y: nat)
    ensures ByteDistance(x, y) ==
            if x == 0 && y == 0 then 0 else ByteDistance(x / 2, y / 2) + (if x % 2 == y % 2 then 0 else 1)
  {
    if x != 0 || y != 0 {
      var half, low := Xor(x / 2, y / 2), if x % 2 == y % 2 then 0 else 1;
      assert Xor(x, y) / 2 == half && Xor(x, y) % 2 == low;
    }
  }

  // ---------- bit by bit ----------

  /** How many of the low `n` bits differ. */
  function BitsApart(x: nat, y: nat, n: nat): nat {
    if n == 0 then 0 else BitsApart(x, y, n - 1) + (if Bit(x, n - 1) == Bit(y, n - 1) then 0 else 1)
  }

  lemma {:induction false} FromBottom(x: nat, y: nat, n: nat)
    requires n > 0
    ensures BitsApart(x, y, n) == (if x % 2 == y % 2 then 0 else 1) + BitsApart(x / 2, y / 2, n - 1)
  {
    if n > 1 {
      FromBottom(x, y, n - 1);
    } else {
      assert BitsApart(x, y, 0) == 0 && BitsApart(x / 2, y / 2, 0) == 0;
    }
  }

  lemma {:induction false} ByteDistanceIs(x: nat, y: nat, n: nat)
    requires x < Pow2(n) && y < Pow2(n)
    ensures ByteDistance(x, y) == BitsApart(x, y, n)
    decreases n
  {
    hide ByteDistance, BitsApart;
    ByteStep(x, y);
    if n == 0 {
      NoBitsApart(x, y);
    } else {
      FromBottom(x, y, n);
      ByteDistanceIs(x / 2, y / 2, n - 1);
      if x == 0 && y == 0 {
        ByteStep(0, 0);
      }
    }
  }

  lemma NoBitsApart(x: nat, y: nat)
    ensures BitsApart(x, y, 0) == 0
  {
  }

  /** How many bits of the first `m` bytes differ. */
  function AllApart(a: Payload, b: Payload, m: nat): nat
    requires m <= |a| && m <= |b|
  {
    if m == 0 then 0 else AllApart(a, b, m - 1) + BitsApart(a[m - 1], b[m - 1], 8)
  }

  lemma {:induction false} CommonAppend(a: Payload, b: Payload, x: Octet, y: Octet)
    requires |a| == |b|
    ensures CommonDistance(a + [x], b + [y]) == CommonDistance(a, b) + ByteDistance(x, y)
  {
    hide ByteDistance;
    if a == [] {
      assert a + [x] == [x] && b + [y] == [y];
    } else {
      assert (a + [x])[1..] == a[1..] + [x] && (b + [y])[1..] == b[1..] + [y];
      CommonAppend(a[1..], b[1..], x, y);
    }
  }

  lemma {:induction false} CommonIs(a: Payload, b: Payload, m: nat)
    requires m <= |a| && m <= |b|
    ensures CommonDistance(a[..m], b[..m]) == AllApart(a, b, m)
  {
    hide CommonDistance, ByteDistance, BitsApart;
    if m == 0 {
      NothingCommon(a[..m], b[..m]);
    } else {
      CommonIs(a, b, m - 1);
      CommonAppend(a[..m - 1], b[..m - 1], a[m - 1], b[m - 1]);
      assert a[..m] == a[..m - 1] + [a[m - 1]] && b[..m] == b[..m - 1] + [b[m - 1]];
      EightBitsHold();
      ByteDistanceIs(a[m - 1], b[m - 1], 8);
    }
  }

  lemma NothingCommon(a: Payload, b: Payload)
    requires a == [] || b == []
    ensures CommonDistance(a, b) == 0
  {
  }

  lemma EightBitsHold()
    ensures Pow2(8) == 256
  {
  }

  lemma {:induction false} OnlyCommonCounts(a: Payload, b: Payload)
    ensures var m := Min(|a|, |b|); CommonDistance(a, b) == CommonDistance(a[..m], b[..m])
  {
    hide ByteDistance;
    if a != [] && b != [] {
      OnlyCommonCounts(a[1..], b[1..]);
      var m := Min(|a|, |b|);
      assert a[..m][1..] == a[1..][..m - 1] && b[..m][1..] == b[1..][..m - 1];
    }
  }

  /** The distance is the number of bits in which the bytes both have differ, and eight for each byte that one lacks. */
  lemma DistanceIs(a: Payload, b: Payload)
    ensures Distance(a, b) == if |a| <= |b| then AllApart(a, b, |a|) + 8 * (|b| - |a|)
                              else AllApart(a, b, |b|) + 8 * (|a| - |b|)
  {
    hide CommonDistance, AllApart;
    OnlyCommonCounts(a, b);
    CommonIs(a, b, Min(|a|, |b|));
  }

  // ---------- one byte ----------

  lemma {:induction false} ByteTriangle(x: nat, y: nat, z: nat)
    ensures ByteDistance(x, z) <= ByteDistance(x, y) + ByteDistance(y, z)
    decreases x + y + z
  {
    hide ByteDistance;
    ByteStep(x, y);
    ByteStep(y, z);
    ByteStep(x, z);
    if x + y + z > 0 {
      ByteTriangle(x / 2, y / 2, z / 2);
      ByteStep(0, 0);
    }
  }

  lemma {:induction false} ByteSymmetric(x: nat, y: nat)
    ensures ByteDistance(x, y) == ByteDistance(y, x)
    decreases x + y
  {
    hide ByteDistance;
    ByteStep(x, y);
    ByteStep(y, x);
    if x + y > 0 {
      ByteSymmetric(x / 2, y / 2);
    }
  }

  lemma {:induction false} ByteZeroIff(x: nat, y: nat)
    ensures ByteDistance(x, y) == 0 <==> x == y
    decreases x + y
  {
    hide ByteDistance;
    ByteStep(x, y);
    if x + y > 0 {
      ByteZeroIff(x / 2, y / 2);
    }
  }

  lemma {:induction false} ByteAtMost(x: nat, y: nat, n: nat, limit: nat)
    requires x < limit && y < limit && limit == Pow2(n)
    ensures ByteDistance(x, y) <= n
    decreases n
  {
    hide ByteDistance;
    ByteStep(x, y);
    if n > 0 {
      ByteAtMost(x / 2, y / 2, n - 1, Pow2(n - 1));
    }
  }

  lemma EightBits(x: Octet, y: Octet)
    ensures ByteDistance(x, y) <= 8
  {
    assert Pow2(4) == 16 && Pow2(8) == 256;
    ByteAtMost(x, y, 8, 256);
  }

  // ---------- whole payloads ----------

  lemma DistanceStep(a: Payload, b: Payload)
    ensures a != [] && b != [] ==> Distance(a, b) == ByteDistance(a[0], b[0]) + Distance(a[1..], b[1..])
    ensures a == [] ==> Distance(a, b) == 8 * |b|
    ensures b == [] ==> Distance(a, b) == 8 * |a|
  {
    hide ByteDistance;
  }

  lemma {:induction false} DistanceAtMost(a: Payload, b: Payload)
    ensures Distance(a, b) <= 8 * |a| + 8 * |b|
  {
    hide ByteDistance, Distance;
    DistanceStep(a, b);
    if a != [] && b != [] {
      EightBits(a[0], b[0]);
      DistanceAtMost(a[1..], b[1..]);
    }
  }

  lemma {:induction false} LongerIsFarther(a: Payload, b: Payload)
    ensures 8 * |a| <= Distance(a, b) + 8 * |b|
    ensures 8 * |b| <= Distance(a, b) + 8 * |a|
  {
    hide ByteDistance, Distance;
    DistanceStep(a, b);
    if a != [] && b != [] {
      LongerIsFarther(a[1..], b[1..]);
    }
  }

  /** The distance is a metric: going by way of a third payload is no shorter. */
  lemma {:induction false} Triangle(a: Payload, b: Payload, c: Payload)
    ensures Distance(a, c) <= Distance(a, b) + Distance(b, c)
    decreases |a| + |b| + |c|
  {
    hide ByteDistance, Distance;
    DistanceStep(a, b);
    DistanceStep(b, c);
    DistanceStep(a, c);
    if a == [] || c == [] {
      LongerIsFarther(b, c);
      LongerIsFarther(a, b);
    } else if b == [] {
      DistanceAtMost(a, c);
    } else {
      ByteTriangle(a[0], b[0], c[0]);
      Triangle(a[1..], b[1..], c[1..]);
    }
  }

  lemma {:induction false} Symmetric(a: Payload, b: Payload)
    ensures Distance(a, b) == Distance(b, a)
  {
    hide ByteDistance, Distance;
    DistanceStep(a, b);
    DistanceStep(b, a);
    if a != [] && b != [] {
      ByteSymmetric(a[0], b[0]);
      Symmetric(a[1..], b[1..]);
    }
  }

  lemma {:induction false} ZeroIff(a: Payload, b: Payload)
    ensures Distance(a, b) == 0 <==> a == b
  {
    hide ByteDistance, Distance;
    DistanceStep(a, b);
    if a != [] && b != [] {
      ByteZeroIff(a[0], b[0]);
      ZeroIff(a[1..], b[1..]);
      assert a == [a[0]] + a[1..] && b == [b[0]] + b[1..];
    }
  }
}
