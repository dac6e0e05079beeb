/** Integers as bits: bit 0 is the least significant, and negative numbers are two's complement. */
module Bits {
  /** Bit `k` of `v`, 0 or 1. */
  function Bit(v: int, k: nat): (b: nat)
    ensures b <= 1
    decreases k
  {
    if k == 0 then v % 2 else Bit(v / 2, k - 1)
  }

  function Pow2(n: nat): (p: nat)
    ensures p > 0
  {
    if n == 0 then 1 else 2 * Pow2(n - 1)
  }

  /** The low `n` bits. */
  function Low(v: int, n: nat): (r: nat)
    ensures r < Pow2(n)
    decreases n
  {
    if n == 0 then 0 else 2 * Low(v / 2, n - 1) + v % 2
  }

  function ShiftRight(v: nat, s: nat): nat
    decreases s
  {
    if s == 0 then v else ShiftRight(v / 2, s - 1)
  }

  function ShiftLeft(v: nat, s: nat): nat
    decreases s
  {
    if s == 0 then v else 2 * ShiftLeft(v, s - 1)
  }

  function And(a: nat, b: nat): nat
    decreases a
  {
    if a == 0 then 0 else 2 * And(a / 2, b / 2) + (if a % 2 == 1 && b % 2 == 1 then 1 else 0)
  }

  function Or(a: nat, b: nat): nat
    decreases a + b
  {
    if a == 0 && b == 0 then 0 else 2 * Or(a / 2, b / 2) + (if a % 2 == 1 || b % 2 == 1 then 1 else 0)
  }

  /** The bits of `a` that `b` does not have. */
  function Without(a: nat, b: nat): nat
    decreases a
  {
    if a == 0 then 0 else 2 * Without(a / 2, b / 2) + (if a % 2 == 1 && b % 2 == 0 then 1 else 0)
  }

  lemma SixteenBits()
    ensures Pow2(16) == 0x1_0000
  {
    assert Pow2(4) == 16 && Pow2(8) == 16 * Pow2(4) && Pow2(12) == 16 * Pow2(8);
  }

  // ---------- what each does to a bit ----------

  lemma {:induction false} BitOfZero(k: nat)
    ensures Bit(0, k) == 0
  {
    if k > 0 {
      BitOfZero(k - 1);
    }
  }

  lemma {:induction false} BitOfAnd(a: nat, b: nat, k: nat)
    ensures Bit(And(a, b), k) == (if Bit(a, k) == 1 && Bit(b, k) == 1 then 1 else 0)
    decreases k
  {
    if a == 0 {
      BitOfZero(k);
    } else if k > 0 {
      BitOfAnd(a / 2, b / 2, k - 1);
    }
  }

  lemma {:induction false} BitOfOr(a: nat, b: nat, k: nat)
    ensures Bit(Or(a, b), k) == (if Bit(a, k) == 1 || Bit(b, k) == 1 then 1 else 0)
    decreases k
  {
    if a == 0 && b == 0 {
      BitOfZero(k);
    } else if k > 0 {
      BitOfOr(a / 2, b / 2, k - 1);
    }
  }

  lemma {:induction false} BitOfWithout(a: nat, b: nat, k: nat)
    ensures Bit(Without(a, b), k) == (if Bit(a, k) == 1 && Bit(b, k) == 0 then 1 else 0)
    decreases k
  {
    if a == 0 {
      BitOfZero(k);
    } else if k > 0 {
      BitOfWithout(a / 2, b / 2, k - 1);
    }
  }

  lemma {:induction false} BitOfLow(v: int, n: nat, k: nat)
    ensures Bit(Low(v, n), k) == (if k < n then Bit(v, k) else 0)
    decreases k
  {
    if n == 0 {
      BitOfZero(k);
    } else if k > 0 {
      BitOfLow(v / 2, n - 1, k - 1);
    }
  }

  lemma {:induction false} BitOfShiftRight(v: nat, s: nat, k: nat)
    ensures Bit(ShiftRight(v, s), k) == Bit(v, k + s)
    decreases s
  {
    if s > 0 {
      BitOfShiftRight(v / 2, s - 1, k);
    }
  }

  lemma {:induction false} BitOfShiftLeft(v: nat, s: nat, k: nat)
    ensures Bit(ShiftLeft(v, s), k) == (if k < s then 0 else Bit(v, k - s))
    decreases s
  {
    if s > 0 {
      var half := ShiftLeft(v, s - 1);
      assert ShiftLeft(v, s) / 2 == half && ShiftLeft(v, s) % 2 == 0;
      if k > 0 {
        BitOfShiftLeft(v, s - 1, k - 1);
        assert Bit(ShiftLeft(v, s), k) == Bit(half, k - 1);
      }
    }
  }

  lemma BitOfOne(k: nat)
    ensures Bit(1, k) == if k == 0 then 1 else 0
  {
    if k > 0 {
      BitOfZero(k - 1);
    }
  }

  lemma {:induction false} BitOfOnes(n: nat, k: nat)
    ensures Bit(Pow2(n) - 1, k) == (if k < n then 1 else 0)
    decreases k
  {
    if n == 0 {
      BitOfZero(k);
    } else {
      OnesHalved(Pow2(n - 1));
      if k > 0 {
        BitOfOnes(n - 1, k - 1);
      }
    }
  }

  lemma OnesHalved(p: nat)
    requires p > 0
    ensures (2 * p - 1) / 2 == p - 1 && (2 * p - 1) % 2 == 1
  {
  }

  /** Numbers with the same bits are the same number. */
  lemma {:induction false} SameBits(a: nat, b: nat)
    requires forall k: nat :: Bit(a, k) == Bit(b, k)
    ensures a == b
    decreases a + b
  {
    if a + b > 0 {
      assert Bit(a, 0) == Bit(b, 0);
      forall k: nat ensures Bit(a / 2, k) == Bit(b / 2, k) {
        assert Bit(a, k + 1) == Bit(b, k + 1);
      }
      SameBits(a / 2, b / 2);
    }
  }

  // ---------- two's complement ----------

  lemma {:induction false} LowOfRange(v: int, n: nat)
    requires 0 <= v + Pow2(n) && v < Pow2(n)
    ensures Low(v, n) == if v >= 0 then v else v + Pow2(n)
    decreases n
  {
    if n > 0 {
      LowOfRange(v / 2, n - 1);
    }
  }

  lemma {:induction false} LowTwice(v: int, n: nat, m: nat)
    requires n <= m
    ensures Low(Low(v, m), n) == Low(v, n)
    decreases n
  {
    if n > 0 {
      var half := Low(v / 2, m - 1);
      assert Low(v, m) / 2 == half && Low(v, m) % 2 == v % 2;
      LowTwice(v / 2, n - 1, m - 1);
    }
  }

  /** The top bit of an `n`-bit number says whether it is in the upper half. */
  lemma {:induction false} TopBit(v: nat, n: nat)
    requires n > 0 && v < Pow2(n)
    ensures Bit(v, n - 1) == 1 <==> v >= Pow2(n - 1)
    decreases n
  {
    if n > 1 {
      TopBit(v / 2, n - 1);
    }
  }

  // ---------- bits in a row ----------

  /** Bits in a row, most significant first, as a number. */
  function FromBits(bits: seq<nat>): int {
    if bits == [] then 0 else 2 * FromBits(bits[..|bits| - 1]) + bits[|bits| - 1]
  }

  lemma {:induction false} FromBitsIs(bits: seq<nat>, v: int)
    requires forall i :: 0 <= i < |bits| ==> bits[i] == Bit(v, |bits| - 1 - i)
    ensures FromBits(bits) == Low(v, |bits|)
  {
    if bits != [] {
      var front := bits[..|bits| - 1];
      forall i | 0 <= i < |front| ensures front[i] == Bit(v / 2, |front| - 1 - i) {
        assert front[i] == bits[i];
      }
      FromBitsIs(front, v / 2);
    }
  }
}
