/**
 Folding bytes into a register of any type, and what the fold inherits from the two
 operations it is made of: joining a byte to the register and one division step.
 When both respect an addition, so does the register of a whole message.
 */
module LinearFold {
  import opened Common

  function Iterate<R>(step: R -> R, r: R, n: nat): R {
    if n == 0 then r else step(Iterate(step, r, n - 1))
  }

  /** The register after `data`: every byte is joined, then divided out a bit at a time. */
  function Register<R>(step: R -> R, join: (R, Byte) -> R, init: R, data: seq<Byte>): R {
    if data == [] then init
    else
      var n := |data| - 1;
      Iterate(step, join(Register(step, join, init, data[..n]), data[n]), 8)
  }

  function XorBytes(m: seq<Byte>, n: seq<Byte>): (r: seq<Byte>)
    requires |m| == |n|
    ensures |r| == |m|
  {
    seq(|m|, i requires 0 <= i < |m| => m[i] ^ n[i])
  }

  function Zeros(n: nat): (z: seq<Byte>)
    ensures |z| == n
  {
    seq(n, _ => 0)
  }

  ghost predicate AdditiveMap<R(!new)>(step: R -> R, add: (R, R) -> R) {
    forall a, b :: step(add(a, b)) == add(step(a), step(b))
  }

  ghost predicate AdditiveJoin<R(!new)>(join: (R, Byte) -> R, add: (R, R) -> R) {
    forall a, b, x, y :: join(add(a, b), x ^ y) == add(join(a, x), join(b, y))
  }

  lemma {:induction false} IterateAdditive<R(!new)>(step: R -> R, add: (R, R) -> R, a: R, b: R, n: nat)
    requires AdditiveMap(step, add)
    ensures Iterate(step, add(a, b), n) == add(Iterate(step, a, n), Iterate(step, b, n))
  {
    if n > 0 {
      IterateAdditive(step, add, a, b, n - 1);
    }
  }

  lemma {:induction false} IterateFirst<R>(step: R -> R, r: R, n: nat)
    ensures Iterate(step, step(r), n) == Iterate(step, r, n + 1)
  {
    if n > 0 {
      IterateFirst(step, r, n - 1);
    }
  }

  lemma {:induction false} RegisterAdditive<R(!new)>(step: R -> R, join: (R, Byte) -> R, add: (R, R) -> R,
                                                     i: R, j: R, m: seq<Byte>, n: seq<Byte>)
    requires AdditiveMap(step, add) && AdditiveJoin(join, add)
    requires |m| == |n|
    ensures Register(step, join, add(i, j), XorBytes(m, n))
         == add(Register(step, join, i, m), Register(step, join, j, n))
  {
    if m != [] {
      var k := |m| - 1;
      assert XorBytes(m, n)[..k] == XorBytes(m[..k], n[..k]);
      RegisterAdditive(step, join, add, i, j, m[..k], n[..k]);
      var a, b := Register(step, join, i, m[..k]), Register(step, join, j, n[..k]);
      IterateAdditive(step, add, join(a, m[k]), join(b, n[k]), 8);
    }
  }

  lemma {:induction false} RegisterConcat<R>(step: R -> R, join: (R, Byte) -> R, init: R, m: seq<Byte>, n: seq<Byte>)
    ensures Register(step, join, init, m + n) == Register(step, join, Register(step, join, init, m), n)
  {
    if n == [] {
      assert m + n == m;
    } else {
      var k := |n| - 1;
      assert (m + n)[..|m + n| - 1] == m + n[..k];
      RegisterConcat(step, join, init, m, n[..k]);
    }
  }

  /** The starting value contributes what a message of zeros would carry it to. */
  lemma RegisterAffine<R(!new)>(step: R -> R, join: (R, Byte) -> R, add: (R, R) -> R, zero: R,
                                init: R, m: seq<Byte>)
    requires AdditiveMap(step, add) && AdditiveJoin(join, add)
    requires add(zero, init) == init
    ensures Register(step, join, init, m)
         == add(Register(step, join, zero, m), Register(step, join, init, Zeros(|m|)))
  {
    hide AdditiveMap, AdditiveJoin, Register;
    assert XorBytes(m, Zeros(|m|)) == m;
    RegisterAdditive(step, join, add, zero, init, m, Zeros(|m|));
  }
}
