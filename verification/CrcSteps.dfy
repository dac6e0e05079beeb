/** The Modbus checksum of given bytes, worked out a bit at a time. */
module CrcSteps {
  import opened Common
  import opened LinearFold
  import opened ModbusCrc

  /** One division of the register. */
  function Divided(crc: Word): Word {
    if crc & 1 != 0 then (crc >> 1) ^ POLY_REFLECTED else crc >> 1
  }

  /** The register after one more byte, worked out a bit at a time. */
  function Stepped(crc: Word, byte: Byte): Word {
    Divided(Divided(Divided(Divided(Divided(Divided(Divided(Divided(crc ^ (byte as Word)))))))))
  }

  lemma DividedIs(crc: Word)
    ensures Divider()(crc) == Divided(crc)
  {
  }

  lemma EightTimes(crc: Word)
    ensures Iterate(Divider(), crc, 8) ==
            Divided(Divided(Divided(Divided(Divided(Divided(Divided(Divided(crc))))))))
  {
    hide Divided, Divider;
    forall c ensures Divider()(c) == Divided(c) {
      DividedIs(c);
    }
    assert Iterate(Divider(), crc, 4) == Divided(Divided(Divided(Divided(crc))));
  }

  lemma SteppedIs(crc: Word, byte: Byte)
    ensures TableStep(crc, byte) == Stepped(crc, byte)
  {
    TableStepIsDivision(crc, byte);
    EightTimes(crc ^ (byte as Word));
    hide Divided, Divider, Iterate, TableStep;
  }

  /** The checksum after one more byte. */
  lemma OneMore(data: seq<Byte>, byte: Byte, before: Word, after: Word)
    requires Checksum(data) == before && Stepped(before, byte) == after
    ensures Checksum(data + [byte]) == after
  {
    hide Stepped, TableStep;
    SteppedIs(before, byte);
    assert (data + [byte])[..|data|] == data;
  }

  /** The checksums of a sequence's first `n` bytes are the given ones, for every `n` up to its length. */
  predicate Steps(data: seq<Byte>, values: seq<Word>) {
    |values| == |data| + 1 && values[0] == 0xFFFF &&
    forall i :: 0 <= i < |data| ==> Stepped(values[i], data[i]) == values[i + 1]
  }

  lemma {:induction false} StepsAre(data: seq<Byte>, values: seq<Word>, n: nat)
    requires Steps(data, values) && n <= |data|
    ensures Checksum(data[..n]) == values[n]
    decreases n
  {
    hide Stepped, TableStep;
    if n > 0 {
      StepsAre(data, values, n - 1);
      OneMore(data[..n - 1], data[n - 1], values[n - 1], values[n]);
      assert data[..n] == data[..n - 1] + [data[n - 1]];
    }
  }
}
