/** Applying a checksum to a frame: end-relative byte addressing and the stored value. */
module Frame {
  import opened Common
  import opened Crc

  /** A negative index counts from the end and saturates at the first byte. */
  function ResolveByteIndex(index: int, frameLength: nat): nat {
    if index >= 0 then index
    else if -index <= frameLength then frameLength + index
    else 0
  }

  function Clamp(i: nat, limit: nat): nat {
    if i < limit then i else limit
  }

  /** The bytes a checksum covers in a frame of this length, or `None` when the frame is no evidence. */
  function CalculatedRange(frameLength: nat, position: int, byteLength: nat, calcStart: int, calcEnd: int)
    : (r: Option<(nat, nat)>)
    ensures r.Some? ==> r.value.0 < r.value.1 <= frameLength
  {
    if ResolveByteIndex(position, frameLength) + byteLength > frameLength then None
    else
      var start := Clamp(ResolveByteIndex(calcStart, frameLength), frameLength);
      var end := Clamp(ResolveByteIndex(calcEnd, frameLength), frameLength);
      if start < end then Some((start, end)) else None
  }

  /** The stored checksum; 0 when the field would overrun the frame. */
  function ExtractChecksum(data: seq<Byte>, startByte: int, byteLength: nat, bigEndian: bool): Word {
    var start := ResolveByteIndex(startByte, |data|);
    if byteLength == 0 || start + byteLength > |data| then 0
    else if byteLength == 1 then Widen(data[start])
    else if bigEndian then BothBytes(data[start], data[start + 1])
    else BothBytes(data[start + 1], data[start])
  }
}
