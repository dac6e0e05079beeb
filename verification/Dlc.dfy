/** The CAN data length code table, and the two directions across it. */
module Dlc {
  import opened Common

  /** Data length code to byte count on CAN FD; below 9 the code is the length. */
  const FD_DLC_LEN: seq<nat> := [0, 1, 2, 3, 4, 5, 6, 7, 8, 12, 16, 20, 24, 32, 48, 64]

  /** Only the low nibble of a code counts; classic CAN caps at 8 bytes however it is encoded. */
  function DlcToLen(dlc: nat, isFd: bool): nat {
    var code := dlc % 16;
    if code <= 8 then code else if isFd then FD_DLC_LEN[code] else 8
  }

  /** The first entry at or past `from` that holds `len` bytes; 15 when none does. */
  function FirstHolding(len: nat, from: nat): (code: nat)
    requires from < 16
    ensures from <= code < 16
    decreases 16 - from
  {
    if FD_DLC_LEN[from] >= len || from == 15 then from else FirstHolding(len, from + 1)
  }

  function LenToDlc(len: nat): (code: nat)
    ensures code < 16
  {
    if len <= 8 then len else FirstHolding(len, 0)
  }

  function PayloadLimit(isFd: bool): nat { if isFd then 64 else 8 }

  function PayloadDlc(len: nat, isFd: bool): (code: nat)
    ensures code < 16
  {
    LenToDlc(Min(len, PayloadLimit(isFd)))
  }

  function Padding(n: nat): (z: seq<Octet>)
    ensures |z| == n
  {
    seq(n, _ => 0)
  }

  /** As much of the payload as fits in `len` bytes, zero-padded up to it. */
  function Padded(data: seq<Octet>, len: nat): (r: seq<Octet>)
    ensures |r| == len
    ensures forall i :: 0 <= i < len ==> r[i] == if i < |data| then data[i] else 0
  {
    var take := Min(len, |data|);
    data[..take] + Padding(len - take)
  }

  // ---------- what the two directions promise each other ----------

  lemma LengthsAscend(i: nat, j: nat)
    requires i < j < 16
    ensures DlcToLen(i, true) < DlcToLen(j, true)
  {
  }

  lemma TableLength(code: nat)
    requires code < 16
    ensures DlcToLen(code, true) == FD_DLC_LEN[code] && (code <= 8 ==> DlcToLen(code, true) == code)
    ensures code > 8 ==> DlcToLen(code, true) > 8
  {
  }

  lemma {:induction false} FirstHoldingSmallest(len: nat, from: nat, code: nat)
    requires from < 16 && from <= code < 16 && len <= 64
    ensures FD_DLC_LEN[FirstHolding(len, from)] >= len
    ensures code < FirstHolding(len, from) ==> FD_DLC_LEN[code] < len
    decreases 16 - from
  {
    if FD_DLC_LEN[from] < len {
      FirstHoldingSmallest(len, from + 1, if code == from then code + 1 else code);
    }
  }

  /** `LenToDlc` is the smallest code that carries the payload. */
  lemma LenToDlcSmallest(len: nat, code: nat)
    requires len <= 64 && code < 16
    ensures DlcToLen(LenToDlc(len), true) >= len
    ensures code < LenToDlc(len) <==> DlcToLen(code, true) < len
  {
    hide DlcToLen, FD_DLC_LEN;
    var least := LenToDlc(len);
    TableLength(least);
    TableLength(code);
    if len > 8 {
      FirstHoldingSmallest(len, 0, code);
    }
    if least < code {
      LengthsAscend(least, code);
    }
  }

  /** Every code comes back from the length it names. */
  lemma CodeRoundTrip(code: nat)
    requires code < 16
    ensures LenToDlc(DlcToLen(code, true)) == code
  {
    var len := DlcToLen(code, true);
    LenToDlcSmallest(len, code);
    if LenToDlc(len) < code {
      LengthsAscend(LenToDlc(len), code);
    }
  }

  /** A frame's code holds as much of the payload as the frame type can carry. */
  lemma PayloadFits(len: nat, isFd: bool)
    ensures var carried := DlcToLen(PayloadDlc(len, isFd), isFd);
            && carried == DlcToLen(PayloadDlc(len, isFd), true)
            && Min(len, PayloadLimit(isFd)) <= carried <= PayloadLimit(isFd)
            && (!isFd ==> carried == Min(len, 8))
  {
    if isFd {
      LenToDlcSmallest(Min(len, 64), 15);
    }
  }

  /** The code of a payload names more bytes than it has exactly when no code names its length. */
  lemma CodeLongerIff(len: nat, isFd: bool)
    ensures DlcToLen(PayloadDlc(len, isFd), isFd) > len <==> isFd && len < 64 && len !in FD_DLC_LEN
  {
    hide DlcToLen, LenToDlc;
    PayloadFits(len, isFd);
    TableLength(PayloadDlc(len, isFd));
    if len in FD_DLC_LEN {
      var code :| 0 <= code < 16 && FD_DLC_LEN[code] == len;
      TableLength(code);
      CodeRoundTrip(code);
      TableAtMost64(code);
    }
  }

  lemma TableAtMost64(code: nat)
    requires code < 16
    ensures FD_DLC_LEN[code] <= 64
  {
  }
}
