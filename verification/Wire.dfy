// The UDP datagram: two overlapping eight-byte header fields and the payload.
module Wire {
  import opened Bytes

  datatype Datagram = Datagram(seqNum: nat, size: nat, payload: seq<byte>)

  /** The message after the three copies of the send loop into a buffer that held `stale`:
      offset at 0, size at 4, payload at 8, each header field eight bytes wide. */
  function Encode(stale: seq<byte>, seqNum: uint64, payload: seq<byte>): (msg: seq<byte>)
    requires |stale| >= 12 && 8 + |payload| <= |stale| && |payload| < TWO_32
  {
    var withSeq := Overwrite(stale, 0, Store64(SwapBytes(seqNum)));
    var withSize := Overwrite(withSeq, 4, Store64(SwapBytes(|payload|)));
    Overwrite(withSize, 8, payload)
  }

  /** What the receive loop reads out of a message. */
  function Decode(msg: seq<byte>): (dg: Datagram)
    requires |msg| >= 12
  {
    var seqNum := SwapBytes(Load64(msg[0..8]));
    var size := SwapBytes(Load64(msg[4..12]));
    Datagram(seqNum, size, msg[8..if 8 + size <= |msg| then 8 + size else |msg|])
  }

  /** What is left of two eight-byte fields stored four bytes apart under a payload at 8. */
  lemma OverlappingStores(stale: seq<byte>, first: seq<byte>, second: seq<byte>, payload: seq<byte>)
    requires |stale| >= 12 && 8 + |payload| <= |stale| && |first| == |second| == 8
    ensures var msg := Overwrite(Overwrite(Overwrite(stale, 0, first), 4, second), 8, payload);
      msg[0..8][..4] == first[..4] && msg[4..12][..4] == second[..4] && msg[8..8 + |payload|] == payload
  {
    var one := Overwrite(stale, 0, first);
    var two := Overwrite(one, 4, second);
    var msg := Overwrite(two, 8, payload);
    hide Overwrite;
    forall k | 0 <= k < 4 ensures msg[k] == first[k] && msg[4 + k] == second[k] {
      assert two[4 + k] == second[k] && one[k] == first[k];
    }
  }

  /** Whatever the reused buffer held, a message decodes to its payload, its size and its
      offset modulo 2^32; the offset itself survives exactly when it is below 2^32. */
  lemma HeaderRoundTrip(stale: seq<byte>, seqNum: uint64, payload: seq<byte>)
    requires |stale| >= 12 && 8 + |payload| <= |stale| && |payload| < TWO_32
    ensures Decode(Encode(stale, seqNum, payload)) == Datagram(seqNum % TWO_32, |payload|, payload)
    ensures Decode(Encode(stale, seqNum, payload)).seqNum == seqNum <==> seqNum < TWO_32
  {
    hide SwapBytes, Store64, Load64, Overwrite;
    var msg := Encode(stale, seqNum, payload);
    OverlappingStores(stale, Store64(SwapBytes(seqNum)), Store64(SwapBytes(|payload|)), payload);
    StoreLow(SwapBytes(seqNum));
    StoreLow(SwapBytes(|payload|));
    FieldRoundTrip(msg[0..8], seqNum);
    FieldRoundTrip(msg[4..12], |payload|);
  }

  /** On the wire both header fields are in network order, four bytes each: the second store has
      overwritten the upper half of the first, and the payload that of the second. */
  lemma HeaderBytes(stale: seq<byte>, seqNum: uint64, payload: seq<byte>)
    requires |stale| >= 12 && 8 + |payload| <= |stale| && |payload| < TWO_32
    ensures var msg := Encode(stale, seqNum, payload);
      && BigEndian(msg[0..4], seqNum) && BigEndian(msg[4..8], |payload|)
      && msg[8..8 + |payload|] == payload
  {
    hide BigEndian, SwapBytes, Store64, Overwrite;
    var msg := Encode(stale, seqNum, payload);
    OverlappingStores(stale, Store64(SwapBytes(seqNum)), Store64(SwapBytes(|payload|)), payload);
    WideNetworkOrder(seqNum);
    WideNetworkOrder(|payload|);
    assert msg[0..4] == msg[0..8][..4] && msg[4..8] == msg[4..12][..4];
  }

  /** The fill of the message buffer in sendUdp, in place. */
  method FillMessage(msg: array<byte>, sendPtr: uint64, payload: seq<byte>)
    requires msg.Length >= 12 && 8 + |payload| <= msg.Length && |payload| < TWO_32
    modifies msg
    ensures msg[..] == Encode(old(msg[..]), sendPtr, payload)
    ensures BigEndian(msg[0..4], sendPtr) && BigEndian(msg[4..8], |payload|) && msg[8..8 + |payload|] == payload
    ensures Decode(msg[..]) == Datagram(sendPtr % TWO_32, |payload|, payload)
  {
    hide BigEndian, SwapBytes, Store64, Decode, Overwrite;
    ghost var stale := msg[..];
    Memcpy(msg, 0, Store64(SwapBytes(sendPtr)));
    Memcpy(msg, 4, Store64(SwapBytes(|payload|)));
    Memcpy(msg, 8, payload);
    HeaderRoundTrip(stale, sendPtr, payload);
    HeaderBytes(stale, sendPtr, payload);
  }
}
