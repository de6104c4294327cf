// NACK frames on the TCP connection: sendNack, and nackHandler with either side's decode.
module Nacks {
  import opened Bytes

  datatype Request = Request(idx: int, seqNum: nat)

  /** Which test a handler uses to tell the two fields apart: the client swaps idx before
      comparing it with the number of parts, the server compares the raw field. */
  datatype Decoder = ClientTest | ServerTest

  /** sizeof(struct sendNACKData). */
  const FRAME_SIZE: nat := 16

  type Frame = b: seq<byte> | |b| == FRAME_SIZE
    witness [0, 0, 0, 0, 0, 0, 0, 0, 0, 0, 0, 0, 0, 0, 0, 0]

  /** The bytes of a struct sendNACKData holding (idx, seqNum); bytes 4..8 are padding. */
  predicate IsFrameOf(frame: Frame, idx: uint32, seqNum: uint64) {
    && frame[0..4] == Store32(SwapBytes(idx))
    && frame[8..16] == Store64(SwapBytes(seqNum))
  }

  /** Both fields go out highest byte first, the offset's upper half as zeros. */
  method SendNack(padding: seq<byte>, idx: uint32, seqNum: uint64) returns (frame: Frame)
    requires |padding| == 4
    ensures BigEndian(frame[0..4], idx) && frame[4..8] == padding
    ensures BigEndian(frame[8..12], seqNum) && frame[12..16] == [0, 0, 0, 0]
    ensures IsFrameOf(frame, idx, seqNum)
  {
    hide SwapBytes, Store32, Store64, BigEndian;
    frame := Store32(SwapBytes(idx)) + padding + Store64(SwapBytes(seqNum));
    NetworkOrder(idx);
    assert frame[0..4] == Store32(SwapBytes(idx)) && frame[4..8] == padding;
    WideNetworkOrder(seqNum);
    assert frame[8..12] == Store64(SwapBytes(seqNum))[..4];
    assert frame[12..16] == Store64(SwapBytes(seqNum))[4..];
  }

  /** Conversion of the decoded field to the handler's `int idx`. */
  function ToInt(x: uint32): (i: int)
    ensures -0x8000_0000 <= i < 0x8000_0000 && (i - x) % TWO_32 == 0
  {
    if x < 0x8000_0000 then x else x - TWO_32
  }

  function DecodeNack(test: Decoder, k: nat, frame: Frame): (r: Request) {
    var rawIdx := Load32(frame[0..4]);
    var idx, seqNum := SwapBytes(rawIdx), SwapBytes(Load64(frame[8..16]));
    var tested := if test == ClientTest then idx else rawIdx;
    if tested < k then Request(ToInt(idx), seqNum) else Request(ToInt(seqNum), idx)
  }

  lemma FrameFields(frame: Frame, idx: uint32, seqNum: uint64)
    requires IsFrameOf(frame, idx, seqNum)
    ensures SwapBytes(Load32(frame[0..4])) == idx && Load32(frame[0..4]) == SwapBytes(idx)
    ensures SwapBytes(Load64(frame[8..16])) == seqNum % TWO_32
  {
    hide SwapBytes, Store32, Store64, Load32, Load64;
    LoadStore32(SwapBytes(idx));
    SwapTwice(idx);
    StoreLow(SwapBytes(seqNum));
    FieldRoundTrip(frame[8..16], seqNum);
  }

  /** The client decodes every NACK of a real part to itself. */
  lemma ClientDecodesNack(k: nat, frame: Frame, idx: uint32, seqNum: uint64)
    requires IsFrameOf(frame, idx, seqNum) && idx < k < 0x8000_0000
    ensures DecodeNack(ClientTest, k, frame) == Request(idx, seqNum % TWO_32)
  {
    hide SwapBytes, Store32, Store64, Load32, Load64;
    FrameFields(frame, idx, seqNum);
  }

  /** It reads the two fields in either order, as long as exactly one can be the number of a part. */
  lemma ClientTellsFieldsApart(k: nat, frame: Frame, swapped: Frame, idx: uint32, seqNum: uint32)
    requires IsFrameOf(frame, idx, seqNum) && IsFrameOf(swapped, seqNum, idx)
    requires idx < k <= seqNum && k < 0x8000_0000
    ensures DecodeNack(ClientTest, k, frame) == DecodeNack(ClientTest, k, swapped) == Request(idx, seqNum)
  {
    hide SwapBytes, Store32, Store64, Load32, Load64;
    FrameFields(frame, idx, seqNum);
    FrameFields(swapped, seqNum, idx);
    Narrowed(idx);
    Narrowed(seqNum);
  }

  /** Either test decodes the sentinel (k + 1, k + 1) to itself. */
  lemma SentinelDecodes(test: Decoder, k: nat, frame: Frame)
    requires k < 0xFF && IsFrameOf(frame, k + 1, k + 1)
    ensures DecodeNack(test, k, frame) == Request(k + 1, k + 1)
  {
    hide SwapBytes, Store32, Store64, Load32, Load64;
    FrameFields(frame, k + 1, k + 1);
    SwappedSmall(k + 1);
    assert SwapBytes(Load64(frame[8..16])) == k + 1;
  }

  /** The server's test swaps the two fields of every NACK but those of part 0 ... */
  lemma ServerDecodesNack(k: nat, frame: Frame, idx: uint32, seqNum: uint32)
    requires IsFrameOf(frame, idx, seqNum) && idx < k <= 0x100
    ensures DecodeNack(ServerTest, k, frame) == if idx == 0 then Request(0, seqNum) else Request(ToInt(seqNum), idx)
  {
    hide SwapBytes, Store32, Store64, Load32, Load64;
    FrameFields(frame, idx, seqNum);
    SwappedSmall(idx);
    assert SwapBytes(Load64(frame[8..16])) == seqNum;
  }

  /** ... so it agrees with the client's exactly on part 0 and on equal fields. */
  lemma ServerTestAgreesIff(k: nat, frame: Frame, idx: uint32, seqNum: uint32)
    requires IsFrameOf(frame, idx, seqNum) && idx < k <= 0x100
    ensures DecodeNack(ServerTest, k, frame) == DecodeNack(ClientTest, k, frame) <==> idx == 0 || idx == seqNum
  {
    hide SwapBytes, Store32, Store64, Load32, Load64;
    ServerDecodesNack(k, frame, idx, seqNum);
    ClientDecodesNack(k, frame, idx, seqNum);
  }

  // ----- the handler loop -----

  datatype Outcome = Outcome(requests: seq<set<nat>>, sendingDone: bool, consumed: nat)

  function NoRequests(k: nat): (requests: seq<set<nat>>)
    ensures |requests| == k && forall i :: 0 <= i < k ==> requests[i] == {}
  {
    if k == 0 then [] else NoRequests(k - 1) + [{}]
  }

  /** The insertion at the end of one handler iteration. */
  function Insert(requests: seq<set<nat>>, fileSize: nat, r: Request): (requests': seq<set<nat>>)
    ensures |requests'| == |requests|
  {
    if 0 <= r.idx < |requests| && r.seqNum < fileSize
    then requests[r.idx := requests[r.idx] + {r.seqNum}]
    else requests
  }

  /** What the handler leaves behind after reading `stream`, from its `consumed`-th frame on. */
  function Handled(test: Decoder, fileSize: nat, stream: seq<Frame>, before: Outcome): (after: Outcome)
    requires before.consumed <= |stream|
    ensures |after.requests| == |before.requests|
    decreases |stream| - before.consumed
  {
    if before.sendingDone || before.consumed == |stream| then before
    else Handled(test, fileSize, stream, HandleOne(test, fileSize, stream[before.consumed], before))
  }

  function HandleOne(test: Decoder, fileSize: nat, frame: Frame, before: Outcome): (after: Outcome)
    ensures |after.requests| == |before.requests| && after.consumed == before.consumed + 1
  {
    var k := |before.requests|;
    var r := DecodeNack(test, k, frame);
    if r.idx > k then Outcome(before.requests, true, before.consumed + 1)
    else Outcome(Insert(before.requests, fileSize, r), false, before.consumed + 1)
  }

  class NackHandler {
    const test: Decoder
    const fileSize: nat
    var missedSeqSender: seq<set<nat>>
    var sendingDone: bool

    constructor (test: Decoder, fileSize: nat, splits: nat)
      ensures this.test == test && this.fileSize == fileSize
      ensures missedSeqSender == NoRequests(splits) && !sendingDone
    {
      this.test, this.fileSize := test, fileSize;
      missedSeqSender, sendingDone := NoRequests(splits), false;
    }

    /** One iteration of the handler's loop, after recv. */
    method HandleFrame(frame: Frame)
      requires !sendingDone
      modifies this
      ensures forall n: nat ::
        Outcome(missedSeqSender, sendingDone, n + 1)
          == HandleOne(test, fileSize, frame, Outcome(old(missedSeqSender), false, n))
    {
      hide DecodeNack;
      var k := |missedSeqSender|;
      var r := DecodeNack(test, k, frame);
      if r.idx > k {
        sendingDone := true;
      } else if 0 <= r.idx < k {
        if r.seqNum < fileSize {
          missedSeqSender := missedSeqSender[r.idx := missedSeqSender[r.idx] + {r.seqNum}];
        }
      }
    }

    /** Reads whole frames until the sentinel, or until no more arrive. */
    method Run(stream: seq<Frame>) returns (consumed: nat)
      modifies this
      ensures Outcome(missedSeqSender, sendingDone, consumed)
           == Handled(test, fileSize, stream, Outcome(old(missedSeqSender), false, 0))
    {
      consumed, sendingDone := 0, false;
      while consumed < |stream| && !sendingDone
        invariant consumed <= |stream|
        invariant Handled(test, fileSize, stream, Outcome(missedSeqSender, sendingDone, consumed))
               == Handled(test, fileSize, stream, Outcome(old(missedSeqSender), false, 0))
        decreases |stream| - consumed
      {
        hide HandleOne;
        HandleFrame(stream[consumed]);
        consumed := consumed + 1;
      }
    }
  }

  // ----- what the handler does to a stream produced by sendNack -----

  /** Frame by frame, `stream` carries the NACKs `nacks` of `k` parts. */
  predicate Carries(stream: seq<Frame>, nacks: seq<Request>, k: nat) {
    && k < 0xFF
    && |stream| >= |nacks|
    && (forall j :: 0 <= j < |nacks| ==> 0 <= nacks[j].idx < k && nacks[j].seqNum < TWO_32)
    && (forall j :: 0 <= j < |nacks| ==> IsFrameOf(stream[j], nacks[j].idx, nacks[j].seqNum))
  }

  predicate ThenSentinel(stream: seq<Frame>, n: nat, k: nat)
    requires k < 0xFF
  {
    n < |stream| && IsFrameOf(stream[n], k + 1, k + 1)
  }

  /** The requests recorded from the NACKs `nacks[from..]`, on top of `requests`. */
  function Inserted(requests: seq<set<nat>>, fileSize: nat, nacks: seq<Request>, from: nat): (r: seq<set<nat>>)
    requires from <= |nacks|
    ensures |r| == |requests|
    decreases |nacks| - from
  {
    if from == |nacks| then requests
    else Inserted(Insert(requests, fileSize, nacks[from]), fileSize, nacks, from + 1)
  }

  lemma {:induction false} InsertedExactly(requests: seq<set<nat>>, fileSize: nat, nacks: seq<Request>, from: nat,
                                           i: nat, x: nat)
    requires from <= |nacks| && i < |requests|
    ensures x in Inserted(requests, fileSize, nacks, from)[i]
       <==> x in requests[i] || (x < fileSize && Request(i, x) in nacks[from..])
    decreases |nacks| - from
  {
    if from < |nacks| {
      InsertedExactly(Insert(requests, fileSize, nacks[from]), fileSize, nacks, from + 1, i, x);
      assert nacks[from..] == [nacks[from]] + nacks[from + 1..];
    }
  }

  lemma {:induction false} ClientRun(fileSize: nat, stream: seq<Frame>, nacks: seq<Request>, before: Outcome)
    requires |before.requests| < 0xFF && Carries(stream, nacks, |before.requests|)
    requires !before.sendingDone && before.consumed <= |nacks|
    ensures var inserted := Inserted(before.requests, fileSize, nacks, before.consumed);
      Handled(ClientTest, fileSize, stream, before)
        == Handled(ClientTest, fileSize, stream, Outcome(inserted, false, |nacks|))
    decreases |nacks| - before.consumed
  {
    hide DecodeNack, IsFrameOf;
    if before.consumed < |nacks| {
      var j := before.consumed;
      ClientDecodesNack(|before.requests|, stream[j], nacks[j].idx, nacks[j].seqNum);
      ClientRun(fileSize, stream, nacks, HandleOne(ClientTest, fileSize, stream[j], before));
    }
  }

  lemma ClientOutcome(fileSize: nat, stream: seq<Frame>, nacks: seq<Request>, k: nat)
    requires 0 < k < 0xFF && Carries(stream, nacks, k)
    requires |stream| == |nacks| || ThenSentinel(stream, |nacks|, k)
    ensures var inserted := Inserted(NoRequests(k), fileSize, nacks, 0);
      Handled(ClientTest, fileSize, stream, Outcome(NoRequests(k), false, 0))
        == if |stream| > |nacks| then Outcome(inserted, true, |nacks| + 1) else Outcome(inserted, false, |nacks|)
  {
    hide DecodeNack, IsFrameOf, Inserted;
    ClientRun(fileSize, stream, nacks, Outcome(NoRequests(k), false, 0));
    if |stream| > |nacks| {
      SentinelDecodes(ClientTest, k, stream[|nacks|]);
    }
  }

  /** Over any stream sendNack produces, the client's handler records exactly the NACKs below
      the file size, each for its own part, and stops exactly at the sentinel. */
  lemma ClientHandlerExact(fileSize: nat, stream: seq<Frame>, nacks: seq<Request>, k: nat)
    requires 0 < k < 0xFF && Carries(stream, nacks, k)
    requires |stream| == |nacks| || ThenSentinel(stream, |nacks|, k)
    ensures var after := Handled(ClientTest, fileSize, stream, Outcome(NoRequests(k), false, 0));
      && (after.sendingDone <==> |stream| > |nacks|)
      && after.consumed == (if after.sendingDone then |nacks| + 1 else |nacks|)
      && forall i: nat, x: nat :: i < k ==> (x in after.requests[i] <==> x < fileSize && Request(i, x) in nacks)
  {
    hide DecodeNack, IsFrameOf, Handled, Inserted;
    var empty := NoRequests(k);
    var after := Handled(ClientTest, fileSize, stream, Outcome(empty, false, 0));
    assert after.requests == Inserted(empty, fileSize, nacks, 0) by {
      ClientOutcome(fileSize, stream, nacks, k);
    }
    ClientOutcome(fileSize, stream, nacks, k);
    assert nacks[0..] == nacks;
    forall i: nat, x: nat | i < k
      ensures x in after.requests[i] <==> x < fileSize && Request(i, x) in nacks
    {
      InsertedExactly(empty, fileSize, nacks, 0, i, x);
    }
  }

  /** NACKed offsets are 0 or at least one datagram, hence above the number of parts. */
  predicate FarOffsets(nacks: seq<Request>, k: nat) {
    forall j :: 0 <= j < |nacks| ==> nacks[j].seqNum == 0 || k < nacks[j].seqNum < 0x8000_0000
  }

  lemma {:induction false} ServerNeverServes(fileSize: nat, stream: seq<Frame>, nacks: seq<Request>,
                                             before: Outcome, i: nat)
    requires 0 < i < |before.requests| < 0xFF && Carries(stream, nacks, |before.requests|)
    requires FarOffsets(nacks, |before.requests|)
    requires |stream| == |nacks| || (ThenSentinel(stream, |nacks|, |before.requests|) && |stream| == |nacks| + 1)
    requires before.consumed <= |stream|
    ensures Handled(ServerTest, fileSize, stream, before).requests[i] == before.requests[i]
    decreases |stream| - before.consumed
  {
    hide DecodeNack, IsFrameOf;
    var j, k := before.consumed, |before.requests|;
    if j < |stream| && !before.sendingDone {
      if j < |nacks| {
        ServerDecodesNack(k, stream[j], nacks[j].idx, nacks[j].seqNum);
      } else {
        SentinelDecodes(ServerTest, k, stream[j]);
      }
      ServerNeverServes(fileSize, stream, nacks, HandleOne(ServerTest, fileSize, stream[j], before), i);
    }
  }

  lemma {:induction false} SameWhenPartZero(fileSize: nat, stream: seq<Frame>, nacks: seq<Request>, before: Outcome)
    requires 0 < |before.requests| < 0xFF && Carries(stream, nacks, |before.requests|)
    requires forall j :: 0 <= j < |nacks| ==> nacks[j].idx == 0
    requires ThenSentinel(stream, |nacks|, |before.requests|) && |stream| == |nacks| + 1
    requires before.consumed <= |stream|
    ensures Handled(ServerTest, fileSize, stream, before) == Handled(ClientTest, fileSize, stream, before)
    decreases |stream| - before.consumed
  {
    hide DecodeNack, IsFrameOf;
    var j, k := before.consumed, |before.requests|;
    if j < |stream| && !before.sendingDone {
      if j < |nacks| {
        ServerTestAgreesIff(k, stream[j], 0, nacks[j].seqNum);
      } else {
        SentinelDecodes(ServerTest, k, stream[j]);
        SentinelDecodes(ClientTest, k, stream[j]);
      }
      SameWhenPartZero(fileSize, stream, nacks, HandleOne(ServerTest, fileSize, stream[j], before));
    }
  }

  /** The server's handler treats a complete report as the client's does if and only if every
      NACK in it is for part 0: it never records a request of any other part. */
  lemma ServerHandlerAgreesIff(fileSize: nat, stream: seq<Frame>, nacks: seq<Request>, k: nat)
    requires 0 < k < 0xFF && Carries(stream, nacks, k) && FarOffsets(nacks, k)
    requires forall j :: 0 <= j < |nacks| ==> nacks[j].seqNum < fileSize
    requires ThenSentinel(stream, |nacks|, k) && |stream| == |nacks| + 1
    ensures var start := Outcome(NoRequests(k), false, 0);
      (Handled(ServerTest, fileSize, stream, start) == Handled(ClientTest, fileSize, stream, start))
        <==> (forall j :: 0 <= j < |nacks| ==> nacks[j].idx == 0)
  {
    hide DecodeNack, IsFrameOf;
    var start := Outcome(NoRequests(k), false, 0);
    if forall j :: 0 <= j < |nacks| ==> nacks[j].idx == 0 {
      SameWhenPartZero(fileSize, stream, nacks, start);
    } else {
      var j :| 0 <= j < |nacks| && nacks[j].idx != 0;
      var i := nacks[j].idx;
      ServerNeverServes(fileSize, stream, nacks, start, i);
      ClientHandlerExact(fileSize, stream, nacks, k);
      assert Request(i, nacks[j].seqNum) in nacks;
      assert nacks[j].seqNum in Handled(ClientTest, fileSize, stream, start).requests[i];
    }
  }

  /** Wherever the server's handler has got to in the stream: a NACK of a part other than 0 ends
      it if the offset lies beyond the first slot, whatever follows (an offset that equals the number of
      parts, were it a slot, would be ignored); and if the offset is 0 it is recorded as a request of
      part 0 for offset `idx`, which is no slot. */
  lemma ServerMisreads(fileSize: nat, stream: seq<Frame>, before: Outcome, idx: uint32, seqNum: uint32)
    requires before.consumed < |stream| && !before.sendingDone && IsFrameOf(stream[before.consumed], idx, seqNum)
    requires 0 < idx < |before.requests| <= 0x100
    ensures |before.requests| < seqNum < 0x8000_0000 ==>
      Handled(ServerTest, fileSize, stream, before) == Outcome(before.requests, true, before.consumed + 1)
    ensures seqNum == |before.requests| ==>
      Handled(ServerTest, fileSize, stream, before)
        == Handled(ServerTest, fileSize, stream, Outcome(before.requests, false, before.consumed + 1))
    ensures seqNum == 0 && idx < fileSize ==>
      Handled(ServerTest, fileSize, stream, before)
        == Handled(ServerTest, fileSize, stream,
             Outcome(before.requests[0 := before.requests[0] + {idx}], false, before.consumed + 1))
  {
    hide DecodeNack, IsFrameOf;
    ServerDecodesNack(|before.requests|, stream[before.consumed], idx, seqNum);
  }
}
