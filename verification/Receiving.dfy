// The receive loop of one part, cut into its atomic steps, and what those steps keep.
module Receiving {
  import opened Bytes
  import opened Slots
  import opened Wire

  /** The guard of the gap loop: `expectedSeqNum <= seqNum` as written, `<` when repaired. */
  datatype GapGuard = AsWritten | Repaired

  /** What recvSize adds up: every arrival as written, or only offsets not seen before. */
  datatype Counting = EveryArrival | FreshOnly

  datatype Part = Part(d: pos, bytes: seq<byte>, gap: GapGuard, counting: Counting)
  {
    function Len(): nat { |bytes| }
  }

  datatype Pc =
    | Waiting                 // in recvfrom
    | Filling(dg: Datagram)   // in the gap loop opened by dg
    | Counted                 // out of receiveUdp: recvSize added to totalRecvSize
    | Finished                // doneReceiveCount incremented

  /** `log` lists the offsets copied into the file, `openers` those whose arrival opened a gap,
      `nacked` the NACKs sent; the other fields are the locals and globals of receiveUdp. */
  datatype Receiver = Receiver(
    expected: nat, missed: set<nat>, recvSize: nat, pc: Pc,
    log: seq<nat>, openers: set<nat>, nacked: seq<nat>)

  const FRESH: Receiver := Receiver(0, {}, 0, Waiting, [], {}, [])

  function Counts(p: Part, r: Receiver, dg: Datagram): nat {
    if p.counting == EveryArrival || dg.seqNum !in r.log then dg.size else 0
  }

  /** From recvfrom to the branch on expectedSeqNum, with the whole of the in-order and of the
      late branch; the gap branch is only entered. */
  function Arrive(p: Part, r: Receiver, dg: Datagram): Receiver {
    var counted := r.(recvSize := r.recvSize + Counts(p, r, dg));
    if r.expected == dg.seqNum then
      counted.(expected := r.expected + dg.size,
               missed := r.missed - {r.expected + dg.size}, log := r.log + [dg.seqNum])
    else if r.expected > dg.seqNum then
      counted.(missed := r.missed - {dg.seqNum}, log := r.log + [dg.seqNum])
    else
      counted.(pc := Filling(dg), openers := r.openers + {dg.seqNum})
  }

  predicate InGap(p: Part, r: Receiver) {
    && r.pc.Filling?
    && (r.expected < r.pc.dg.seqNum || (p.gap == AsWritten && r.expected == r.pc.dg.seqNum))
  }

  /** One iteration of the gap loop, under tcpSocketLock. */
  function NackNext(p: Part, r: Receiver): Receiver {
    r.(missed := r.missed + {r.expected}, nacked := r.nacked + [r.expected], expected := r.expected + p.d)
  }

  /** After the gap loop: the copy, the erase and the final increment. */
  function FinishGap(r: Receiver): Receiver
    requires r.pc.Filling?
  {
    var dg := r.pc.dg;
    r.(pc := Waiting, expected := r.expected + dg.size, missed := r.missed - {dg.seqNum},
       log := r.log + [dg.seqNum])
  }

  /** The rest of a loop iteration, when no other thread runs. */
  function Settle(p: Part, r: Receiver): (r': Receiver)
    decreases if InGap(p, r) then r.pc.dg.seqNum - r.expected + 1 else 0
  {
    if InGap(p, r) then Settle(p, NackNext(p, r))
    else if r.pc.Filling? then FinishGap(r)
    else r
  }

  /** One whole iteration of the receive loop. */
  function Absorb(p: Part, r: Receiver, dg: Datagram): Receiver {
    Settle(p, Arrive(p, r, dg))
  }

  // ----- the invariant -----

  function SlotDatagram(p: Part, s: nat): (dg: Datagram)
    requires s < p.Len()
  {
    var size := SlotSize(p.d, p.Len(), s);
    Datagram(s, size, p.bytes[s..s + size])
  }

  predicate IsSlotDatagram(p: Part, dg: Datagram) {
    IsSlot(p.d, p.Len(), dg.seqNum) && dg == SlotDatagram(p, dg.seqNum)
  }

  predicate Increasing(q: seq<nat>) {
    forall i, j :: 0 <= i < j < |q| ==> q[i] < q[j]
  }

  /** With the guard as written, the slot after a gap opener is stepped over silently. */
  predicate SteppedOver(p: Part, r: Receiver, x: nat) {
    p.gap == AsWritten && x >= p.d && x - p.d in r.openers
  }

  function Pending(r: Receiver): set<nat> {
    if r.pc.Filling? then {r.pc.dg.seqNum} else {}
  }

  function PendingBytes(r: Receiver): nat {
    if r.pc.Filling? then r.pc.dg.size else 0
  }

  predicate Edges(p: Part, r: Receiver) {
    && (Aligned(p.d, r.expected) || r.expected >= p.Len())
    && SlotLog(p.d, p.Len(), r.log)
    && (forall x :: x in r.log ==> x < r.expected)
    && (forall x :: x in r.openers ==> x in r.log || x in Pending(r))
    && (forall x :: x in r.openers && p.gap == AsWritten && x !in Pending(r) ==>
          x < p.Len() && r.expected >= x + p.d + SlotSize(p.d, p.Len(), x))
  }

  predicate GapInProgress(p: Part, r: Receiver) {
    r.pc.Filling? ==>
      var s := r.pc.dg.seqNum;
      && IsSlotDatagram(p, r.pc.dg)
      && s in r.openers
      && (forall x :: x in r.log ==> x < s)
      && (r.expected <= s || (p.gap == AsWritten && r.expected == s + p.d))
  }

  /** A NACK lies below a datagram that arrived and opened a gap; as written, or is that one's. */
  ghost predicate BelowArrival(p: Part, r: Receiver, x: nat) {
    exists y :: y in r.openers && (x < y || (p.gap == AsWritten && x == y))
  }

  ghost predicate NackRange(p: Part, r: Receiver) {
    && (forall x :: x in r.nacked ==> BelowArrival(p, r, x))
    && Increasing(r.nacked)
    && (forall x :: x in r.nacked ==> IsSlot(p.d, p.Len(), x) && x < r.expected)
    && (forall x :: x in r.missed ==> x in r.nacked)
  }

  /** What is stepped over is never NACKed, and the first slot opens no gap. */
  predicate Silent(p: Part, r: Receiver) {
    && (forall x :: x in r.nacked ==> !SteppedOver(p, r, x))
    && 0 !in r.openers
  }

  /** The simple account of the missed set: the slots passed, not received and not stepped over. */
  ghost predicate GapAccount(p: Part, r: Receiver) {
    forall x: nat :: x in r.missed
      <==> IsSlot(p.d, p.Len(), x) && x < r.expected && x !in r.log && !SteppedOver(p, r, x)
  }

  predicate ByteCount(p: Part, r: Receiver)
    requires SlotLog(p.d, p.Len(), r.log)
  {
    r.recvSize == PendingBytes(r)
      + if p.counting == EveryArrival then SumSizes(p.d, p.Len(), r.log)
        else BytesIn(p.d, p.Len(), r.log, 0)
  }

  function Clamp(len: nat, x: nat): nat {
    if x < len then x else len
  }

  /** expectedSeqNum, clamped to the part, is the end of the highest slot received; as written,
      one stride further when that slot opened a gap. */
  predicate EndOfHighest(p: Part, r: Receiver, h: nat) {
    && h in r.log && h < p.Len() && (forall x :: x in r.log ==> x <= h)
    && Clamp(p.Len(), r.expected)
       == Clamp(p.Len(), h + SlotSize(p.d, p.Len(), h) + if p.gap == AsWritten && h in r.openers then p.d else 0)
  }

  ghost predicate HighWater(p: Part, r: Receiver) {
    !r.pc.Filling? ==> if r.log == [] then r.expected == 0 else exists h: nat :: EndOfHighest(p, r, h)
  }

  ghost predicate Inv(p: Part, r: Receiver) {
    && Edges(p, r) && GapInProgress(p, r) && NackRange(p, r) && Silent(p, r) && GapAccount(p, r)
    && ByteCount(p, r) && HighWater(p, r)
  }

  lemma FreshInv(p: Part)
    ensures Inv(p, FRESH)
  {
    BytesInNone(p.d, p.Len(), 0);
  }

  lemma NextSlot(p: Part, a: nat, x: nat)
    requires Aligned(p.d, a) && IsSlot(p.d, p.Len(), x) && a < x
    ensures a + p.d <= x
  {
    SlotsApart(p.d, a, x);
  }

  lemma OverNext(p: Part, a: nat, x: nat)
    requires Aligned(p.d, a) && Aligned(p.d, x)
    ensures a + p.d < x ==> a + 2 * p.d <= x
  {
    if a + p.d < x { SlotsApart(p.d, a + p.d, x); }
  }

  /** Counting and copying one datagram. */
  lemma CountOne(p: Part, r: Receiver, dg: Datagram)
    requires Edges(p, r) && ByteCount(p, r) && !r.pc.Filling? && IsSlotDatagram(p, dg)
    ensures SlotLog(p.d, p.Len(), r.log + [dg.seqNum])
    ensures ByteCount(p, r.(recvSize := r.recvSize + Counts(p, r, dg), log := r.log + [dg.seqNum]))
  {
    var log := r.log + [dg.seqNum];
    assert log[..|log| - 1] == r.log;
    BytesInAppend(p.d, p.Len(), r.log, dg.seqNum, 0);
  }

  lemma InOrderKeeps(p: Part, r: Receiver, dg: Datagram)
    requires Inv(p, r) && r.pc == Waiting && IsSlotDatagram(p, dg)
    requires r.expected == dg.seqNum
    ensures Inv(p, Arrive(p, r, dg))
  {
    var r' := Arrive(p, r, dg);
    var s := dg.seqNum;
    CountOne(p, r, dg);
    forall x: nat ensures x in r'.missed
      <==> IsSlot(p.d, p.Len(), x) && x < r'.expected && x !in r'.log && !SteppedOver(p, r', x)
    {
      if IsSlot(p.d, p.Len(), x) && s < x { NextSlot(p, s, x); }
    }
    assert EndOfHighest(p, r', s);
  }

  lemma LateKeepsHigh(p: Part, r: Receiver, dg: Datagram)
    requires Inv(p, r) && r.pc == Waiting && IsSlotDatagram(p, dg)
    requires r.expected > dg.seqNum
    ensures HighWater(p, Arrive(p, r, dg))
  {
    var r' := Arrive(p, r, dg);
    var s := dg.seqNum;
    var h: nat :| EndOfHighest(p, r, h);
    if s <= h {
      assert EndOfHighest(p, r', h);
    } else {
      NextSlot(p, h, s);
      OverNext(p, h, s);
      assert EndOfHighest(p, r', s);
    }
  }

  lemma LateKeeps(p: Part, r: Receiver, dg: Datagram)
    requires Inv(p, r) && r.pc == Waiting && IsSlotDatagram(p, dg)
    requires r.expected > dg.seqNum
    ensures Inv(p, Arrive(p, r, dg))
  {
    CountOne(p, r, dg);
    LateKeepsHigh(p, r, dg);
  }

  lemma OpenKeeps(p: Part, r: Receiver, dg: Datagram)
    requires Inv(p, r) && r.pc == Waiting && IsSlotDatagram(p, dg)
    requires r.expected < dg.seqNum
    ensures Inv(p, Arrive(p, r, dg))
  {
    var r' := Arrive(p, r, dg);
    assert dg.seqNum !in r.log;
    forall x: nat | BelowArrival(p, r, x) ensures BelowArrival(p, r', x) {
      var y :| y in r.openers && (x < y || (p.gap == AsWritten && x == y));
      assert y in r'.openers;
    }
    forall x: nat | x in r.missed || (IsSlot(p.d, p.Len(), x) && x < r.expected)
      ensures SteppedOver(p, r', x) == SteppedOver(p, r, x)
    {
    }
  }

  lemma ArriveKeeps(p: Part, r: Receiver, dg: Datagram)
    requires Inv(p, r) && r.pc == Waiting && IsSlotDatagram(p, dg)
    ensures Inv(p, Arrive(p, r, dg))
  {
    if r.expected == dg.seqNum { InOrderKeeps(p, r, dg); }
    else if r.expected > dg.seqNum { LateKeeps(p, r, dg); }
    else { OpenKeeps(p, r, dg); }
  }

  lemma IncreasingAppend(q: seq<nat>, x: nat)
    requires Increasing(q) && forall y :: y in q ==> y < x
    ensures Increasing(q + [x])
  {
    assert forall j :: 0 <= j < |q| ==> q[j] in q;
  }

  lemma NackNextKeeps(p: Part, r: Receiver)
    requires Inv(p, r) && InGap(p, r)
    ensures Inv(p, NackNext(p, r))
    ensures IsSlot(p.d, p.Len(), r.expected)
  {
    var r' := NackNext(p, r);
    var e, s := r.expected, r.pc.dg.seqNum;
    if e < s { NextSlot(p, e, s); }
    IncreasingAppend(r.nacked, e);
    forall x: nat ensures x in r'.missed
      <==> IsSlot(p.d, p.Len(), x) && x < r'.expected && x !in r'.log && !SteppedOver(p, r', x)
    {
      if IsSlot(p.d, p.Len(), x) && e < x { NextSlot(p, e, x); }
    }
  }

  lemma FinishAccount(p: Part, r: Receiver)
    requires Inv(p, r) && r.pc.Filling? && !InGap(p, r)
    ensures GapAccount(p, FinishGap(r))
  {
    hide ByteCount, HighWater, NackRange;
    var r' := FinishGap(r);
    var e, s := r.expected, r.pc.dg.seqNum;
    forall x: nat ensures x in r'.missed
      <==> IsSlot(p.d, p.Len(), x) && x < r'.expected && x !in r'.log && !SteppedOver(p, r', x)
    {
      if IsSlot(p.d, p.Len(), x) && s < x { NextSlot(p, s, x); }
      if IsSlot(p.d, p.Len(), x) && Aligned(p.d, e) && e < x { NextSlot(p, e, x); }
    }
  }

  lemma FinishCount(p: Part, r: Receiver)
    requires Edges(p, r) && GapInProgress(p, r) && ByteCount(p, r) && r.pc.Filling? && !InGap(p, r)
    ensures Edges(p, FinishGap(r)) && ByteCount(p, FinishGap(r)) && HighWater(p, FinishGap(r))
  {
    var r', s := FinishGap(r), r.pc.dg.seqNum;
    assert r'.log[..|r'.log| - 1] == r.log;
    BytesInAppend(p.d, p.Len(), r.log, s, 0);
    assert EndOfHighest(p, r', s);
  }

  lemma FinishKeeps(p: Part, r: Receiver)
    requires Inv(p, r) && r.pc.Filling? && !InGap(p, r)
    ensures Inv(p, FinishGap(r))
  {
    FinishAccount(p, r);
    FinishCount(p, r);
    hide GapAccount, ByteCount, HighWater, Edges;
    var r' := FinishGap(r);
    forall x: nat | BelowArrival(p, r, x) ensures BelowArrival(p, r', x) {
    }
  }

  /** Every datagram of a part keeps the account, whatever order and however often they come. */
  lemma {:induction false} SettleKeeps(p: Part, r: Receiver)
    requires Inv(p, r)
    ensures Inv(p, Settle(p, r)) && !Settle(p, r).pc.Filling?
    decreases if InGap(p, r) then r.pc.dg.seqNum - r.expected + 1 else 0
  {
    if InGap(p, r) {
      NackNextKeeps(p, r);
      SettleKeeps(p, NackNext(p, r));
    } else if r.pc.Filling? {
      FinishKeeps(p, r);
    }
  }
}
