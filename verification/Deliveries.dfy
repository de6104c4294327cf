// The receive loop of one part on its own: what any sequence of arrivals leaves behind.
module Deliveries {
  import opened Bytes
  import opened Slots
  import opened Wire
  import opened Receiving

  function AbsorbAll(p: Part, r: Receiver, dgs: seq<Datagram>): (r': Receiver) {
    if dgs == [] then r
    else Absorb(p, AbsorbAll(p, r, dgs[..|dgs| - 1]), dgs[|dgs| - 1])
  }

  predicate AllSlotDatagrams(p: Part, dgs: seq<Datagram>) {
    forall j :: 0 <= j < |dgs| ==> IsSlotDatagram(p, dgs[j])
  }

  function Offsets(dgs: seq<Datagram>): (q: seq<nat>)
    ensures |q| == |dgs| && forall j :: 0 <= j < |dgs| ==> q[j] == dgs[j].seqNum
  {
    if dgs == [] then [] else Offsets(dgs[..|dgs| - 1]) + [dgs[|dgs| - 1].seqNum]
  }

  lemma {:induction false} SettleLogs(p: Part, r: Receiver)
    ensures Settle(p, r).log == r.log + if r.pc.Filling? then [r.pc.dg.seqNum] else []
    ensures !r.pc.Filling? ==> Settle(p, r) == r
    ensures r.pc.Filling? ==> Settle(p, r).pc == Waiting
    decreases if InGap(p, r) then r.pc.dg.seqNum - r.expected + 1 else 0
  {
    if InGap(p, r) { SettleLogs(p, NackNext(p, r)); }
  }

  lemma {:induction false} AbsorbAllKeeps(p: Part, dgs: seq<Datagram>)
    requires AllSlotDatagrams(p, dgs)
    ensures var r := AbsorbAll(p, FRESH, dgs);
      Inv(p, r) && r.pc == Waiting && r.log == Offsets(dgs)
  {
    if dgs == [] {
      FreshInv(p);
    } else {
      var before, last := dgs[..|dgs| - 1], dgs[|dgs| - 1];
      AbsorbAllKeeps(p, before);
      hide Inv, Arrive, Settle;
      var r := AbsorbAll(p, FRESH, before);
      ArriveKeeps(p, r, last);
      SettleKeeps(p, Arrive(p, r, last));
      SettleLogs(p, Arrive(p, r, last));
      ArriveLogs(p, r, last);
    }
  }

  lemma ArriveLogs(p: Part, r: Receiver, dg: Datagram)
    requires r.pc == Waiting
    ensures var r' := Arrive(p, r, dg);
      if r'.pc.Filling? then r'.pc.dg == dg && r'.log == r.log else r'.pc == Waiting && r'.log == r.log + [dg.seqNum]
  {
  }

  /** Repaired guard. After any arrivals, in any order, with losses and repeats: the missed set is
      the slots below expectedSeqNum that did not arrive, nothing at or above it arrived, it is a
      slot boundary or past the part, and clamped to the part it is the end of the highest slot
      that arrived. */
  lemma RepairedGapAccount(p: Part, dgs: seq<Datagram>)
    requires p.gap == Repaired && AllSlotDatagrams(p, dgs)
    ensures var r, arrived := AbsorbAll(p, FRESH, dgs), Offsets(dgs);
      && (forall x: nat :: x in r.missed <==> IsSlot(p.d, p.Len(), x) && x < r.expected && x !in arrived)
      && (forall x :: x in arrived ==> x < r.expected)
      && (r.expected % p.d == 0 || r.expected >= p.Len())
      && (arrived == [] ==> r.expected == 0)
      && (arrived != [] ==> exists h: nat :: EndOf(p, r.expected, arrived, h))
  {
    hide AbsorbAll, GapInProgress, ByteCount, NackRange, IsSlot, Offsets;
    AbsorbAllKeeps(p, dgs);
    var r := AbsorbAll(p, FRESH, dgs);
    AlignedIsMultiple(p.d, r.expected);
    if dgs != [] {
      var h: nat :| EndOfHighest(p, r, h);
      assert EndOf(p, r.expected, Offsets(dgs), h);
    }
  }

  predicate EndOf(p: Part, expected: nat, arrived: seq<nat>, h: nat) {
    && h in arrived && h < p.Len() && (forall x :: x in arrived ==> x <= h)
    && Clamp(p.Len(), expected) == h + SlotSize(p.d, p.Len(), h)
  }

  /** Guard as written, exactly: the missed set is the slots below expectedSeqNum that neither
      arrived nor directly follow a datagram that opened a gap. Among the slots below it that did
      not arrive, no NACK was sent for exactly those followers, and none ever is, arrived or not.
      Every opener, though it arrived, is NACKed. */
  lemma WrittenGapAccount(p: Part, dgs: seq<Datagram>)
    requires p.gap == AsWritten && AllSlotDatagrams(p, dgs)
    ensures var r, arrived := AbsorbAll(p, FRESH, dgs), Offsets(dgs);
      && (forall x: nat :: x in r.missed <==>
            IsSlot(p.d, p.Len(), x) && x < r.expected && x !in arrived && !SteppedOver(p, r, x))
      && (forall x: nat :: IsSlot(p.d, p.Len(), x) && x < r.expected && x !in arrived ==>
            (x !in r.nacked <==> SteppedOver(p, r, x)))
      && (forall x: nat :: SteppedOver(p, r, x) ==> x !in r.nacked)
      && (forall x :: x in r.openers ==> x in arrived && x in r.nacked)
  {
    hide AbsorbAll, GapInProgress, ByteCount, HighWater, IsSlot, Offsets, SteppedOver;
    AbsorbAllKeeps(p, dgs);
    OpenersNacked(p, dgs);
  }

  lemma {:induction false} SettleNacks(p: Part, r: Receiver)
    ensures forall x :: x in r.nacked ==> x in Settle(p, r).nacked
    ensures Settle(p, r).openers == r.openers
    ensures
      && InGap(p, r) && p.gap == AsWritten
      && IsSlot(p.d, r.pc.dg.seqNum + 1, r.pc.dg.seqNum) && Aligned(p.d, r.expected)
      ==> r.pc.dg.seqNum in Settle(p, r).nacked
    decreases if InGap(p, r) then r.pc.dg.seqNum - r.expected + 1 else 0
  {
    if InGap(p, r) {
      var r', s := NackNext(p, r), r.pc.dg.seqNum;
      if r.expected < s && Aligned(p.d, s) && Aligned(p.d, r.expected) { SlotsApart(p.d, r.expected, s); }
      SettleNacks(p, r');
      assert r.expected in r'.nacked;
      assert forall x :: x in r.nacked ==> x in r'.nacked;
    }
  }

  lemma {:induction false} OpenersNacked(p: Part, dgs: seq<Datagram>)
    requires p.gap == AsWritten && AllSlotDatagrams(p, dgs)
    ensures var r := AbsorbAll(p, FRESH, dgs); forall x :: x in r.openers ==> x in r.nacked
  {
    if dgs != [] {
      var before, last := dgs[..|dgs| - 1], dgs[|dgs| - 1];
      OpenersNacked(p, before);
      AbsorbAllKeeps(p, before);
      SettleNacks(p, Arrive(p, AbsorbAll(p, FRESH, before), last));
    }
  }

  // ----- the bytes -----

  /** The copies of a sequence of arrivals into a buffer whose part begins at `at`. */
  function CopyAll(p: Part, buf: seq<byte>, at: nat, dgs: seq<Datagram>): (r: seq<byte>)
    requires AllSlotDatagrams(p, dgs) && at + p.Len() <= |buf|
    ensures |r| == |buf|
  {
    if dgs == [] then buf
    else
      var last := dgs[|dgs| - 1];
      assert IsSlotDatagram(p, last);
      Overwrite(CopyAll(p, buf, at, dgs[..|dgs| - 1]), at + last.seqNum, last.payload)
  }

  lemma AbsorbNext(p: Part, dgs: seq<Datagram>, dg: Datagram)
    ensures AbsorbAll(p, FRESH, dgs + [dg]) == Absorb(p, AbsorbAll(p, FRESH, dgs), dg)
  {
    assert (dgs + [dg])[..|dgs|] == dgs;
  }

  lemma CopyNext(p: Part, buf: seq<byte>, at: nat, dgs: seq<Datagram>, dg: Datagram)
    requires AllSlotDatagrams(p, dgs) && IsSlotDatagram(p, dg) && at + p.Len() <= |buf|
    ensures AllSlotDatagrams(p, dgs + [dg]) && at + dg.seqNum + |dg.payload| <= |buf|
    ensures CopyAll(p, buf, at, dgs + [dg]) == Overwrite(CopyAll(p, buf, at, dgs), at + dg.seqNum, dg.payload)
  {
    assert (dgs + [dg])[..|dgs|] == dgs;
  }

  ghost predicate Reached(dgs: seq<Datagram>, y: int) {
    exists j :: 0 <= j < |dgs| && dgs[j].seqNum <= y < dgs[j].seqNum + dgs[j].size
  }

  lemma ReachedAppend(dgs: seq<Datagram>, y: int)
    requires dgs != []
    ensures var last := dgs[|dgs| - 1];
      Reached(dgs, y) <==> Reached(dgs[..|dgs| - 1], y) || last.seqNum <= y < last.seqNum + last.size
  {
    var before := dgs[..|dgs| - 1];
    if Reached(before, y) {
      var j :| 0 <= j < |before| && before[j].seqNum <= y < before[j].seqNum + before[j].size;
      assert dgs[j] == before[j];
    }
    if Reached(dgs, y) {
      var j :| 0 <= j < |dgs| && dgs[j].seqNum <= y < dgs[j].seqNum + dgs[j].size;
      assert j < |before| ==> before[j] == dgs[j];
    }
  }

  /** Byte y of the buffer: the part's own byte where a slot arrived, otherwise untouched. */
  lemma {:induction false} CopyAllContent(p: Part, buf: seq<byte>, at: nat, dgs: seq<Datagram>, y: nat)
    requires AllSlotDatagrams(p, dgs) && at + p.Len() <= |buf| && y < |buf|
    ensures CopyAll(p, buf, at, dgs)[y] == if Reached(dgs, y - at) then p.bytes[y - at] else buf[y]
  {
    hide Reached, IsSlot, Overwrite, SlotDatagram;
    if dgs != [] {
      var before, last := dgs[..|dgs| - 1], dgs[|dgs| - 1];
      CopyAllContent(p, buf, at, before, y);
      ReachedAppend(dgs, y - at);
      assert IsSlotDatagram(p, last);
      OverwriteSlot(p, CopyAll(p, buf, at, before), at, last, y);
    } else {
      NothingReached(y - at);
    }
  }

  lemma OverwriteSlot(p: Part, buf: seq<byte>, at: nat, dg: Datagram, y: nat)
    requires IsSlotDatagram(p, dg) && at + p.Len() <= |buf| && y < |buf|
    ensures at + dg.seqNum + |dg.payload| <= |buf|
    ensures Overwrite(buf, at + dg.seqNum, dg.payload)[y]
         == if dg.seqNum <= y - at < dg.seqNum + dg.size then p.bytes[y - at] else buf[y]
  {
  }

  lemma NothingReached(y: int)
    ensures !Reached([], y)
  {
  }

  // ----- when the loop stops -----

  /** The arrivals `dgs` are those the loop takes: it had not reached the part's size before the
      last of them and has after it. */
  predicate StopsOn(p: Part, dgs: seq<Datagram>) {
    && dgs != []
    && AbsorbAll(p, FRESH, dgs[..|dgs| - 1]).recvSize < p.Len() <= AbsorbAll(p, FRESH, dgs).recvSize
  }

  /** Counting every arrival, the loop stops with every slot in exactly when the bytes of repeated
      arrivals are fewer than those of the arrival it stops on; counting fresh offsets only, it
      always does, and with recvSize equal to the part. */
  lemma StopsCompleteIff(p: Part, dgs: seq<Datagram>)
    requires AllSlotDatagrams(p, dgs) && StopsOn(p, dgs)
    ensures SlotLog(p.d, p.Len(), Offsets(dgs))
    ensures p.counting == EveryArrival ==>
      (AllIn(p.d, p.Len(), Offsets(dgs)) <==> RepeatedBytes(p.d, p.Len(), Offsets(dgs)) < dgs[|dgs| - 1].size)
    ensures p.counting == FreshOnly ==>
      AllIn(p.d, p.Len(), Offsets(dgs)) && AbsorbAll(p, FRESH, dgs).recvSize == p.Len()
  {
    hide AbsorbAll, GapAccount, NackRange, HighWater, GapInProgress;
    var before := dgs[..|dgs| - 1];
    AbsorbAllKeeps(p, dgs);
    AbsorbAllKeeps(p, before);
    var log := Offsets(dgs);
    assert log[..|log| - 1] == Offsets(before);
    assert IsSlotDatagram(p, dgs[|dgs| - 1]);
    if p.counting == EveryArrival {
      StoppedCompleteIff(p.d, p.Len(), log);
    } else {
      BytesInFullIff(p.d, p.Len(), log);
    }
  }

  lemma AllReached(p: Part, dgs: seq<Datagram>, y: nat)
    requires AllSlotDatagrams(p, dgs) && AllIn(p.d, p.Len(), Offsets(dgs)) && y < p.Len()
    ensures Reached(dgs, y)
  {
    var x := SlotOf(p.d, p.Len(), y);
    assert x in Offsets(dgs);
    var j :| 0 <= j < |dgs| && Offsets(dgs)[j] == x;
    assert IsSlotDatagram(p, dgs[j]);
  }

  lemma NotReached(p: Part, dgs: seq<Datagram>, y: int)
    requires AllSlotDatagrams(p, dgs) && !(0 <= y < p.Len())
    ensures !Reached(dgs, y)
  {
  }

  lemma StopsComplete(p: Part, dgs: seq<Datagram>)
    requires AllSlotDatagrams(p, dgs) && AbsorbAll(p, FRESH, dgs).recvSize >= p.Len()
    requires p.counting == FreshOnly || Distinct(AbsorbAll(p, FRESH, dgs).log)
    ensures AllIn(p.d, p.Len(), Offsets(dgs))
  {
    hide AbsorbAll, GapAccount, NackRange, HighWater, GapInProgress, Silent;
    AbsorbAllKeeps(p, dgs);
    BytesInFullIff(p.d, p.Len(), Offsets(dgs));
    if p.counting == EveryArrival { StoppedWithoutRepeats(p.d, p.Len(), Offsets(dgs)); }
  }

  /** Once recvSize has reached the part's size, and nothing it counted arrived twice, the buffer
      holds the part in its place and is untouched elsewhere. */
  lemma StopsWithThePart(p: Part, buf: seq<byte>, at: nat, dgs: seq<Datagram>)
    requires AllSlotDatagrams(p, dgs) && at + p.Len() <= |buf|
    requires AbsorbAll(p, FRESH, dgs).recvSize >= p.Len()
    requires p.counting == FreshOnly || Distinct(AbsorbAll(p, FRESH, dgs).log)
    ensures CopyAll(p, buf, at, dgs) == Overwrite(buf, at, p.bytes)
  {
    hide AbsorbAll, CopyAll, AllSlotDatagrams, AllIn, Distinct, Overwrite;
    StopsComplete(p, dgs);
    forall y: nat | y < |buf| ensures CopyAll(p, buf, at, dgs)[y] == Overwrite(buf, at, p.bytes)[y] {
      ByteInPlace(p, buf, at, dgs, y);
    }
  }

  lemma ByteInPlace(p: Part, buf: seq<byte>, at: nat, dgs: seq<Datagram>, y: nat)
    requires AllSlotDatagrams(p, dgs) && at + p.Len() <= |buf| && y < |buf|
    requires AllIn(p.d, p.Len(), Offsets(dgs))
    ensures CopyAll(p, buf, at, dgs)[y] == if at <= y < at + p.Len() then p.bytes[y - at] else buf[y]
  {
    hide CopyAll, Reached, AllSlotDatagrams, AllIn;
    CopyAllContent(p, buf, at, dgs, y);
    if at <= y < at + p.Len() { AllReached(p, dgs, y - at); } else { NotReached(p, dgs, y - at); }
  }
}
