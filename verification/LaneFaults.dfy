// Runs in which the network neither drops nor duplicates anything, it only reorders, and yet the
// receive loop is left with a slot missing: once because of the gap guard as written, once, with
// the guard repaired, because recvSize counts every arrival. They exist for every part that is
// long enough; LaneCopies shows that no shorter part has one.
module LaneFaults {
  import opened Slots
  import opened Wire
  import opened Receiving
  import opened Lanes
  import opened LaneRuns
  import opened LanePaths
  import opened LaneMoves

  // ----- a gap at the second slot -----

  /** How far the gap loop and the final increment take expectedSeqNum from 0 past slot d. */
  function MarkAfterGap(p: Part): nat
    requires p.Len() > p.d
  {
    (if p.gap == AsWritten then 2 * p.d else p.d) + SlotSize(p.d, p.Len(), p.d)
  }

  function NackedInGap(p: Part): seq<nat> {
    var d: nat := p.d;
    if p.gap == AsWritten then [0, d] else [0]
  }

  lemma GapOnSecondSlot(p: Part, dg: Datagram)
    requires dg.seqNum == p.d
    ensures var d: nat, z, filling := p.d, dg.size, Filling(dg);
      && Arrive(p, FRESH, dg) == Receiver(0, {}, z, filling, [], {d}, [])
      && NackNext(p, Receiver(0, {}, z, filling, [], {d}, [])) == Receiver(d, {0}, z, filling, [], {d}, [0])
      && NackNext(p, Receiver(d, {0}, z, filling, [], {d}, [0])) == Receiver(2 * d, {0, d}, z, filling, [], {d}, [0, d])
      && FinishGap(Receiver(2 * d, {0, d}, z, filling, [], {d}, [0, d]))
         == Receiver(2 * d + z, {0}, z, Waiting, [d], {d}, [0, d])
      && FinishGap(Receiver(d, {0}, z, filling, [], {d}, [0])) == Receiver(d + z, {0}, z, Waiting, [d], {d}, [0])
  {
    var d: nat := p.d;
    assert {0} - {d} == {0} && {0, d} - {d} == {0};
  }

  lemma TwoSlots(p: Part)
    requires p.Len() > p.d
    ensures IsSlot(p.d, p.Len(), 0) && IsSlot(p.d, p.Len(), p.d)
    ensures SlotSize(p.d, p.Len(), 0) == p.d
    ensures p.Len() >= 2 * p.d ==> SlotSize(p.d, p.Len(), p.d) == p.d
    ensures Boundary(p, p.d + SlotSize(p.d, p.Len(), p.d))
  {
    assert Aligned(p.d, p.d) && Aligned(p.d, 2 * p.d);
  }

  lemma SecondSlotSent(p: Part, m: Mode) returns (l: Lane)
    requires Parameters(p) && p.Len() > p.d
    ensures Reaches(p, m, l)
    ensures l == START.(
      sender := Sender(FirstPass, p.d + SlotSize(p.d, p.Len(), p.d), {}, []),
      net := multiset{First(p, 0), First(p, p.d)})
  {
    hide Reaches, SlotDatagram, IsSlot;
    TwoSlots(p);
    Begin(p, m);
    var l1 := FirstSend(p, m, START);
    l := FirstSend(p, m, l1);
  }

  /** The second slot comes first. With the guard as written the gap loop NACKs it as well. */
  lemma SecondSlotFirst(p: Part, m: Mode) returns (l: Lane)
    requires Parameters(p) && p.Len() > p.d
    ensures Reaches(p, m, l)
    ensures var z := SlotSize(p.d, p.Len(), p.d);
      l == Lane(
        Sender(FirstPass, p.d + z, {}, []),
        Receiver(MarkAfterGap(p), {0}, z, Waiting, [p.d], {p.d}, NackedInGap(p)),
        multiset{First(p, 0)}, 0, {})
  {
    hide Reaches, SlotDatagram, Arrive, NackNext, FinishGap, IsSlot;
    TwoSlots(p);
    SlotFacts(p, 0);
    SlotFacts(p, p.d);
    GapOnSecondSlot(p, SlotDatagram(p, p.d));
    l := SecondSlotSent(p, m);
    l := Receive(p, m, l, p.d, false);
    l := Gap(p, m, l);
    if p.gap == AsWritten { l := Gap(p, m, l); }
    l := Close(p, m, l);
  }

  /** So a part of two slots or more can arrive whole and still issue a NACK for its first one. */
  lemma WholeWithGap(p: Part, m: Mode) returns (l: Lane)
    requires Parameters(p) && p.Len() > p.d
    ensures Reaches(p, m, l) && l.receiver.pc == Finished
    ensures l.handled == 0 && l.receiver.nacked != [] && l.receiver.nacked[0] == 0
  {
    TwoSlots(p);
    SlotFacts(p, 0);
    hide Reaches, SlotDatagram, Parameters;
    l := SecondSlotFirst(p, m);
    l := Receive(p, m, l, 0, false);
    l := Stream(p, m, l, p.Len());
    l := Leave(p, m, l);
  }

  // ----- the faulty runs -----

  /** As written, any part of two datagrams or more: the second slot comes first and so is NACKed
      although it has just arrived; every slot but the first follows; then the second one's
      retransmission ends the loop in place of the first slot. */
  lemma ReorderingAloneDefeatsWrittenGuard(p: Part) returns (l: Lane)
    requires Parameters(p) && p.gap == AsWritten && p.counting == EveryArrival
    requires p.Len() >= 2 * p.d
    ensures Reaches(p, REORDERING, l) && l.receiver.pc == Finished && l.receiver.recvSize == p.Len()
    ensures IsSlot(p.d, p.Len(), 0) && 0 !in l.receiver.log
  {
    TwoSlots(p);
    SlotFacts(p, p.d);
    hide Reaches, SlotDatagram;
    l := SecondSlotFirst(p, REORDERING);
    l := Stream(p, REORDERING, l, p.Len());
    l := EndOfFirstPass(p, REORDERING, l);
    l := ServeNack(p, REORDERING, l, 0);
    l := ServeNack(p, REORDERING, l, p.d);
    l := Receive(p, REORDERING, l, p.d, true);
    l := Leave(p, REORDERING, l);
  }

  /** Repaired guard, any part of more than two datagrams: the late original of the first slot and
      its retransmission are both counted, and the loop ends before the final slot. */
  lemma ReorderingAloneDefeatsEveryArrival(p: Part) returns (l: Lane, f: nat)
    requires Parameters(p) && p.gap == Repaired && p.counting == EveryArrival
    requires p.Len() > 2 * p.d
    ensures Reaches(p, REORDERING, l) && l.receiver.pc == Finished && l.receiver.recvSize >= p.Len()
    ensures IsFinal(p, f) && f !in l.receiver.log
  {
    f := FinalSlot(p);
    TwoSlots(p);
    SlotFacts(p, 0);
    assert 2 * p.d <= f;
    hide Reaches, SlotDatagram, Parameters;
    l := SecondSlotFirst(p, REORDERING);
    l := Receive(p, REORDERING, l, 0, false);
    l := Stream(p, REORDERING, l, f);
    l := FirstSend(p, REORDERING, l);
    l := EndOfFirstPass(p, REORDERING, l);
    l := ServeNack(p, REORDERING, l, 0);
    l := Receive(p, REORDERING, l, 0, true);
    l := Leave(p, REORDERING, l);
  }

  /** Long enough for the loop to stop on bytes it counted twice. */
  predicate LongEnough(p: Part) {
    p.Len() > 2 * p.d || (p.gap == AsWritten && p.Len() == 2 * p.d)
  }

  /** The slot that such a part is left without: as written the first, with the repaired guard the
      final one. */
  lemma FaultyRun(p: Part) returns (l: Lane, x: nat)
    requires Parameters(p) && p.counting == EveryArrival && LongEnough(p)
    ensures Reaches(p, REORDERING, l) && l.receiver.pc == Finished && l.receiver.recvSize >= p.Len()
    ensures if p.gap == AsWritten then x == 0 && IsSlot(p.d, p.Len(), 0) else IsFinal(p, x)
    ensures x !in l.receiver.log
  {
    hide Reaches, Parameters;
    if p.gap == AsWritten {
      x := 0;
      l := ReorderingAloneDefeatsWrittenGuard(p);
    } else {
      l, x := ReorderingAloneDefeatsEveryArrival(p);
    }
  }

  // ----- if NACKs came out of order -----

  /** From any state in which the next two NACKs are x and then a smaller y: x is read and sent, y is
      inserted before the erase, and the erase takes y away unsent; x stays and is sent again. */
  lemma OutOfOrderLosesRequest(p: Part, l: Lane, x: nat, y: nat) returns (l': Lane)
    requires Parameters(p) && IsSlot(p.d, p.Len(), x) && y < x
    requires l.sender.pc == CheckEmpty && l.sender.requests == {} && y !in l.sender.resent
    requires l.handled + 2 <= |l.receiver.nacked|
    requires l.receiver.nacked[l.handled] == x && l.receiver.nacked[l.handled + 1] == y
    ensures Leads(p, REORDERING, l, l')
    ensures l'.handled == l.handled + 2 && l'.receiver == l.receiver && l'.sender.pc == CheckEmpty
    ensures l'.sender.requests == {x} && l'.sender.resent == l.sender.resent + [x] && y !in l'.sender.resent
  {
    hide Leads, OnWire, Min, SlotDatagram, IsSlot, Parameters, Arrive, NackNext, FinishGap, InGap;
    var stale := seq(p.d + 8, _ => 0);
    SlotInPart(p, x);
    OneDatagramPerOffset(p, x, stale);
    MinIs({x}, x);
    MinIs({x, y}, y);
    Stay(p, REORDERING, l);
    l' := Then(p, REORDERING, l, l, TakeNack);
    assert l'.sender.requests == {x};
    l' := Then(p, REORDERING, l, l', SeeNonempty);
    l' := Then(p, REORDERING, l, l', Read);
    l' := Then(p, REORDERING, l, l', Send(stale));
    l' := Then(p, REORDERING, l, l', TakeNack);
    assert l'.sender.requests == {x, y};
    l' := Then(p, REORDERING, l, l', Erase);
    assert l'.sender.requests == {x};
  }
}
