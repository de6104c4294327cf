// How often a datagram can arrive when the network may lose and reorder but not duplicate, and
// from it the exact lengths of the parts that can be left incomplete.
module LaneCopies {
  import opened Bytes
  import opened Slots
  import opened Wire
  import opened Receiving
  import opened Lanes
  import opened LaneRuns
  import opened LanePaths
  import opened LaneMoves
  import opened LaneFaults

  function Again(p: Part, s: nat): Packet
    requires s < p.Len()
  {
    Packet(SlotDatagram(p, s), true)
  }

  function InNet(p: Part, net: multiset<Packet>, x: nat): nat
    requires x < p.Len()
  {
    net[First(p, x)] + net[Again(p, x)]
  }

  function Arrived(r: Receiver, x: nat): nat {
    multiset(r.log)[x] + if x in Pending(r) then 1 else 0
  }

  /** The datagrams of slot x that are in flight or have arrived. */
  function Copies(p: Part, l: Lane, x: nat): nat
    requires x < p.Len()
  {
    InNet(p, l.net, x) + Arrived(l.receiver, x)
  }

  /** Those that have been sent: one in the first pass, and its retransmissions. */
  function Sends(l: Lane, x: nat): nat {
    (if l.sender.pc == FirstPass && x >= l.sender.sendPtr then 0 else 1) + multiset(l.sender.resent)[x]
  }

  lemma InNetChange(p: Part, net: multiset<Packet>, pk: Packet, x: nat)
    requires IsSlotDatagram(p, pk.dg) && IsSlot(p.d, p.Len(), x)
    ensures InNet(p, net + multiset{pk}, x) == InNet(p, net, x) + if pk.dg.seqNum == x then 1 else 0
    ensures pk in net ==>
      InNet(p, net - multiset{pk}, x) + (if pk.dg.seqNum == x then 1 else 0) == InNet(p, net, x)
    ensures InNet(p, net - multiset{pk}, x) <= InNet(p, net, x)
  {
    SlotFacts(p, x);
    assert pk == First(p, pk.dg.seqNum) || pk == Again(p, pk.dg.seqNum);
    hide SlotDatagram, IsSlot;
  }

  lemma ArrivedChange(p: Part, r: Receiver, dg: Datagram, x: nat)
    requires r.pc == Waiting
    ensures Arrived(Arrive(p, r, dg), x) == Arrived(r, x) + if dg.seqNum == x then 1 else 0
  {
  }

  lemma FirstSendCopies(p: Part, l: Lane, stale: seq<byte>, x: nat)
    requires LaneInv(p, l) && Enabled(p, l, SendFirst(stale)) && IsSlot(p.d, p.Len(), x)
    ensures var l' := Apply(p, l, SendFirst(stale)); Copies(p, l', x) - Copies(p, l, x) == Sends(l', x) - Sends(l, x)
  {
    hide OnWire, InNet, Arrived, Inv, Served, Requests, InFlight, Tokens;
    var at := l.sender.sendPtr;
    OneDatagramPerOffset(p, at, stale);
    InNetChange(p, l.net, Packet(OnWire(p, at, stale), false), x);
    if at < x { SlotsApart(p.d, at, x); }
  }

  lemma ResendCopies(p: Part, l: Lane, stale: seq<byte>, x: nat)
    requires LaneInv(p, l) && Enabled(p, l, Send(stale)) && IsSlot(p.d, p.Len(), x)
    ensures var l' := Apply(p, l, Send(stale)); Copies(p, l', x) - Copies(p, l, x) == Sends(l', x) - Sends(l, x)
  {
    hide OnWire, InNet, Arrived, LaneInv;
    HasWork(p, l);
    OneDatagramPerOffset(p, l.sender.sendPtr, stale);
    InNetChange(p, l.net, Packet(OnWire(p, l.sender.sendPtr, stale), true), x);
  }

  lemma NetworkCopies(p: Part, l: Lane, step: Step, x: nat)
    requires LaneInv(p, l) && Enabled(p, l, step) && IsSlot(p.d, p.Len(), x)
    requires step.Deliver? || step.Drop?
    ensures Copies(p, Apply(p, l, step), x) <= Copies(p, l, x)
  {
    hide OnWire, InNet, Arrived, Arrive, Inv, Served, Requests, Control, Tokens;
    InNetChange(p, l.net, step.pk, x);
    if step.Deliver? { ArrivedChange(p, l.receiver, step.pk.dg, x); }
  }

  lemma OtherCopies(p: Part, l: Lane, step: Step, x: nat)
    requires Enabled(p, l, step) && x < p.Len()
    requires !step.SendFirst? && !step.Send? && !step.Deliver? && !step.Drop? && !step.Duplicate?
    ensures Copies(p, Apply(p, l, step), x) == Copies(p, l, x)
    ensures Sends(l, x) <= Sends(Apply(p, l, step), x)
  {
    hide OnWire, InNet, Min;
  }

  /** Sending, losing and receiving keep the balance; only a duplicate would not. */
  lemma CopiesStep(p: Part, l: Lane, step: Step, x: nat)
    requires LaneInv(p, l) && Enabled(p, l, step) && !step.Duplicate? && IsSlot(p.d, p.Len(), x)
    requires Copies(p, l, x) <= Sends(l, x)
    ensures Copies(p, Apply(p, l, step), x) <= Sends(Apply(p, l, step), x)
  {
    hide OnWire, LaneInv, Copies, Min, Enabled;
    match step
    case SendFirst(stale) => FirstSendCopies(p, l, stale, x);
    case Send(stale) => ResendCopies(p, l, stale, x);
    case Deliver(_) => NetworkCopies(p, l, step, x);
    case Drop(_) => NetworkCopies(p, l, step, x);
    case _ => OtherCopies(p, l, step, x);
  }

  // ----- runs -----

  lemma {:induction false} CopiesRun(p: Part, trace: seq<Lane>, steps: seq<Step>, l: Lane, x: nat)
    requires Between(p, UNDUPLICATED, START, trace, steps, l) && IsSlot(p.d, p.Len(), x)
    ensures LaneInv(p, l) && Copies(p, l, x) <= Sends(l, x)
    decreases |steps|
  {
    StartInv(p);
    hide LaneInv, Apply, Enabled;
    if steps != [] {
      var n := |steps| - 1;
      CopiesRun(p, trace[..n + 1], steps[..n], trace[n], x);
      assert Taken(p, UNDUPLICATED, trace[n], steps[n], l);
      StepKeeps(p, trace[n], steps[n]);
      CopiesStep(p, trace[n], steps[n], x);
    }
  }

  lemma {:induction false} IncreasingOnce(q: seq<nat>, x: nat)
    requires Increasing(q)
    ensures multiset(q)[x] <= 1
  {
    if q != [] {
      var n := |q| - 1;
      IncreasingOnce(q[..n], x);
      assert q == q[..n] + [q[n]];
    }
  }

  /** What arrives for a slot: the original and, if the slot was NACKed, one retransmission. */
  lemma ArrivesTwiceAtMost(p: Part, l: Lane, x: nat)
    requires Reaches(p, UNDUPLICATED, l) && IsSlot(p.d, p.Len(), x)
    ensures LaneInv(p, l)
    ensures multiset(l.receiver.log)[x] <= if x in l.receiver.nacked then 2 else 1
  {
    var trace, steps :| Between(p, UNDUPLICATED, START, trace, steps, l);
    CopiesRun(p, trace, steps, l, x);
    ReachesInv(p, UNDUPLICATED, l);
    ServedInOrderOnce(p, l);
    IncreasingOnce(l.sender.resent, x);
    hide LaneInv;
    assert x in multiset(l.sender.resent) ==> x in l.receiver.nacked;
  }

  // ----- short parts -----

  predicate Only(log: seq<nat>, y: nat) {
    forall j :: 0 <= j < |log| ==> log[j] == y
  }

  lemma {:induction false} OnlyOne(log: seq<nat>, y: nat)
    requires Only(log, y)
    ensures multiset(log)[y] == |log|
  {
    if log != [] {
      var n := |log| - 1;
      OnlyOne(log[..n], y);
      assert log == log[..n] + [log[n]];
    }
  }

  lemma OneSlotSum(d: pos, len: nat, log: seq<nat>, y: nat)
    requires SlotLog(d, len, log) && IsSlot(d, len, y) && |log| <= 2
    requires Only(log, y)
    ensures SumSizes(d, len, log) <= |log| * SlotSize(d, len, y)
  {
    if |log| == 1 { assert log == [y]; }
    if |log| == 2 { assert log == [y, y] && log[..1] == [y]; }
  }

  /** What the receiver of a short part has NACKed when only slot y has arrived. */
  lemma NackedAlone(p: Part, r: Receiver, y: nat)
    requires Inv(p, r) && p.Len() <= 2 * p.d && !r.pc.Filling? && IsSlot(p.d, p.Len(), y)
    requires Only(r.log, y)
    ensures y in r.nacked ==> y == p.d < p.Len() && p.gap == AsWritten
  {
    hide GapAccount, ByteCount, HighWater, GapInProgress;
    if y in r.nacked {
      assert BelowArrival(p, r, y);
      var o :| o in r.openers && (y < o || (p.gap == AsWritten && y == o));
      assert o in r.log;
      SlotsApart(p.d, 0, y);
      if p.d < y { SlotsApart(p.d, p.d, y); }
    }
  }

  lemma ShortSum(p: Part, l: Lane, y: nat)
    requires Reaches(p, UNDUPLICATED, l) && p.counting == EveryArrival && !LongEnough(p)
    requires !l.receiver.pc.Filling? && IsSlot(p.d, p.Len(), y) && p.d < p.Len()
    requires Only(l.receiver.log, y)
    ensures l.receiver.recvSize < p.Len()
  {
    ArrivesTwiceAtMost(p, l, y);
    OnlyOne(l.receiver.log, y);
    NackedAlone(p, l.receiver, y);
    OneSlotSum(p.d, p.Len(), l.receiver.log, y);
  }

  lemma FirstOrSecond(p: Part, x: nat)
    requires p.Len() <= 2 * p.d && IsSlot(p.d, p.Len(), x)
    ensures x == 0 || x == p.d
  {
    if x > 0 { SlotsApart(p.d, 0, x); }
    if x > p.d { SlotsApart(p.d, p.d, x); }
  }

  /** The receive loop is over and a slot is missing. */
  ghost predicate LeftIncomplete(p: Part, l: Lane) {
    (l.receiver.pc == Counted || l.receiver.pc == Finished) && !AllIn(p.d, p.Len(), l.receiver.log)
  }

  lemma MissesSlot(p: Part, l: Lane, x: nat)
    requires l.receiver.pc == Finished && IsSlot(p.d, p.Len(), x) && x !in l.receiver.log
    ensures LeftIncomplete(p, l)
  {
  }

  /** A shorter part is complete when its loop is left, unless the network duplicates. */
  lemma ShortIsComplete(p: Part, l: Lane)
    requires Reaches(p, UNDUPLICATED, l) && p.counting == EveryArrival && !LongEnough(p)
    ensures !LeftIncomplete(p, l)
  {
    if LeftIncomplete(p, l) {
      ReachesInv(p, UNDUPLICATED, l);
      var x :| IsSlot(p.d, p.Len(), x) && x !in l.receiver.log;
      LeavesCompleteIff(p, l);
      var y := l.receiver.log[0];
      assert IsSlot(p.d, p.Len(), y) && y in l.receiver.log;
      FirstOrSecond(p, x);
      FirstOrSecond(p, y);
      forall j | 0 <= j < |l.receiver.log| ensures l.receiver.log[j] == y {
        FirstOrSecond(p, l.receiver.log[j]);
      }
      ShortSum(p, l, y);
    }
  }

  lemma ReorderedIsUnduplicated(p: Part, l: Lane)
    requires Reaches(p, REORDERING, l)
    ensures Reaches(p, UNDUPLICATED, l)
  {
    LeadsWithin(p, REORDERING, UNDUPLICATED, START, l);
  }

  /** Exactly when the receive loop can be left with a slot missing. Over a network that does not
      duplicate, whether or not it loses: when every arrival is counted and the part is longer than
      two datagrams, or as written just as long; reordering alone is then enough. */
  lemma ReorderingDefeatsIff(p: Part)
    requires Parameters(p)
    ensures (exists l :: Reaches(p, REORDERING, l) && LeftIncomplete(p, l))
       <==> p.counting == EveryArrival && LongEnough(p)
    ensures (exists l :: Reaches(p, UNDUPLICATED, l) && LeftIncomplete(p, l))
       <==> p.counting == EveryArrival && LongEnough(p)
  {
    hide Reaches, LeftIncomplete, Parameters;
    if p.counting == EveryArrival && LongEnough(p) {
      var l, x := FaultyRun(p);
      MissesSlot(p, l, x);
      ReorderedIsUnduplicated(p, l);
    }
    forall l | Reaches(p, REORDERING, l) ensures Reaches(p, UNDUPLICATED, l) {
      ReorderedIsUnduplicated(p, l);
    }
    forall l | Reaches(p, UNDUPLICATED, l) && LeftIncomplete(p, l)
      ensures p.counting == EveryArrival && LongEnough(p)
    {
      OnlyLongParts(p, l);
    }
  }

  lemma OnlyLongParts(p: Part, l: Lane)
    requires Reaches(p, UNDUPLICATED, l) && LeftIncomplete(p, l)
    ensures p.counting == EveryArrival && LongEnough(p)
  {
    if p.counting == FreshOnly {
      ReachesInv(p, UNDUPLICATED, l);
      LeavesCompleteIff(p, l);
    } else if !LongEnough(p) {
      ShortIsComplete(p, l);
    }
  }

  // ----- a network that duplicates -----

  /** The first slot's datagram comes again and again until the loop has counted enough. */
  lemma {:induction false} Flood(p: Part, l: Lane) returns (l': Lane)
    requires p.counting == EveryArrival && Reachable(p, l) && p.Len() > p.d
    requires First(p, 0) in l.net && l.receiver.pc == Waiting && Only(l.receiver.log, 0)
    ensures Reachable(p, l') && l'.receiver.pc == Counted && Only(l'.receiver.log, 0)
    decreases if l.receiver.recvSize < p.Len() then p.Len() - l.receiver.recvSize else 0
  {
    hide Reachable, LaneInv, Inv, SlotDatagram, Arrive;
    if l.receiver.recvSize < p.Len() {
      ReachableInv(p, l);
      ReceiverInv(p, l);
      ArriveInStep(p, l.receiver, 0);
      ReachableStep(p, l, Duplicate(First(p, 0)));
      var l1 := Apply(p, l, Duplicate(First(p, 0)));
      ReachableStep(p, l1, Deliver(First(p, 0)));
      l' := Flood(p, Apply(p, l1, Deliver(First(p, 0))));
    } else {
      ReachableStep(p, l, LeaveLoop);
      l' := Apply(p, l, LeaveLoop);
    }
  }

  lemma ReceiverInv(p: Part, l: Lane)
    requires LaneInv(p, l)
    ensures Inv(p, l.receiver)
  {
    hide Inv;
  }

  lemma FloodedRun(p: Part) returns (l: Lane)
    requires Parameters(p) && p.counting == EveryArrival && p.Len() > p.d
    ensures Reachable(p, l) && LeftIncomplete(p, l)
  {
    hide SlotDatagram, Leads, Parameters;
    Begin(p, ANYTHING);
    l := FirstSend(p, ANYTHING, START);
    l := Flood(p, l);
    assert IsSlot(p.d, p.Len(), p.d) && p.d !in l.receiver.log;
  }

  lemma OnlyTwoSlots(p: Part, l: Lane)
    requires Reachable(p, l) && LeftIncomplete(p, l)
    ensures p.counting == EveryArrival && p.Len() > p.d
  {
    var x :| IsSlot(p.d, p.Len(), x) && x !in l.receiver.log;
    LeavesCompleteIff(p, l);
    var y := l.receiver.log[0];
    assert IsSlot(p.d, p.Len(), y) && y in l.receiver.log;
    if x > 0 { SlotsApart(p.d, 0, x); }
    if y > 0 { SlotsApart(p.d, 0, y); }
  }

  /** Over a network that may also duplicate: when every arrival is counted and the part is longer
      than one datagram, whichever the gap guard. */
  lemma DuplicationDefeatsIff(p: Part)
    requires Parameters(p)
    ensures (exists l :: Reachable(p, l) && LeftIncomplete(p, l)) <==> p.counting == EveryArrival && p.Len() > p.d
  {
    hide Reachable, LeftIncomplete, Parameters;
    if p.counting == EveryArrival && p.Len() > p.d {
      var l := FloodedRun(p);
    }
    forall l | Reachable(p, l) && LeftIncomplete(p, l) ensures p.counting == EveryArrival && p.Len() > p.d {
      OnlyTwoSlots(p, l);
    }
  }
}
