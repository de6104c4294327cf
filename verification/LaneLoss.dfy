// What the network's losses cost a lane: which slots can still arrive, how that can be read off
// the state, and that what is gone stays gone.
module LaneLoss {
  import opened Bytes
  import opened Slots
  import opened Wire
  import opened Receiving
  import opened Lanes
  import opened LaneRuns
  import opened LanePaths
  import opened LaneMoves
  import opened LaneFaults

  ghost predicate Carried(net: multiset<Packet>, x: nat) {
    exists pk :: pk in net && pk.dg.seqNum == x
  }

  predicate Got(r: Receiver, x: nat) {
    x in r.log || x in Pending(r)
  }

  /** Slot x has arrived, is in flight, or is still to come in the first pass. */
  ghost predicate InReach(l: Lane, x: nat) {
    || Got(l.receiver, x)
    || Carried(l.net, x)
    || (l.sender.pc == FirstPass && l.sender.sendPtr <= x)
  }

  /** Slot x is in reach, or is NACKed and not yet sent again. */
  ghost predicate Alive(l: Lane, x: nat) {
    InReach(l, x) || (x in l.receiver.nacked && x !in l.sender.resent)
  }

  /** The final slot and every missed one is alive. */
  ghost predicate Recoverable(p: Part, l: Lane) {
    forall x: nat :: IsFinal(p, x) || x in l.receiver.missed ==> Alive(l, x)
  }

  // ----- one step -----

  lemma CarriedMore(net: multiset<Packet>, pk: Packet, x: nat)
    ensures Carried(net + multiset{pk}, x) <==> Carried(net, x) || pk.dg.seqNum == x
  {
    if Carried(net, x) {
      var other :| other in net && other.dg.seqNum == x;
      assert other in net + multiset{pk};
    }
    assert pk in net + multiset{pk};
  }

  lemma CarriedLess(net: multiset<Packet>, pk: Packet, x: nat)
    requires pk in net
    ensures Carried(net, x) <==> Carried(net - multiset{pk}, x) || pk.dg.seqNum == x
  {
    if Carried(net, x) && pk.dg.seqNum != x {
      var other :| other in net && other.dg.seqNum == x;
      assert other in net - multiset{pk};
    }
    if Carried(net - multiset{pk}, x) {
      var other :| other in net - multiset{pk} && other.dg.seqNum == x;
      assert other in net;
    }
  }

  lemma ReachSendFirst(p: Part, l: Lane, stale: seq<byte>, x: nat)
    requires LaneInv(p, l) && Enabled(p, l, SendFirst(stale)) && IsSlot(p.d, p.Len(), x)
    ensures InReach(Apply(p, l, SendFirst(stale)), x) == InReach(l, x)
  {
    hide OnWire, Inv, Served, Requests, InFlight, Tokens, Carried, Got;
    var at := l.sender.sendPtr;
    OneDatagramPerOffset(p, at, stale);
    CarriedMore(l.net, Packet(OnWire(p, at, stale), false), x);
    if at < x { SlotsApart(p.d, at, x); }
  }

  lemma GotArrive(p: Part, r: Receiver, dg: Datagram, x: nat)
    requires r.pc == Waiting
    ensures Got(Arrive(p, r, dg), x) <==> Got(r, x) || dg.seqNum == x
  {
  }

  lemma ReachNetwork(p: Part, l: Lane, step: Step, x: nat)
    requires Enabled(p, l, step) && (step.Deliver? || step.Duplicate? || step.Drop?)
    ensures InReach(Apply(p, l, step), x) ==> InReach(l, x)
    ensures InReach(l, x) ==> InReach(Apply(p, l, step), x) || step.Drop?
  {
    hide Carried, Got, Arrive, OnWire;
    CarriedLess(l.net, step.pk, x);
    CarriedMore(l.net, step.pk, x);
    if step.Deliver? { GotArrive(p, l.receiver, step.pk.dg, x); }
  }

  lemma ReachOther(p: Part, l: Lane, step: Step, x: nat)
    requires Enabled(p, l, step) && x < p.Len()
    requires !step.SendFirst? && !step.Send? && !step.Deliver? && !step.Drop? && !step.Duplicate?
    ensures InReach(Apply(p, l, step), x) == InReach(l, x)
  {
    hide OnWire, Carried, Min;
  }

  /** Apart from retransmissions no step brings a slot into reach, and none but a drop takes it
      out. */
  lemma ReachStep(p: Part, l: Lane, step: Step, x: nat)
    requires LaneInv(p, l) && Enabled(p, l, step) && IsSlot(p.d, p.Len(), x) && !step.Send?
    ensures InReach(Apply(p, l, step), x) ==> InReach(l, x)
    ensures InReach(l, x) ==> InReach(Apply(p, l, step), x) || step.Drop?
  {
    hide LaneInv, Enabled, Apply, InReach;
    match step
    case SendFirst(stale) => ReachSendFirst(p, l, stale, x);
    case Deliver(_) => ReachNetwork(p, l, step, x);
    case Drop(_) => ReachNetwork(p, l, step, x);
    case Duplicate(_) => ReachNetwork(p, l, step, x);
    case _ => ReachOther(p, l, step, x);
  }

  lemma AliveSend(p: Part, l: Lane, stale: seq<byte>, x: nat)
    requires LaneInv(p, l) && Enabled(p, l, Send(stale)) && IsSlot(p.d, p.Len(), x)
    ensures Alive(Apply(p, l, Send(stale)), x) == Alive(l, x)
  {
    hide OnWire, Inv, InFlight, Tokens, Carried, Got;
    HasWork(p, l);
    NackedIncreasing(p, l.receiver);
    OneDatagramPerOffset(p, l.sender.sendPtr, stale);
    CarriedMore(l.net, Packet(OnWire(p, l.sender.sendPtr, stale), true), x);
  }

  /** A slot's life ends only with a loss, and starts again only with a new NACK. */
  lemma AliveStep(p: Part, l: Lane, step: Step, x: nat)
    requires LaneInv(p, l) && Enabled(p, l, step) && IsSlot(p.d, p.Len(), x)
    ensures Alive(l, x) ==> Alive(Apply(p, l, step), x) || step.Drop?
    ensures Alive(Apply(p, l, step), x) ==> Alive(l, x) || (step.FillGap? && x == l.receiver.expected)
  {
    hide LaneInv, Enabled, Apply, InReach;
    if step.Send? {
      AliveSend(p, l, step.stale, x);
    } else {
      ReachStep(p, l, step, x);
      NackedBy(p, l, step);
    }
  }

  /** How a step changes the missed set: it adds only what it NACKs, and takes out only what
      arrives or has arrived. */
  lemma MissedStep(p: Part, l: Lane, step: Step, x: nat)
    requires GapAccount(p, l.receiver) && Enabled(p, l, step)
    ensures x in Apply(p, l, step).receiver.missed ==>
      x in l.receiver.missed || (step.FillGap? && x == l.receiver.expected)
    ensures x in l.receiver.missed && !Alive(l, x) ==> x in Apply(p, l, step).receiver.missed
  {
    hide OnWire, Min;
    if step.Deliver? { assert step.pk in l.net; }
  }

  lemma NewNack(p: Part, l: Lane)
    requires LaneInv(p, l) && Enabled(p, l, FillGap)
    ensures GapAccount(p, l.receiver) && l.receiver.expected !in l.receiver.missed
    ensures Alive(Apply(p, l, FillGap), l.receiver.expected)
  {
    hide OnWire, Requests, Control, InFlight, Tokens, HighWater, ByteCount, Silent, GapInProgress, Edges;
    ResentAreNacked(l.sender, l.receiver.nacked, l.handled);
  }

  lemma Accounted(p: Part, l: Lane)
    requires LaneInv(p, l)
    ensures GapAccount(p, l.receiver)
  {
    hide GapAccount;
  }

  lemma MissedIsSlot(p: Part, l: Lane, x: nat)
    requires LaneInv(p, l) && x in l.receiver.missed
    ensures IsSlot(p.d, p.Len(), x) && x !in l.receiver.log
  {
    hide NackRange, HighWater, ByteCount, Edges, Silent, GapInProgress;
  }

  /** The final slot is NACKed only, as written, while its own arrival is being handled. */
  lemma FinalNack(p: Part, l: Lane, f: nat)
    requires LaneInv(p, l) && InGap(p, l.receiver) && IsFinal(p, f) && f == l.receiver.expected
    ensures Got(l.receiver, f)
  {
    hide NackRange, HighWater, ByteCount, Edges, Silent, GapAccount;
    var s := l.receiver.pc.dg.seqNum;
    if f < s { SlotsApart(p.d, f, s); }
  }

  /** Without loss a recoverable lane stays recoverable. */
  lemma RecoverableStep(p: Part, l: Lane, step: Step)
    requires LaneInv(p, l) && Enabled(p, l, step) && !step.Drop? && Recoverable(p, l)
    ensures Recoverable(p, Apply(p, l, step))
  {
    hide LaneInv, Apply, Enabled, Alive, GapAccount;
    var l' := Apply(p, l, step);
    forall x: nat | IsFinal(p, x) || x in l'.receiver.missed ensures Alive(l', x) {
      Accounted(p, l);
      MissedStep(p, l, step, x);
      if x in l.receiver.missed { MissedIsSlot(p, l, x); }
      if step.FillGap? { NewNack(p, l); }
      if IsFinal(p, x) || x in l.receiver.missed { AliveStep(p, l, step, x); }
    }
  }

  /** And whatever the network does, no step makes a lane recoverable that was not. */
  lemma IrrecoverableStep(p: Part, l: Lane, step: Step)
    requires LaneInv(p, l) && Enabled(p, l, step) && Recoverable(p, Apply(p, l, step))
    ensures Recoverable(p, l)
  {
    hide LaneInv, Apply, Enabled, Alive, Got, InGap, GapAccount;
    forall x: nat | IsFinal(p, x) || x in l.receiver.missed ensures Alive(l, x) {
      Accounted(p, l);
      MissedStep(p, l, step, x);
      if x in l.receiver.missed { MissedIsSlot(p, l, x); }
      if step.FillGap? { NewNack(p, l); }
      AliveStep(p, l, step, x);
      if step.FillGap? && x == l.receiver.expected && IsFinal(p, x) {
        FillsGap(p, l);
        FinalNack(p, l, x);
        GotIsAlive(l, x);
      }
    }
  }

  lemma FillsGap(p: Part, l: Lane)
    requires Enabled(p, l, FillGap)
    ensures InGap(p, l.receiver)
  {
  }

  lemma GotIsAlive(l: Lane, x: nat)
    requires Got(l.receiver, x)
    ensures Alive(l, x)
  {
  }

  lemma CompleteIsRecoverable(p: Part, l: Lane)
    requires LaneInv(p, l) && AllIn(p.d, p.Len(), l.receiver.log)
    ensures Recoverable(p, l)
  {
    hide LaneInv;
    forall x: nat | IsFinal(p, x) || x in l.receiver.missed ensures Alive(l, x) {
      if x in l.receiver.missed { MissedIsSlot(p, l, x); }
    }
  }

  /** So no continuation at all completes a lane that is not recoverable. */
  lemma {:induction false} LostForGood(p: Part, m: Mode, trace: seq<Lane>, steps: seq<Step>, l: Lane)
    requires |steps| < |trace| && LaneInv(p, trace[0]) && !Recoverable(p, trace[0])
    requires Between(p, m, trace[0], trace, steps, l)
    ensures LaneInv(p, l) && !Recoverable(p, l) && !AllIn(p.d, p.Len(), l.receiver.log)
    decreases |steps|
  {
    hide LaneInv, Apply, Enabled, Recoverable;
    if steps != [] {
      var n := |steps| - 1;
      LostForGood(p, m, trace[..n + 1], steps[..n], trace[n]);
      assert Taken(p, m, trace[n], steps[n], trace[n + 1]);
      StepKeeps(p, trace[n], steps[n]);
      if Recoverable(p, l) { IrrecoverableStep(p, trace[n], steps[n]); }
    }
    if AllIn(p.d, p.Len(), l.receiver.log) { CompleteIsRecoverable(p, l); }
  }

  // ----- the lost tail -----

  /** Quiet, and short of the bytes that would end the loop. */
  predicate Hung(p: Part, l: Lane) {
    Quiet(l) && l.receiver.recvSize < p.Len()
  }

  lemma HungStep(p: Part, l: Lane, step: Step)
    requires Hung(p, l) && Enabled(p, l, step)
    ensures Hung(p, Apply(p, l, step)) && Apply(p, l, step).receiver == l.receiver
  {
    hide OnWire, Min;
  }

  /** A receiver that waits for what nobody will send waits for ever. */
  lemma {:induction false} HungForGood(p: Part, m: Mode, trace: seq<Lane>, steps: seq<Step>, l: Lane)
    requires |steps| < |trace| && Hung(p, trace[0]) && Between(p, m, trace[0], trace, steps, l)
    ensures Hung(p, l) && l.receiver == trace[0].receiver
    decreases |steps|
  {
    hide Apply, Enabled, Hung;
    if steps != [] {
      var n := |steps| - 1;
      HungForGood(p, m, trace[..n + 1], steps[..n], trace[n]);
      assert Taken(p, m, trace[n], steps[n], trace[n + 1]);
      HungStep(p, trace[n], steps[n]);
    }
  }

  /** For every part that is not empty, as written or repaired: everything is received in order but
      the final slot, whose one datagram is dropped. No gap ever shows, so nothing is NACKed. */
  lemma LostTail(p: Part) returns (l: Lane, f: nat)
    requires Parameters(p) && p.Len() > 0
    ensures Reaches(p, LOSING_ALONE, l) && Hung(p, l) && IsFinal(p, f) && l.receiver.nacked == []
    ensures forall x: nat :: x in l.receiver.log <==> IsSlot(p.d, p.Len(), x) && x != f
  {
    var m := LOSING_ALONE;
    f := FinalSlot(p);
    hide Reaches, SlotDatagram, Parameters;
    Begin(p, m);
    l := Stream(p, m, START, f);
    l := FirstSend(p, m, l);
    l := Take(p, m, l, EndFirst);
    l := Take(p, m, l, Drop(First(p, f)));
    forall x: nat | IsSlot(p.d, p.Len(), x) && x != f ensures x < f {
      if x > f { SlotsApart(p.d, f, x); }
    }
    assert l.net == multiset{};
  }

  // ----- the lost retransmission -----

  /** For every part of two datagrams or more, as written or repaired: the first slot is dropped, seen
      to be missing, NACKed, sent again and dropped again, while every other slot arrives. It is not
      NACKed a second time, so whatever follows the part is never complete. */
  lemma LostTwice(p: Part) returns (l: Lane)
    requires Parameters(p) && p.Len() > p.d
    ensures Reaches(p, LOSING, l) && l.lost == {0} && 0 in l.receiver.missed
    ensures forall x: nat :: x in l.receiver.log <==> IsSlot(p.d, p.Len(), x) && x != 0
    ensures forall m, l' :: Leads(p, m, l, l') ==> !AllIn(p.d, p.Len(), l'.receiver.log)
  {
    TwoSlots(p);
    SlotFacts(p, 0);
    hide Reaches, SlotDatagram, Parameters, AllIn, IsSlot;
    l := AllButFirst(p, LOSING);
    l := ServeNack(p, LOSING, l, 0);
    l := Take(p, LOSING, l, Drop(Packet(SlotDatagram(p, 0), true)));
    assert l.net == multiset{} && l.lost == {0};
    FirstIsMissed(p, l);
    NeverComplete(p, l, 0);
  }

  /** Every slot but the first arrives, the second one before the others. */
  lemma AllButFirst(p: Part, m: Mode) returns (l: Lane)
    requires Parameters(p) && p.Len() > p.d && m.drops && m.stays
    ensures Reaches(p, m, l) && l.net == multiset{} && l.lost == {}
    ensures l.sender == Sender(CheckEmpty, p.Len(), {}, []) && l.handled == 0
    ensures l.receiver.pc == Waiting && l.receiver.nacked != [] && l.receiver.nacked[0] == 0 < l.receiver.expected
    ensures forall x: nat :: x in l.receiver.log <==> IsSlot(p.d, p.Len(), x) && x != 0
  {
    var d: nat := p.d;
    TwoSlots(p);
    SlotFacts(p, d);
    forall x: nat | IsSlot(p.d, p.Len(), x) && x != 0 && x != d ensures x >= d + SlotSize(p.d, p.Len(), d) {
      SlotsApart(p.d, 0, x);
      SlotsApart(p.d, d, x);
    }
    hide Reaches, SlotDatagram, Parameters, IsSlot;
    l := SecondSlotFirst(p, m);
    l := Take(p, m, l, Drop(First(p, 0)));
    assert l.net == multiset{};
    l := Stream(p, m, l, p.Len());
    l := EndOfFirstPass(p, m, l);
  }

  lemma FirstIsMissed(p: Part, l: Lane)
    requires Reaches(p, LOSING, l) && IsSlot(p.d, p.Len(), 0) && 0 !in l.receiver.log && 0 < l.receiver.expected
    requires l.receiver.pc == Waiting
    ensures LaneInv(p, l) && 0 in l.receiver.missed
  {
    ReachesInv(p, LOSING, l);
    hide ByteCount, HighWater, NackRange, Silent, Edges;
  }

  lemma NeverComplete(p: Part, l: Lane, x: nat)
    requires LaneInv(p, l) && x in l.receiver.missed && !Alive(l, x)
    ensures forall m, l' :: Leads(p, m, l, l') ==> !AllIn(p.d, p.Len(), l'.receiver.log)
  {
    hide LaneInv, Alive, AllIn;
    assert !Recoverable(p, l);
    forall m, l' | Leads(p, m, l, l') ensures !AllIn(p.d, p.Len(), l'.receiver.log) {
      var trace, steps :| Between(p, m, l, trace, steps, l');
      LostForGood(p, m, trace, steps, l');
    }
  }

  // ----- no loss, no hang -----

  /** Without loss every slot stays alive. */
  lemma {:induction false} EverySlotAlive(p: Part, trace: seq<Lane>, steps: seq<Step>, l: Lane, x: nat)
    requires Between(p, UNDROPPED, START, trace, steps, l) && IsSlot(p.d, p.Len(), x)
    ensures LaneInv(p, l) && Alive(l, x)
    decreases |steps|
  {
    StartInv(p);
    hide LaneInv, Apply, Enabled;
    if steps != [] {
      var n := |steps| - 1;
      EverySlotAlive(p, trace[..n + 1], steps[..n], trace[n], x);
      assert Taken(p, UNDROPPED, trace[n], steps[n], l);
      StepKeeps(p, trace[n], steps[n]);
      AliveStep(p, trace[n], steps[n], x);
    }
  }

  /** A quiet lane in which every slot is alive has received them all. */
  lemma QuietHasAll(p: Part, l: Lane, x: nat)
    requires LaneInv(p, l) && Quiet(l) && Alive(l, x)
    ensures x in l.receiver.log
  {
    hide Inv;
    if x in l.receiver.nacked { WhereIsNack(p, l, x); }
  }

  lemma AllInIsCounted(p: Part, l: Lane)
    requires LaneInv(p, l) && l.receiver.pc == Waiting && AllIn(p.d, p.Len(), l.receiver.log)
    ensures l.receiver.recvSize >= p.Len()
  {
    BytesInFullIff(p.d, p.Len(), l.receiver.log);
    SumSplits(p.d, p.Len(), l.receiver.log);
  }

  lemma NoLossNoHang(p: Part, l: Lane)
    requires Reaches(p, UNDROPPED, l)
    ensures !Hung(p, l)
  {
    hide LaneInv, AllIn, Alive;
    ReachesInv(p, UNDROPPED, l);
    if Hung(p, l) {
      var trace, steps :| Between(p, UNDROPPED, START, trace, steps, l);
      forall x: nat | IsSlot(p.d, p.Len(), x) ensures x in l.receiver.log {
        EverySlotAlive(p, trace, steps, l, x);
        QuietHasAll(p, l, x);
      }
      AllInWhen(p, l);
      AllInIsCounted(p, l);
    }
  }

  lemma AllInWhen(p: Part, l: Lane)
    requires forall x: nat :: IsSlot(p.d, p.Len(), x) ==> x in l.receiver.log
    ensures AllIn(p.d, p.Len(), l.receiver.log)
  {
  }

  /** In every variant and over every kind of network: a part can hang exactly if it is not empty
      and the network drops; reordering and duplication alone never make it hang. */
  lemma HangsIff(p: Part, m: Mode)
    requires Parameters(p)
    ensures (exists l :: Reaches(p, m, l) && Hung(p, l)) <==> p.Len() > 0 && m.drops
  {
    hide Reaches, Hung, Parameters, Leads;
    if m.drops && p.Len() > 0 {
      var l, f := LostTail(p);
      LosesWithin(p, m, l);
    }
    forall l | Reaches(p, m, l) && Hung(p, l) ensures p.Len() > 0 && m.drops {
      HungIsNotEmpty(p, l);
      if !m.drops {
        KeepsWithin(p, m, l);
        NoLossNoHang(p, l);
      }
    }
  }

  lemma HungIsNotEmpty(p: Part, l: Lane)
    requires Hung(p, l)
    ensures p.Len() > 0
  {
  }

  lemma LosesWithin(p: Part, m: Mode, l: Lane)
    requires Reaches(p, LOSING_ALONE, l) && m.drops
    ensures Reaches(p, m, l)
  {
    LeadsWithin(p, LOSING_ALONE, m, START, l);
  }

  lemma KeepsWithin(p: Part, m: Mode, l: Lane)
    requires Reaches(p, m, l) && !m.drops
    ensures Reaches(p, UNDROPPED, l)
  {
    LeadsWithin(p, m, UNDROPPED, START, l);
  }
}
