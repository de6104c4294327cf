// With both repairs: exactly which states of a lane can still be completed without further loss,
// and a run that does it.
module LaneProgress {
  import opened Slots
  import opened Wire
  import opened Receiving
  import opened Lanes
  import opened LaneRuns
  import opened LanePaths
  import opened LaneLoss

  /** What every state on the way keeps. */
  ghost predicate OnWay(p: Part, m: Mode, a: Lane, l: Lane) {
    Leads(p, m, a, l) && LaneInv(p, l) && (Recoverable(p, a) ==> Recoverable(p, l))
  }

  lemma Go(p: Part, m: Mode, a: Lane, l: Lane, step: Step) returns (l': Lane)
    requires OnWay(p, m, a, l) && Enabled(p, l, step) && Allowed(m, step) && !step.Drop?
    ensures l' == Apply(p, l, step) && OnWay(p, m, a, l')
  {
    hide Apply, Enabled, LaneInv, Recoverable, Leads;
    l' := Then(p, m, a, l, step);
    StepKeeps(p, l, step);
    if Recoverable(p, l) { RecoverableStep(p, l, step); }
  }

  /** The gap loop in progress comes to its end. */
  lemma {:induction false} EndTheGap(p: Part, m: Mode, a: Lane, l: Lane) returns (l': Lane)
    requires OnWay(p, m, a, l)
    requires l.receiver.pc == Waiting || l.receiver.pc.Filling?
    ensures OnWay(p, m, a, l') && l'.receiver.pc == Waiting
    ensures l'.sender == l.sender && l'.net == l.net
    ensures forall x :: Got(l.receiver, x) ==> x in l'.receiver.log
    decreases if InGap(p, l.receiver) then l.receiver.pc.dg.seqNum - l.receiver.expected + 1 else 0
  {
    hide OnWay;
    if InGap(p, l.receiver) {
      var l1 := Go(p, m, a, l, FillGap);
      l' := EndTheGap(p, m, a, l1);
    } else if l.receiver.pc.Filling? {
      l' := Go(p, m, a, l, EndGap);
    } else {
      l' := l;
    }
  }

  lemma {:induction false} EndTheFirstPass(p: Part, m: Mode, a: Lane, l: Lane) returns (l': Lane)
    requires Parameters(p) && OnWay(p, m, a, l) && l.sender.pc == FirstPass
    ensures OnWay(p, m, a, l') && l'.receiver == l.receiver && l'.sender.pc == CheckDone
    decreases if l.sender.sendPtr < p.Len() then p.Len() - l.sender.sendPtr else 0
  {
    hide OnWay, OnWire;
    if l.sender.sendPtr < p.Len() {
      var l1 := Go(p, m, a, l, SendFirst(seq(p.d + 8, _ => 0)));
      l' := EndTheFirstPass(p, m, a, l1);
    } else {
      l' := Go(p, m, a, l, EndFirst);
    }
  }

  lemma WayHasWork(p: Part, m: Mode, a: Lane, l: Lane)
    requires OnWay(p, m, a, l)
    ensures l.sender.pc == Resend ==> l.sender.sendPtr < p.Len()
    ensures l.sender.pc == EraseBegin || l.sender.pc == ReadBegin ==> l.sender.requests != {}
    ensures |l.sender.resent| <= l.handled <= |l.receiver.nacked|
  {
    HasWork(p, l);
  }

  /** A round of the resend loop comes to its end. */
  lemma EndTheRound(p: Part, m: Mode, a: Lane, l: Lane) returns (l': Lane)
    requires Parameters(p) && OnWay(p, m, a, l)
    requires l.sender.pc != FirstPass && l.sender.pc != CheckDone && l.sender.pc != Stopped
    ensures OnWay(p, m, a, l') && l'.receiver == l.receiver && l'.handled == l.handled
    ensures l'.sender.pc == CheckEmpty
    ensures l.sender.pc == ReadBegin ==> |l'.sender.resent| == |l.sender.resent| + 1
  {
    hide OnWay, OnWire, Min;
    l' := l;
    WayHasWork(p, m, a, l');
    if l'.sender.pc == ReadBegin { l' := Go(p, m, a, l', Read); }
    WayHasWork(p, m, a, l');
    if l'.sender.pc == Resend { l' := Go(p, m, a, l', Send(seq(p.d + 8, _ => 0))); }
    WayHasWork(p, m, a, l');
    if l'.sender.pc == EraseBegin { l' := Go(p, m, a, l', Erase); }
  }

  /** Wherever the sender is, it comes back to the test for an empty set. */
  lemma BackToTest(p: Part, m: Mode, a: Lane, l: Lane) returns (l': Lane)
    requires Parameters(p) && OnWay(p, m, a, l) && m.stays && l.sender.pc != Stopped
    ensures OnWay(p, m, a, l') && l'.receiver == l.receiver && l'.sender.pc == CheckEmpty
  {
    hide OnWay, Parameters;
    l' := l;
    if l'.sender.pc == FirstPass { l' := EndTheFirstPass(p, m, a, l'); }
    if l'.sender.pc == CheckDone { l' := Go(p, m, a, l', SeeNotDone); }
    l' := EndTheRound(p, m, a, l');
  }

  // ----- first the final slot -----

  lemma RoomLeft(p: Part, l: Lane, x: nat)
    requires LaneInv(p, l) && p.counting == FreshOnly && l.receiver.pc == Waiting
    requires IsSlot(p.d, p.Len(), x) && x !in l.receiver.log
    ensures l.receiver.recvSize < p.Len()
  {
    MissingCosts(p.d, p.Len(), l.receiver.log, x, 0);
  }

  /** An alive slot that has not arrived is in flight once every NACK has been served. */
  lemma InFlightNow(p: Part, l: Lane, x: nat) returns (pk: Packet)
    requires LaneInv(p, l) && Alive(l, x) && l.receiver.pc == Waiting && l.sender.pc == CheckEmpty
    requires x !in l.receiver.log && (x in l.receiver.nacked ==> x in l.sender.resent)
    ensures pk in l.net && pk.dg.seqNum == x
  {
    hide LaneInv;
    pk :| pk in l.net && pk.dg.seqNum == x;
  }

  /** The tail of the part is in: nothing beyond it can hide. */
  ghost predicate TailIn(p: Part, l: Lane) {
    forall f: nat :: IsFinal(p, f) ==> f in l.receiver.log
  }

  lemma FinalNacked(p: Part, l: Lane, f: nat)
    requires LaneInv(p, l) && IsFinal(p, f) && f in l.receiver.nacked
    ensures Got(l.receiver, f)
  {
    hide GapAccount, ByteCount, HighWater, Served, Requests, Control, InFlight, Tokens;
    assert BelowArrival(p, l.receiver, f);
    var o :| o in l.receiver.openers && (f < o || (p.gap == AsWritten && f == o));
    if f < o { SlotsApart(p.d, f, o); }
  }

  lemma DeliverTail(p: Part, m: Mode, a: Lane, l: Lane, f: nat) returns (l': Lane)
    requires p.counting == FreshOnly && OnWay(p, m, a, l) && Recoverable(p, a)
    requires IsFinal(p, f) && f !in l.receiver.log
    requires l.receiver.pc == Waiting && l.sender.pc == CheckEmpty
    ensures OnWay(p, m, a, l') && l'.receiver.pc == Waiting && l'.sender == l.sender && f in l'.receiver.log
  {
    hide LaneInv, Alive, Leads;
    RoomLeft(p, l, f);
    if f in l.receiver.nacked { FinalNacked(p, l, f); }
    var pk := InFlightNow(p, l, f);
    hide OnWay;
    var l1 := Go(p, m, a, l, Deliver(pk));
    l' := EndTheGap(p, m, a, l1);
  }

  lemma OneFinal(p: Part, f: nat, g: nat)
    requires IsFinal(p, f) && IsFinal(p, g)
    ensures f == g
  {
    if f < g { SlotsApart(p.d, f, g); }
    if g < f { SlotsApart(p.d, g, f); }
  }

  /** Ready to be finished: the receiver waits, its tail is in, and the sender tests its set. */
  ghost predicate Prepared(p: Part, l: Lane) {
    l.receiver.pc == Waiting && l.sender.pc == CheckEmpty && TailIn(p, l)
  }

  lemma Prepare(p: Part, m: Mode, a: Lane, l: Lane) returns (l': Lane)
    requires Parameters(p) && p.counting == FreshOnly && OnWay(p, m, a, l) && Recoverable(p, a) && m.stays
    requires l.sender.pc != Stopped && (l.receiver.pc == Waiting || l.receiver.pc.Filling?)
    ensures OnWay(p, m, a, l') && Prepared(p, l')
  {
    hide OnWay, IsFinal, Parameters, Recoverable;
    l' := EndTheGap(p, m, a, l);
    l' := BackToTest(p, m, a, l');
    if f: nat :| IsFinal(p, f) && f !in l'.receiver.log {
      l' := DeliverTail(p, m, a, l', f);
      forall g: nat | IsFinal(p, g) ensures g in l'.receiver.log {
        OneFinal(p, f, g);
      }
    }
  }

  // ----- then the NACKs -----

  lemma {:induction false} TakeAllNacks(p: Part, m: Mode, a: Lane, l: Lane) returns (l': Lane)
    requires OnWay(p, m, a, l) && m.takes && Prepared(p, l)
    ensures OnWay(p, m, a, l') && Prepared(p, l') && l'.handled == |l'.receiver.nacked|
    decreases |l.receiver.nacked| - l.handled
  {
    WayHasWork(p, m, a, l);
    hide OnWay;
    if l.handled < |l.receiver.nacked| {
      var l1 := Go(p, m, a, l, TakeNack);
      l' := TakeAllNacks(p, m, a, l1);
    } else {
      l' := l;
    }
  }

  lemma Unserved(p: Part, l: Lane)
    requires LaneInv(p, l) && l.sender.pc == CheckEmpty && l.sender.requests != {}
    ensures |l.sender.resent| < l.handled
  {
    var x :| x in l.sender.requests;
    assert x in l.receiver.nacked[Base(l.sender)..l.handled];
  }

  lemma {:induction false} ServeAll(p: Part, m: Mode, a: Lane, l: Lane) returns (l': Lane)
    requires Parameters(p) && OnWay(p, m, a, l) && l.sender.pc == CheckEmpty
    ensures OnWay(p, m, a, l') && l'.receiver == l.receiver && l'.handled == l.handled
    ensures l'.sender.pc == CheckEmpty && l'.sender.requests == {}
    decreases l.handled - |l.sender.resent|
  {
    WayHasWork(p, m, a, l);
    if l.sender.requests == {} {
      l' := l;
    } else {
      Unserved(p, l);
      hide OnWay, Parameters;
      var l1 := Go(p, m, a, l, SeeNonempty);
      var l2 := EndTheRound(p, m, a, l1);
      WayHasWork(p, m, a, l2);
      l' := ServeAll(p, m, a, l2);
    }
  }

  lemma AllServed(p: Part, l: Lane, x: nat)
    requires LaneInv(p, l) && l.sender.requests == {} && l.handled == |l.receiver.nacked|
    ensures x in l.receiver.nacked ==> x in l.sender.resent
  {
    hide Inv;
    if x in l.receiver.nacked { WhereIsNack(p, l, x); }
  }

  // ----- and the missed slots -----

  lemma MissedFacts(p: Part, l: Lane, x: nat)
    requires LaneInv(p, l) && x in l.receiver.missed
    ensures IsSlot(p.d, p.Len(), x) && x !in l.receiver.log && x < l.receiver.expected
  {
    hide NackRange, HighWater, ByteCount, Edges, Silent, GapInProgress;
  }

  lemma MissedInFlight(p: Part, m: Mode, a: Lane, l: Lane, x: nat) returns (pk: Packet)
    requires OnWay(p, m, a, l) && Recoverable(p, a) && p.counting == FreshOnly && Prepared(p, l)
    requires l.sender.requests == {} && l.handled == |l.receiver.nacked| && x in l.receiver.missed
    ensures Enabled(p, l, Deliver(pk)) && pk.dg.seqNum == x < l.receiver.expected
  {
    hide LaneInv, Alive, IsSlot, IsFinal, Leads;
    MissedFacts(p, l, x);
    AllServed(p, l, x);
    RoomLeft(p, l, x);
    pk := InFlightNow(p, l, x);
  }

  lemma LateArrival(p: Part, l: Lane, l': Lane, dg: Datagram)
    requires Prepared(p, l) && dg.seqNum < l.receiver.expected && dg.seqNum in l.receiver.missed
    requires l'.receiver == Arrive(p, l.receiver, dg) && l'.sender == l.sender
    ensures Prepared(p, l') && l'.receiver.missed < l.receiver.missed && l'.receiver.nacked == l.receiver.nacked
  {
    hide IsFinal;
  }

  lemma {:induction false} DeliverMissed(p: Part, m: Mode, a: Lane, l: Lane) returns (l': Lane)
    requires OnWay(p, m, a, l) && Recoverable(p, a) && p.counting == FreshOnly && Prepared(p, l)
    requires l.sender.requests == {} && l.handled == |l.receiver.nacked|
    ensures OnWay(p, m, a, l') && Prepared(p, l') && l'.receiver.missed == {}
    decreases l.receiver.missed
  {
    hide OnWay, Prepared, Arrive, Enabled, Recoverable;
    if l.receiver.missed == {} {
      l' := l;
    } else {
      var x :| x in l.receiver.missed;
      var pk := MissedInFlight(p, m, a, l, x);
      var l1 := Go(p, m, a, l, Deliver(pk));
      LateArrival(p, l, l1, pk.dg);
      l' := DeliverMissed(p, m, a, l1);
    }
  }

  lemma NothingMissedIsAll(p: Part, l: Lane)
    requires LaneInv(p, l) && p.gap == Repaired && p.counting == FreshOnly
    requires Prepared(p, l) && l.receiver.missed == {}
    ensures AllIn(p.d, p.Len(), l.receiver.log) && l.receiver.recvSize == p.Len()
  {
    forall x: nat | IsSlot(p.d, p.Len(), x) ensures x in l.receiver.log {
      var f := SlotOf(p.d, p.Len(), p.Len() - 1);
      assert IsFinal(p, f);
      if x > f { SlotsApart(p.d, f, x); }
    }
    BytesInFullIff(p.d, p.Len(), l.receiver.log);
  }

  lemma Finish(p: Part, m: Mode, a: Lane, l: Lane) returns (l': Lane)
    requires Parameters(p) && p.gap == Repaired && p.counting == FreshOnly && OnWay(p, m, a, l) && Recoverable(p, a)
    requires Prepared(p, l) && l.handled == |l.receiver.nacked|
    ensures OnWay(p, m, a, l') && l'.receiver.pc == Waiting
    ensures AllIn(p.d, p.Len(), l'.receiver.log) && l'.receiver.recvSize == p.Len()
  {
    l' := ServeAll(p, m, a, l);
    l' := DeliverMissed(p, m, a, l');
    hide Leads, LaneInv, Recoverable;
    NothingMissedIsAll(p, l');
  }

  /** From a prepared state with every NACK taken, or from outside its loop, the receiver comes to
      its end. */
  lemma Retire(p: Part, m: Mode, a: Lane, l: Lane) returns (l': Lane)
    requires Parameters(p) && p.gap == Repaired && p.counting == FreshOnly && OnWay(p, m, a, l) && Recoverable(p, a)
    requires (Prepared(p, l) && l.handled == |l.receiver.nacked|)
      || l.receiver.pc == Counted || l.receiver.pc == Finished
    ensures OnWay(p, m, a, l') && l'.receiver.pc == Finished
  {
    hide OnWay, Parameters, AllIn, Recoverable;
    l' := l;
    if l'.receiver.pc == Waiting {
      l' := Finish(p, m, a, l');
      l' := Go(p, m, a, l', LeaveLoop);
    }
    if l'.receiver.pc == Counted { l' := Go(p, m, a, l', CountDone); }
  }

  // ----- the end of the sender -----

  /** Once the sentinel has arrived, the sender stops, wherever it is: first it finishes its pass or
      serves what it finds in its set. */
  lemma ComeToStop(p: Part, m: Mode, a: Lane, l: Lane) returns (l': Lane)
    requires Parameters(p) && OnWay(p, m, a, l) && m.ends
    ensures OnWay(p, m, a, l') && l'.receiver == l.receiver && l'.sender.pc == Stopped
  {
    hide OnWay, Parameters;
    l' := l;
    if l'.sender.pc == FirstPass {
      l' := EndTheFirstPass(p, m, a, l');
    } else if l'.sender.pc != CheckDone && l'.sender.pc != Stopped {
      l' := EndTheRound(p, m, a, l');
      l' := ServeAll(p, m, a, l');
      l' := Go(p, m, a, l', SeeEmpty);
    }
    if l'.sender.pc == CheckDone { l' := Go(p, m, a, l', SeeDone); }
  }

  // ----- the theorem -----

  lemma Completion(p: Part, l: Lane) returns (l': Lane)
    requires Parameters(p) && p.gap == Repaired && p.counting == FreshOnly
    requires Reachable(p, l) && l.sender.pc != Stopped && Recoverable(p, l)
    ensures Leads(p, REORDERING, l, l') && AllIn(p.d, p.Len(), l'.receiver.log) && l'.receiver.recvSize == p.Len()
  {
    ReachableInv(p, l);
    Stay(p, REORDERING, l);
    hide Leads, LaneInv, Recoverable, Parameters, Reachable, Prepared;
    if l.receiver.pc == Waiting || l.receiver.pc.Filling? {
      l' := Prepare(p, REORDERING, l, l);
      l' := TakeAllNacks(p, REORDERING, l, l');
      l' := Finish(p, REORDERING, l, l');
    } else {
      l' := l;
      LeftIsComplete(p, l);
    }
  }

  lemma LeftIsComplete(p: Part, l: Lane)
    requires Reachable(p, l) && p.counting == FreshOnly
    requires l.receiver.pc == Counted || l.receiver.pc == Finished
    ensures AllIn(p.d, p.Len(), l.receiver.log) && l.receiver.recvSize == p.Len()
  {
    if p.Len() > 0 {
      LeavesCompleteIff(p, l);
    } else {
      ReachableInv(p, l);
      assert l.receiver.log == [];
    }
  }

  /** With both repairs, from any reachable state before the sentinel, whatever has been lost so
      far: the part can still be completed, and by a continuation without further loss or
      duplication, if and only if the final slot and every missed slot is still alive. */
  lemma CompletableIff(p: Part, l: Lane)
    requires Parameters(p) && p.gap == Repaired && p.counting == FreshOnly
    requires Reachable(p, l) && l.sender.pc != Stopped
    ensures (exists l' :: Leads(p, REORDERING, l, l') && AllIn(p.d, p.Len(), l'.receiver.log)) <==> Recoverable(p, l)
    ensures (exists l' :: Leads(p, ANYTHING, l, l') && AllIn(p.d, p.Len(), l'.receiver.log)) <==> Recoverable(p, l)
  {
    ReachableInv(p, l);
    hide LaneInv, Recoverable, Parameters, Reachable, AllIn;
    if Recoverable(p, l) {
      var l' := Completion(p, l);
      LeadsWithin(p, REORDERING, ANYTHING, l, l');
    } else {
      forall m, l' | Leads(p, m, l, l') ensures !AllIn(p.d, p.Len(), l'.receiver.log) {
        var trace, steps :| Between(p, m, l, trace, steps, l');
        LostForGood(p, m, trace, steps, l');
      }
    }
  }

  /** In particular, as long as no retransmission has been dropped, all that matters is the final
      slot: arrived, in flight, or still to come in the first pass. */
  lemma OnlyTheTailCounts(p: Part, l: Lane, f: nat)
    requires Reachable(p, l) && IsFinal(p, f) && l.lost == {}
    ensures Recoverable(p, l) <==>
      Got(l.receiver, f) || Carried(l.net, f) || (l.sender.pc == FirstPass && l.sender.sendPtr <= f)
  {
    ReachableInv(p, l);
    hide LaneInv, Got;
    if f in l.receiver.nacked { FinalNacked(p, l, f); }
    forall x: nat | x in l.receiver.missed ensures Alive(l, x) {
      MissedToken(p, l, x);
    }
    forall g: nat | IsFinal(p, g) ensures g == f {
      OneFinal(p, f, g);
    }
  }

  lemma MissedToken(p: Part, l: Lane, x: nat)
    requires LaneInv(p, l) && x in l.receiver.missed && l.lost == {}
    ensures Alive(l, x)
  {
    hide GapAccount, ByteCount, HighWater, GapInProgress, Edges, Silent, Served, Requests, Control, InFlight;
    if x in l.sender.resent {
      var pk :| pk in l.net && pk.again && pk.dg.seqNum == x;
      assert Carried(l.net, x);
    }
  }
}
