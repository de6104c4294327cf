// What holds in every reachable state of a lane, through loss, reordering and duplication.
module LaneRuns {
  import opened Slots
  import opened Receiving
  import opened Lanes
  import opened LanePaths

  /** Only the gap loop issues a NACK, only nackHandler takes one, and only a send serves it. */
  lemma NackedBy(p: Part, l: Lane, step: Step)
    requires Enabled(p, l, step)
    ensures var l' := Apply(p, l, step);
      && l'.receiver.nacked == l.receiver.nacked + (if step.FillGap? then [l.receiver.expected] else [])
      && (!step.TakeNack? ==> l'.handled == l.handled)
      && (!step.Send? ==> l'.sender.resent == l.sender.resent)
  {
    hide OnWire, Min;
  }

  /** No request token is ever lost inside the two programs: every offset the receiver misses is
      on the TCP connection, in the sender's set, in flight as a retransmission, or its
      retransmission was dropped by the network. */
  lemma NackConservation(p: Part, l: Lane)
    requires Reachable(p, l)
    ensures l.handled <= |l.receiver.nacked|
    ensures forall x :: x in l.receiver.missed ==>
      || x in l.receiver.nacked[l.handled..]
      || x in l.sender.requests
      || Retransmitted(l.net, x)
      || x in l.lost
  {
    ReachableInv(p, l);
    forall x | x in l.receiver.missed
      ensures x in l.receiver.nacked[l.handled..] || x in l.sender.requests || Retransmitted(l.net, x) || x in l.lost
    {
      WhereIsNack(p, l, x);
    }
  }

  /** Where a NACK can be: served, waiting in the sender's set, or on the TCP connection. */
  lemma WhereIsNack(p: Part, l: Lane, x: nat)
    requires LaneInv(p, l) && x in l.receiver.nacked
    ensures x in l.sender.resent || x in l.sender.requests || x in l.receiver.nacked[l.handled..]
  {
    hide Inv, Control, InFlight, Tokens;
    var nacked := l.receiver.nacked;
    var j :| 0 <= j < |nacked| && nacked[j] == x;
    if j >= l.handled {
      assert nacked[l.handled..][j - l.handled] == x;
    } else if j >= Base(l.sender) {
      assert nacked[Base(l.sender)..l.handled][j - Base(l.sender)] == x;
    } else {
      assert l.sender.resent[j] == x;
    }
  }

  /** The sender serves the NACKs in the order they were issued, each exactly once; what its
      erase removes is what its unlocked read returned, and no request leaves the set unsent. */
  lemma ServedInOrderOnce(p: Part, l: Lane)
    requires Reachable(p, l)
    ensures |l.sender.resent| <= l.handled <= |l.receiver.nacked|
    ensures l.sender.resent == l.receiver.nacked[..|l.sender.resent|]
    ensures Increasing(l.sender.resent)
    ensures l.sender.pc == Resend ==> l.sender.sendPtr in l.sender.requests && l.sender.sendPtr !in l.sender.resent
    ensures l.sender.pc == EraseBegin ==>
      && l.sender.requests != {} && Min(l.sender.requests) == l.sender.sendPtr
      && l.sender.resent != [] && l.sender.resent[|l.sender.resent| - 1] == l.sender.sendPtr
    ensures forall x :: x in l.receiver.nacked ==>
      x in l.sender.resent || x in l.sender.requests || x in l.receiver.nacked[l.handled..]
  {
    ReachableInv(p, l);
    hide Edges, GapAccount, HighWater, ByteCount, GapInProgress, InFlight, Tokens;
    if l.sender.pc == EraseBegin { EraseRemovesWhatWasSent(p, l); }
    if l.sender.pc == Resend { BeginIsOldest(l.sender, l.receiver.nacked, l.handled); }
    forall x | x in l.receiver.nacked
      ensures x in l.sender.resent || x in l.sender.requests || x in l.receiver.nacked[l.handled..]
    {
      WhereIsNack(p, l, x);
    }
  }

  /** Why the order matters: whatever the handler inserts between read and erase, the erase removes
      the element that was sent exactly when no insert lies below it; otherwise it removes an
      insert that nobody has read. */
  lemma EraseMatchesIff(requests: set<nat>, sent: nat, inserts: set<nat>)
    requires requests != {} && Min(requests) == sent
    ensures Min(requests + inserts) == sent <==> forall y :: y in inserts ==> sent <= y
    ensures Min(requests + inserts) != sent ==>
      Min(requests + inserts) in inserts && Min(requests + inserts) !in requests
  {
    if forall y :: y in inserts ==> sent <= y {
      MinIs(requests + inserts, sent);
    } else {
      var y :| y in inserts && y < sent;
      assert Min(requests + inserts) <= y;
    }
  }

  /** Original and retransmission of an offset are the same datagram: the part's own bytes. */
  lemma ResendsAreFirstSends(p: Part, l: Lane, a: Packet, b: Packet)
    requires Reachable(p, l) && a in l.net && b in l.net
    ensures IsSlot(p.d, p.Len(), a.dg.seqNum)
    ensures a.dg.size == |a.dg.payload| == SlotSize(p.d, p.Len(), a.dg.seqNum)
    ensures a.dg.payload == p.bytes[a.dg.seqNum..a.dg.seqNum + a.dg.size]
    ensures a.dg.seqNum == b.dg.seqNum ==> a.dg == b.dg
  {
    ReachableInv(p, l);
  }

  /** Every NACK is for a slot of the part, at or below a datagram that arrived; so nothing the
      sender reads from its set makes `splitSize - sendPtr` wrap. */
  lemma NackRangeHolds(p: Part, l: Lane)
    requires Reachable(p, l)
    ensures forall x :: x in l.receiver.nacked ==> IsSlot(p.d, p.Len(), x) && BelowArrival(p, l.receiver, x)
    ensures forall x :: x in l.sender.requests ==> IsSlot(p.d, p.Len(), x)
    ensures l.sender.pc == Resend ==> l.sender.sendPtr < p.Len()
  {
    ReachableInv(p, l);
    forall x | x in l.sender.requests ensures x in l.receiver.nacked {
      assert x in l.receiver.nacked[Base(l.sender)..l.handled];
    }
    if l.sender.pc == Resend { assert l.sender.sendPtr in l.receiver.nacked; }
  }

  /** Past an unlocked test or read, the sender holds a request, and that is a slot. */
  lemma HasWork(p: Part, l: Lane)
    requires LaneInv(p, l)
    ensures l.sender.pc == Resend ==> IsSlot(p.d, p.Len(), l.sender.sendPtr)
    ensures l.sender.pc == EraseBegin || l.sender.pc == ReadBegin ==> l.sender.requests != {}
  {
    NackedIncreasing(p, l.receiver);
    if l.sender.pc == EraseBegin || l.sender.pc == ReadBegin {
      BeginIsOldest(l.sender, l.receiver.nacked, l.handled);
    }
    if l.sender.pc == Resend { assert l.sender.sendPtr in l.receiver.nacked; }
  }

  /** `lost` is the record of the retransmissions that the network has dropped, and of nothing else. */
  lemma {:induction false} LostIsDropped(p: Part, trace: seq<Lane>, steps: seq<Step>, l: Lane, x: nat)
    requires Between(p, ANYTHING, START, trace, steps, l)
    ensures x in l.lost <==> exists j :: 0 <= j < |steps| && DropsResent(steps[j], x)
    decreases |steps|
  {
    if steps != [] {
      var n := |steps| - 1;
      LostIsDropped(p, trace[..n + 1], steps[..n], trace[n], x);
      assert Taken(p, ANYTHING, trace[n], steps[n], l);
      LostBy(p, trace[n], steps[n], x);
      hide Apply, Enabled, DropsResent;
      if j :| 0 <= j < n && DropsResent(steps[..n][j], x) { assert DropsResent(steps[j], x); }
    }
  }

  predicate DropsResent(step: Step, x: nat) {
    step.Drop? && step.pk.again && step.pk.dg.seqNum == x
  }

  lemma LostBy(p: Part, l: Lane, step: Step, x: nat)
    requires Enabled(p, l, step)
    ensures x in Apply(p, l, step).lost <==> x in l.lost || DropsResent(step, x)
  {
    hide OnWire, Min;
  }

  // ----- quiescence -----

  /** Nothing is under way: the first pass is over, no request is left or being served, no NACK
      and no datagram is in flight; and the network has dropped no retransmission. */
  predicate Quiet(l: Lane) {
    && l.receiver.pc == Waiting && l.net == multiset{} && l.lost == {}
    && l.handled == |l.receiver.nacked| && l.sender.requests == {}
    && (l.sender.pc == CheckDone || l.sender.pc == CheckEmpty || l.sender.pc == Stopped)
  }

  /** The last slot of the part. */
  predicate IsFinal(p: Part, f: nat) {
    IsSlot(p.d, p.Len(), f) && f + p.d >= p.Len()
  }

  lemma QuietMissesNothing(p: Part, l: Lane)
    requires Reachable(p, l) && Quiet(l)
    ensures l.receiver.missed == {}
  {
    NackConservation(p, l);
    assert forall x :: !Retransmitted(l.net, x);
  }

  /** A quiet lane is complete exactly when the final slot has arrived and, with the guard as
      written, so has every slot the gap loop stepped over. With the repaired guard it has
      received exactly the slots below expectedSeqNum: a lost tail goes unnoticed. */
  lemma QuietCompleteIff(p: Part, l: Lane, f: nat)
    requires Reachable(p, l) && Quiet(l) && IsFinal(p, f)
    ensures AllIn(p.d, p.Len(), l.receiver.log) <==>
      && f in l.receiver.log
      && forall x: nat :: IsSlot(p.d, p.Len(), x) && SteppedOver(p, l.receiver, x) ==> x in l.receiver.log
    ensures p.gap == Repaired ==>
      && (AllIn(p.d, p.Len(), l.receiver.log) <==> f in l.receiver.log)
      && (forall x: nat :: x in l.receiver.log <==> IsSlot(p.d, p.Len(), x) && x < l.receiver.expected)
  {
    ReachableInv(p, l);
    QuietMissesNothing(p, l);
    var r := l.receiver;
    if f in r.log {
      forall x: nat | IsSlot(p.d, p.Len(), x) && !SteppedOver(p, r, x) ensures x in r.log {
        if x > f { SlotsApart(p.d, f, x); assert false; }
      }
    }
    assert forall x :: x in r.log ==> IsSlot(p.d, p.Len(), x);
  }

  // ----- leaving the receive loop -----

  /** The loop had not reached splitSize before the arrival it is handling or handled last. */
  predicate StopsAtOnce(p: Part, r: Receiver)
    requires SlotLog(p.d, p.Len(), r.log)
  {
    p.counting == EveryArrival ==>
      if r.pc.Filling? then SumSizes(p.d, p.Len(), r.log) < p.Len()
      else r.log != [] ==> SumSizes(p.d, p.Len(), r.log[..|r.log| - 1]) < p.Len()
  }

  predicate LeftFull(p: Part, r: Receiver) {
    r.pc == Counted || r.pc == Finished ==> r.recvSize >= p.Len()
  }

  lemma LoopStep(p: Part, l: Lane, step: Step)
    requires LaneInv(p, l) && Enabled(p, l, step) && LaneInv(p, Apply(p, l, step))
    requires StopsAtOnce(p, l.receiver) && LeftFull(p, l.receiver)
    ensures StopsAtOnce(p, Apply(p, l, step).receiver) && LeftFull(p, Apply(p, l, step).receiver)
  {
    hide GapAccount, GapInProgress, HighWater, NackRange, Silent;
    hide OnWire, Served, Requests, Control, InFlight, Tokens, Min;
    var r, r' := l.receiver, Apply(p, l, step).receiver;
    if r'.log != r.log {
      assert r'.log[..|r'.log| - 1] == r.log;
    }
  }

  lemma {:induction false} LoopRuns(p: Part, trace: seq<Lane>, steps: seq<Step>, l: Lane)
    requires Between(p, ANYTHING, START, trace, steps, l)
    ensures LaneInv(p, l) && StopsAtOnce(p, l.receiver) && LeftFull(p, l.receiver)
    decreases |steps|
  {
    StartInv(p);
    if steps != [] {
      var n := |steps| - 1;
      LoopRuns(p, trace[..n + 1], steps[..n], trace[n]);
      assert Taken(p, ANYTHING, trace[n], steps[n], l);
      hide LaneInv, Apply, Enabled;
      StepKeeps(p, trace[n], steps[n]);
      LoopStep(p, trace[n], steps[n]);
    }
  }

  /** A receiver that counts fresh offsets only leaves its loop complete, in every run. One that
      counts every arrival leaves it complete exactly when the repeated bytes it counted are
      fewer than the bytes of the datagram it stopped on; without repeats, always. */
  lemma LeavesCompleteIff(p: Part, l: Lane)
    requires Reachable(p, l) && p.Len() > 0
    requires l.receiver.pc == Counted || l.receiver.pc == Finished
    ensures SlotLog(p.d, p.Len(), l.receiver.log) && l.receiver.log != [] && l.receiver.recvSize >= p.Len()
    ensures p.counting == FreshOnly ==>
      AllIn(p.d, p.Len(), l.receiver.log) && l.receiver.recvSize == p.Len()
    ensures p.counting == EveryArrival ==>
      (AllIn(p.d, p.Len(), l.receiver.log) <==>
        RepeatedBytes(p.d, p.Len(), l.receiver.log) < SlotSize(p.d, p.Len(), l.receiver.log[|l.receiver.log| - 1]))
    ensures p.counting == EveryArrival && Distinct(l.receiver.log) ==>
      AllIn(p.d, p.Len(), l.receiver.log) && l.receiver.recvSize == p.Len()
  {
    var trace, steps :| Between(p, ANYTHING, START, trace, steps, l);
    LoopRuns(p, trace, steps, l);
    var log := l.receiver.log;
    if log == [] { BytesInNone(p.d, p.Len(), 0); assert false; }
    if p.counting == FreshOnly {
      BytesInFullIff(p.d, p.Len(), log);
    } else {
      StoppedCompleteIff(p.d, p.Len(), log);
      if Distinct(log) { StoppedWithoutRepeats(p.d, p.Len(), log); }
    }
  }

  /** Without repeats recvSize never exceeds the part, and reaches it exactly when complete. */
  lemma CountIsExact(p: Part, l: Lane)
    requires Reachable(p, l) && l.receiver.pc == Waiting
    requires p.counting == FreshOnly || Distinct(l.receiver.log)
    ensures l.receiver.recvSize <= p.Len()
    ensures l.receiver.recvSize == p.Len() <==> AllIn(p.d, p.Len(), l.receiver.log)
  {
    ReachableInv(p, l);
    BytesInFullIff(p.d, p.Len(), l.receiver.log);
    if p.counting == EveryArrival { StoppedWithoutRepeats(p.d, p.Len(), l.receiver.log); }
  }
}
