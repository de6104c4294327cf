// What the file buffer holds in every reachable state of one direction of the transfer.
module Transfer {
  import opened Bytes
  import opened Slots
  import opened Wire
  import opened Nacks
  import opened Receiving
  import opened Lanes
  import opened LanePaths
  import opened LaneRuns
  import opened System
  import opened Barrier

  predicate Covers(lay: Layout, i: nat, x: nat, p: nat)
    requires i < lay.K()
  {
    x < lay.sizes[i] && lay.offs[i] + x <= p < lay.offs[i] + x + SlotSize(lay.d, lay.sizes[i], x)
  }

  ghost predicate TouchedBy(lay: Layout, s: System, i: nat, p: nat)
    requires i < lay.K() == |s.lanes|
  {
    exists x :: x in s.lanes[i].receiver.log && Covers(lay, i, x, p)
  }

  /** Byte p belongs to a slot that has been received. */
  ghost predicate Touched(lay: Layout, s: System, p: nat)
    requires lay.K() == |s.lanes|
  {
    exists i: nat :: i < lay.K() && TouchedBy(lay, s, i, p)
  }

  /** The buffer equals the source on every received slot and is still zero elsewhere. */
  ghost predicate Content(lay: Layout, s: System)
    requires lay.K() == |s.lanes|
  {
    && |s.buf| == |lay.src|
    && forall p: nat :: p < |s.buf| ==> s.buf[p] == if Touched(lay, s, p) then lay.src[p] else 0
  }

  predicate DiskHoldsBuffer(s: System) {
    s.main != Collecting ==> s.disk == s.buf[..Clamp(|s.buf|, s.totalRecvSize)]
  }

  /** A receiver step logs exactly the datagram it copies, and that is the slot's own. */
  lemma StepLogs(p: Part, l: Lane, step: Step)
    requires LaneInv(p, l) && Enabled(p, l, step)
    ensures var log, log' := l.receiver.log, Apply(p, l, step).receiver.log;
      match Copied(l, step)
      case NoCopy => log' == log
      case CopyOf(dg) => log' == log + [dg.seqNum] && IsSlotDatagram(p, dg)
    ensures l.receiver.pc == Finished ==> Copied(l, step) == NoCopy && !step.LeaveLoop?
  {
    hide OnWire, Served, Requests, Control, Tokens, IsSlot, SlotDatagram, Min;
    hide Edges, GapAccount, HighWater, NackRange, ByteCount, Silent;
  }

  lemma TouchedSame(lay: Layout, s: System, s': System, p: nat)
    requires |s.lanes| == |s'.lanes| == lay.K()
    requires forall i: nat :: i < lay.K() ==> s'.lanes[i].receiver.log == s.lanes[i].receiver.log
    ensures Touched(lay, s', p) == Touched(lay, s, p)
  {
    hide Covers;
    forall i: nat | i < lay.K() ensures TouchedBy(lay, s', i, p) == TouchedBy(lay, s, i, p) {
    }
  }

  lemma TouchedMore(lay: Layout, s: System, s': System, i: nat, x: nat, p: nat)
    requires |s.lanes| == |s'.lanes| == lay.K() && i < lay.K()
    requires s'.lanes[i].receiver.log == s.lanes[i].receiver.log + [x]
    requires forall j: nat :: j < lay.K() && j != i ==> s'.lanes[j].receiver.log == s.lanes[j].receiver.log
    ensures Touched(lay, s', p) == (Touched(lay, s, p) || Covers(lay, i, x, p))
  {
    hide Covers;
    var log, log' := s.lanes[i].receiver.log, s'.lanes[i].receiver.log;
    forall j: nat | j < lay.K() && j != i ensures TouchedBy(lay, s', j, p) == TouchedBy(lay, s, j, p) {
    }
    assert TouchedBy(lay, s', i, p) == (TouchedBy(lay, s, i, p) || Covers(lay, i, x, p)) by {
      assert forall y :: y in log' <==> y in log || y == x;
    }
  }

  lemma BlitContent(lay: Layout, s: System, s': System, i: nat, dg: Datagram)
    requires |s.lanes| == |s'.lanes| == lay.K() && i < lay.K() && Content(lay, s)
    requires IsSlotDatagram(lay.PartOf(i), dg)
    requires s'.buf == Blit(s.buf, lay.offs[i] + dg.seqNum, dg.payload)
    requires s'.lanes[i].receiver.log == s.lanes[i].receiver.log + [dg.seqNum]
    requires forall j: nat :: j < lay.K() && j != i ==> s'.lanes[j].receiver.log == s.lanes[j].receiver.log
    ensures Content(lay, s')
  {
    hide Touched;
    var at := lay.offs[i] + dg.seqNum;
    forall p: nat | p < |s'.buf| ensures s'.buf[p] == if Touched(lay, s', p) then lay.src[p] else 0 {
      TouchedMore(lay, s, s', i, dg.seqNum, p);
    }
  }

  lemma InPartContent(lay: Layout, s: System, i: nat, st: Step)
    requires LanesInv(lay, s) && Content(lay, s) && MayStep(lay, s, InPart(i, st))
    ensures Content(lay, Next(lay, s, InPart(i, st)))
  {
    hide Enabled, Apply, Reachable, LaneInv, IsSlotDatagram, Blit, Touched;
    var s', p := Next(lay, s, InPart(i, st)), lay.PartOf(i);
    assert LaneOk(lay, s, i);
    ReachableInv(p, s.lanes[i]);
    StepLogs(p, s.lanes[i], st);
    match Copied(s.lanes[i], st)
    case CopyOf(dg) => BlitContent(lay, s, s', i, dg);
    case NoCopy =>
      forall q: nat ensures Touched(lay, s', q) == Touched(lay, s, q) {
        TouchedSame(lay, s, s', q);
      }
  }

  lemma OtherContent(lay: Layout, s: System, step: SystemStep)
    requires |s.lanes| == lay.K() && Content(lay, s) && MayStep(lay, s, step) && !step.InPart?
    ensures Content(lay, Next(lay, s, step))
  {
    hide Enabled, Touched;
    var s' := Next(lay, s, step);
    forall q: nat ensures Touched(lay, s', q) == Touched(lay, s, q) {
      TouchedSame(lay, s, s', q);
    }
  }

  /** Once every receiver has finished, the buffer and its size no longer change. */
  lemma DiskStep(lay: Layout, s: System, step: SystemStep)
    requires LanesInv(lay, s) && BarrierInv(lay, s) && DiskHoldsBuffer(s) && MayStep(lay, s, step)
    ensures DiskHoldsBuffer(Next(lay, s, step))
  {
    hide Enabled, Apply, Reachable, LaneInv, IsSlotDatagram, Blit, Counters, Framed;
    if step.InPart? {
      assert LaneOk(lay, s, step.i);
      ReachableInv(lay.PartOf(step.i), s.lanes[step.i]);
      StepLogs(lay.PartOf(step.i), s.lanes[step.i], step.step);
    }
  }

  ghost predicate Good(lay: Layout, s: System) {
    LanesInv(lay, s) && BarrierInv(lay, s) && Content(lay, s) && DiskHoldsBuffer(s)
  }

  lemma BootContent(lay: Layout)
    ensures Content(lay, Boot(lay))
  {
    hide Covers;
    var s := Boot(lay);
    forall p: nat ensures !Touched(lay, s, p) {
      forall i: nat | i < lay.K() ensures !TouchedBy(lay, s, i, p) {
        assert s.lanes[i].receiver.log == [];
      }
    }
  }

  lemma GoodStep(lay: Layout, s: System, step: SystemStep)
    requires Good(lay, s) && MayStep(lay, s, step)
    ensures Good(lay, Next(lay, s, step))
  {
    hide LanesInv, Content, DiskHoldsBuffer, Next, MayStep;
    LanesStep(lay, s, step);
    BarrierStep(lay, s, step);
    DiskStep(lay, s, step);
    if step.InPart? { InPartContent(lay, s, step.i, step.step); } else { OtherContent(lay, s, step); }
  }

  lemma {:induction false} GoodRuns(lay: Layout, trace: seq<System>, steps: seq<SystemStep>)
    requires Execution(lay, trace, steps)
    ensures Good(lay, trace[|steps|])
  {
    if steps == [] {
      BootBarrier(lay);
      BootLanes(lay);
      BootContent(lay);
    } else {
      var n := |steps| - 1;
      GoodRuns(lay, trace[..n + 1], steps[..n]);
      assert Follows(lay, trace[n], steps[n], trace[n + 1]);
      hide Good, Next;
      GoodStep(lay, trace[n], steps[n]);
    }
  }

  // ----- the theorems -----

  ghost predicate EndsIn(lay: Layout, trace: seq<System>, steps: seq<SystemStep>, s: System) {
    Execution(lay, trace, steps) && trace[|steps|] == s
  }

  ghost predicate SystemReachable(lay: Layout, s: System) {
    exists trace, steps :: EndsIn(lay, trace, steps, s)
  }

  lemma SystemInv(lay: Layout, s: System)
    requires SystemReachable(lay, s)
    ensures Good(lay, s)
  {
    var trace, steps :| EndsIn(lay, trace, steps, s);
    GoodRuns(lay, trace, steps);
  }

  /** Every part of a system run runs as a lane, its NACKs in order on the shared connection. */
  lemma PartsAreLanes(lay: Layout, s: System, i: nat)
    requires SystemReachable(lay, s) && i < lay.K()
    ensures |s.lanes| == lay.K() && Reachable(lay.PartOf(i), s.lanes[i]) && Ordered(s.tcp, s.lanes[i], i)
  {
    SystemInv(lay, s);
    assert LaneOk(lay, s, i);
  }

  /** Received slots hold the source bytes, every other byte is still zero: in every state. */
  lemma ContentSafety(lay: Layout, s: System)
    requires SystemReachable(lay, s)
    ensures |s.lanes| == lay.K() && Content(lay, s)
  {
    SystemInv(lay, s);
  }

  /** The counters are what the threads added; the main thread writes the disk, sends the
      sentinel and so lets a sender stop only after every receiver has finished; and once the
      sentinel is sent, to have handled it is to have handled every frame. */
  lemma BarrierSafety(lay: Layout, s: System)
    requires SystemReachable(lay, s)
    ensures Counters(s)
    ensures s.doneReceiveCount == |s.lanes| <==> AllFinished(s)
    ensures s.main != Collecting ==> AllFinished(s)
    ensures s.sendingDone ==> AllFinished(s)
    ensures s.main == SentinelSent ==> (s.sendingDone <==> s.tcp == [])
    ensures s.main == SentinelSent && s.tcp != [] ==> s.tcp[|s.tcp| - 1] == Request(lay.K() + 1, lay.K() + 1)
    ensures s.main != SentinelSent ==> !s.sendingDone
    ensures forall i :: 0 <= i < |s.lanes| && s.lanes[i].sender.pc == Stopped ==> AllFinished(s)
  {
    SystemInv(lay, s);
    hide LanesInv, Content, DiskHoldsBuffer;
    FinishersAtMost(s.lanes);
  }

  /** In every reachable state the handler's next iteration in the model is the one nackHandler makes
      of the frame's bytes: same sets, same end. */
  lemma HandlesTheBytes(lay: Layout, s: System, frame: Frame, idx: uint32, seqNum: uint32, n: nat)
    requires SystemReachable(lay, s) && |s.lanes| == lay.K() < 0xFF && MayStep(lay, s, HandleFrame)
    requires s.tcp[0] == Request(idx, seqNum) && IsFrameOf(frame, idx, seqNum)
    ensures var s' := Next(lay, s, HandleFrame);
      Outcome(RequestSets(s'.lanes), s'.sendingDone, n + 1)
        == HandleOne(ClientTest, lay.fileSize, frame, Outcome(RequestSets(s.lanes), false, n))
  {
    SystemInv(lay, s);
    hide DecodeNack, IsFrameOf, HandleOne, LanesInv, Content, Counters, Gates, Enabled;
    if idx < lay.K() {
      ClientDecodesNack(lay.K(), frame, idx, seqNum);
      Narrowed(seqNum);
    } else {
      SentinelDecodes(ClientTest, lay.K(), frame);
    }
    HandleIsHandlers(lay, s, ClientTest, frame, n);
  }

  // ----- completion -----

  /** Nothing a receiver counted arrived twice, or repeats are not counted. */
  predicate NoRepeats(lay: Layout, s: System) {
    lay.counting == FreshOnly || forall i :: 0 <= i < |s.lanes| ==> Distinct(s.lanes[i].receiver.log)
  }

  /** The main thread is past its wait, and nothing that was counted arrived twice. */
  ghost predicate Completed(lay: Plan, s: System) {
    lay.Valid() && SystemReachable(lay, s) && s.main != Collecting && NoRepeats(lay, s)
  }

  ghost predicate PartComplete(lay: Layout, s: System, i: nat)
    requires i < lay.K() == |s.lanes|
  {
    AllIn(lay.d, lay.sizes[i], s.lanes[i].receiver.log) && s.lanes[i].receiver.recvSize == lay.sizes[i]
  }

  lemma FinishedIsComplete(lay: Layout, s: System, i: nat)
    requires SystemReachable(lay, s) && i < lay.K() == |s.lanes|
    requires s.lanes[i].receiver.pc == Finished
    requires lay.counting == FreshOnly || Distinct(s.lanes[i].receiver.log)
    ensures PartComplete(lay, s, i)
  {
    var p, l := lay.PartOf(i), s.lanes[i];
    PartsAreLanes(lay, s, i);
    if lay.sizes[i] > 0 {
      LeavesCompleteIff(p, l);
    } else {
      ReachableInv(p, l);
      assert l.receiver.log == [];
    }
  }

  function Total(sizes: seq<nat>): nat {
    if sizes == [] then 0 else Total(sizes[..|sizes| - 1]) + sizes[|sizes| - 1]
  }

  lemma {:induction false} TallyIsTotal(lanes: seq<Lane>, sizes: seq<nat>)
    requires |lanes| == |sizes|
    requires forall i :: 0 <= i < |lanes| ==> lanes[i].receiver.pc == Finished && lanes[i].receiver.recvSize == sizes[i]
    ensures Tally(Barrier.Bytes, lanes) == Total(sizes)
  {
    if lanes != [] {
      TallyIsTotal(lanes[..|lanes| - 1], sizes[..|sizes| - 1]);
    }
  }

  ghost predicate InRegion(lay: Layout, p: nat) {
    exists i: nat :: i < lay.K() && lay.offs[i] <= p < lay.offs[i] + lay.sizes[i]
  }

  lemma CompleteTouches(lay: Layout, s: System, p: nat)
    requires |s.lanes| == lay.K()
    requires forall i: nat :: i < lay.K() ==> PartComplete(lay, s, i)
    ensures Touched(lay, s, p) == InRegion(lay, p)
  {
    if InRegion(lay, p) {
      var i: nat :| i < lay.K() && lay.offs[i] <= p < lay.offs[i] + lay.sizes[i];
      var x := SlotOf(lay.d, lay.sizes[i], p - lay.offs[i]);
      assert PartComplete(lay, s, i);
      assert x in s.lanes[i].receiver.log && Covers(lay, i, x, p);
      assert TouchedBy(lay, s, i, p);
    }
    if Touched(lay, s, p) {
      var i: nat :| i < lay.K() && TouchedBy(lay, s, i, p);
      assert lay.offs[i] <= p < lay.offs[i] + lay.sizes[i];
    }
  }

  /** When the main thread has written the disk, and nothing counted arrived twice, every part is
      complete, totalRecvSize is the sum of the parts, and the disk holds that much of the
      buffer: the source wherever a part reaches, zero where none does. */
  lemma WrittenFile(lay: Plan, s: System)
    requires Completed(lay, s)
    ensures |s.lanes| == lay.K() && forall i: nat :: i < lay.K() ==> PartComplete(lay, s, i)
    ensures s.totalRecvSize == Total(lay.sizes)
    ensures |s.disk| == Clamp(|lay.src|, Total(lay.sizes))
    ensures forall p: nat :: p < |s.disk| ==> s.disk[p] == if InRegion(lay, p) then lay.src[p] else 0
    ensures |s.buf| == |lay.src|
    ensures forall p: nat :: p < |s.buf| ==> s.buf[p] == if InRegion(lay, p) then lay.src[p] else 0
  {
    SystemInv(lay, s);
    BarrierSafety(lay, s);
    hide LanesInv, Framed, Reachable, PartComplete, SystemReachable, Touched, InRegion;
    forall i: nat | i < lay.K() ensures PartComplete(lay, s, i) {
      FinishedIsComplete(lay, s, i);
    }
    assert s.totalRecvSize == Total(lay.sizes) by {
      assert forall i: nat :: i < lay.K() ==> s.lanes[i].receiver.recvSize == lay.sizes[i] by {
        forall i: nat | i < lay.K() ensures s.lanes[i].receiver.recvSize == lay.sizes[i] {
          Sized(lay, s, i);
        }
      }
      TallyIsTotal(s.lanes, lay.sizes);
    }
    forall p: nat ensures Touched(lay, s, p) == InRegion(lay, p) {
      CompleteTouches(lay, s, p);
    }
  }

  lemma Sized(lay: Layout, s: System, i: nat)
    requires i < lay.K() == |s.lanes| && PartComplete(lay, s, i)
    ensures s.lanes[i].receiver.recvSize == lay.sizes[i]
  {
  }
}
