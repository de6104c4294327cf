// The wait for all parts, the two counters, and the sentinel that ends the senders.
module Barrier {
  import opened Nacks
  import opened Receiving
  import opened Lanes
  import opened System

  datatype Tallied = Finishers | Bytes

  function Weight(what: Tallied, l: Lane): nat {
    if what == Finishers then (if l.receiver.pc == Finished then 1 else 0)
    else if l.receiver.pc == Counted || l.receiver.pc == Finished then l.receiver.recvSize else 0
  }

  function Tally(what: Tallied, lanes: seq<Lane>): nat {
    if lanes == [] then 0 else Tally(what, lanes[..|lanes| - 1]) + Weight(what, lanes[|lanes| - 1])
  }

  lemma {:induction false} TallyUpdate(what: Tallied, lanes: seq<Lane>, i: nat, l: Lane)
    requires i < |lanes|
    ensures Tally(what, lanes[i := l]) + Weight(what, lanes[i]) == Tally(what, lanes) + Weight(what, l)
  {
    var n := |lanes| - 1;
    var lanes' := lanes[i := l];
    if i < n {
      TallyUpdate(what, lanes[..n], i, l);
      assert lanes'[..n] == lanes[..n][i := l];
    } else {
      assert lanes'[..n] == lanes[..n];
    }
  }

  lemma {:induction false} FinishersAtMost(lanes: seq<Lane>)
    ensures Tally(Finishers, lanes) <= |lanes|
    ensures Tally(Finishers, lanes) == |lanes| <==> forall i :: 0 <= i < |lanes| ==> lanes[i].receiver.pc == Finished
  {
    if lanes != [] {
      var n := |lanes| - 1;
      FinishersAtMost(lanes[..n]);
      if forall i :: 0 <= i < n ==> lanes[..n][i].receiver.pc == Finished {
        assert forall i :: 0 <= i < n ==> lanes[i] == lanes[..n][i];
      } else {
        var i :| 0 <= i < n && lanes[..n][i].receiver.pc != Finished;
        assert lanes[i].receiver.pc != Finished;
      }
    }
  }

  ghost predicate AllFinished(s: System) {
    forall i :: 0 <= i < |s.lanes| ==> s.lanes[i].receiver.pc == Finished
  }

  predicate Counters(s: System) {
    s.doneReceiveCount == Tally(Finishers, s.lanes) && s.totalRecvSize == Tally(Bytes, s.lanes)
  }

  /** Frames are NACKs of real parts, but for the sentinel, which can only be the last. */
  predicate Framed(lay: Layout, s: System) {
    forall j :: 0 <= j < |s.tcp| ==>
      || 0 <= s.tcp[j].idx < lay.K()
      || (j == |s.tcp| - 1 && s.tcp[j] == SentinelOf(lay.K()) && s.main == SentinelSent)
  }

  ghost predicate Gates(lay: Layout, s: System) {
    && (s.main != Collecting ==> AllFinished(s))
    && (s.sendingDone ==> s.main == SentinelSent && s.tcp == [])
    && (s.main == SentinelSent && !s.sendingDone ==> s.tcp != [] && s.tcp[|s.tcp| - 1] == SentinelOf(lay.K()))
    && (forall i :: 0 <= i < |s.lanes| && s.lanes[i].sender.pc == Stopped ==> s.sendingDone)
  }

  ghost predicate BarrierInv(lay: Layout, s: System) {
    |s.lanes| == lay.K() && Counters(s) && Framed(lay, s) && Gates(lay, s)
  }

  lemma {:induction false} TallyStart(what: Tallied, k: nat)
    ensures Tally(what, seq(k, _ => START)) == 0
  {
    if k > 0 {
      var lanes := seq(k, _ => START);
      TallyStart(what, k - 1);
      assert lanes[..k - 1] == seq(k - 1, _ => START);
    }
  }

  lemma BootBarrier(lay: Layout)
    ensures BarrierInv(lay, Boot(lay))
  {
    TallyStart(Finishers, lay.K());
    TallyStart(Bytes, lay.K());
  }

  lemma StepWeights(p: Part, l: Lane, step: Step)
    requires Enabled(p, l, step)
    ensures var l' := Apply(p, l, step);
      && Weight(Finishers, l') == Weight(Finishers, l) + (if step.CountDone? then 1 else 0)
      && Weight(Bytes, l') == Weight(Bytes, l) + (if step.LeaveLoop? then l.receiver.recvSize else 0)
      && (l.receiver.pc == Finished ==> l'.receiver == l.receiver && !step.FillGap?)
      && (l'.sender.pc == Stopped ==> l.sender.pc == Stopped || step.SeeDone?)
  {
    hide OnWire;
  }

  lemma InPartCounters(lay: Layout, s: System, i: nat, st: Step)
    requires |s.lanes| == lay.K() && Counters(s) && MayStep(lay, s, InPart(i, st))
    ensures Counters(Next(lay, s, InPart(i, st)))
  {
    hide Apply, Enabled, Blit, Weight;
    var l := s.lanes[i];
    var l' := Apply(lay.PartOf(i), l, st);
    StepWeights(lay.PartOf(i), l, st);
    TallyUpdate(Finishers, s.lanes, i, l');
    TallyUpdate(Bytes, s.lanes, i, l');
  }

  lemma InPartGates(lay: Layout, s: System, i: nat, st: Step)
    requires BarrierInv(lay, s) && MayStep(lay, s, InPart(i, st))
    ensures Framed(lay, Next(lay, s, InPart(i, st))) && Gates(lay, Next(lay, s, InPart(i, st)))
  {
    hide Apply, Enabled, Blit, Weight;
    StepWeights(lay.PartOf(i), s.lanes[i], st);
  }

  lemma HandleCounters(lay: Layout, s: System, r: Request)
    requires |s.lanes| == lay.K() && Counters(s) && s.tcp != []
    ensures Counters(Handle(lay, s, r))
  {
    if 0 <= r.idx < lay.K() {
      var l' := TakeRequest(s.lanes[r.idx], r.seqNum);
      TallyUpdate(Finishers, s.lanes, r.idx, l');
      TallyUpdate(Bytes, s.lanes, r.idx, l');
    }
  }

  lemma BarrierStep(lay: Layout, s: System, step: SystemStep)
    requires BarrierInv(lay, s) && MayStep(lay, s, step)
    ensures BarrierInv(lay, Next(lay, s, step))
  {
    match step
    case InPart(i, st) =>
      hide Apply, Enabled, Blit, Gates, Framed, Counters;
      InPartCounters(lay, s, i, st);
      InPartGates(lay, s, i, st);
    case HandleFrame =>
      hide Apply, Enabled, Counters;
      HandleCounters(lay, s, s.tcp[0]);
    case WriteToDisk =>
      FinishersAtMost(s.lanes);
    case SendSentinel =>
  }

  lemma {:induction false} BarrierRuns(lay: Layout, trace: seq<System>, steps: seq<SystemStep>)
    requires Execution(lay, trace, steps)
    ensures BarrierInv(lay, trace[|steps|]) && LanesInv(lay, trace[|steps|])
  {
    if steps == [] {
      BootBarrier(lay);
      BootLanes(lay);
    } else {
      var n := |steps| - 1;
      BarrierRuns(lay, trace[..n + 1], steps[..n]);
      assert Follows(lay, trace[n], steps[n], trace[n + 1]);
      hide BarrierInv, LanesInv, Next;
      BarrierStep(lay, trace[n], steps[n]);
      LanesStep(lay, trace[n], steps[n]);
    }
  }
}
