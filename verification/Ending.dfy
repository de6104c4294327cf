// The end of a direction: the main thread sends its sentinel, the sending side's handler comes to it,
// and the senders stop, so that the roles can flip.
module Ending {
  import opened Receiving
  import opened Lanes
  import opened LaneRuns
  import opened LanePaths
  import opened LaneLoss
  import opened LaneProgress
  import opened System
  import opened Barrier
  import opened Transfer
  import opened SystemPaths

  ghost predicate AllParameters(lay: Layout) {
    forall j: nat :: j < lay.K() ==> Parameters(lay.PartOf(j))
  }

  lemma ParametersOf(lay: Layout, i: nat)
    requires AllParameters(lay) && i < lay.K()
    ensures Parameters(lay.PartOf(i))
  {
  }

  /** The roles can flip: the sentinel has been handled and every sender has stopped. */
  ghost predicate Flipped(s: System) {
    && s.main == SentinelSent && s.sendingDone && s.tcp == []
    && forall i :: 0 <= i < |s.lanes| ==> s.lanes[i].sender.pc == Stopped
  }

  predicate SameReceivers(s: System, s': System) {
    |s'.lanes| == |s.lanes| && forall i :: 0 <= i < |s.lanes| ==> s'.lanes[i].receiver == s.lanes[i].receiver
  }

  lemma {:induction false} DrainToSentinel(lay: Layout, a: System, s: System) returns (s': System)
    requires OnRoute(lay, true, a, s) && s.main == SentinelSent
    ensures OnRoute(lay, true, a, s') && s'.main == SentinelSent && s'.sendingDone
    ensures SameReceivers(s, s') && s'.disk == s.disk
    decreases |s.tcp|
  {
    if s.sendingDone {
      s' := s;
    } else {
      hide SystemLeads, SystemReachable, LanesInv, BarrierInv;
      BarrierSafety(lay, s);
      var s1 := Advance(lay, true, a, s, HandleFrame);
      s' := DrainToSentinel(lay, a, s1);
    }
  }

  lemma LaneReady(lay: Layout, m: Mode, a: System, s: System, i: nat)
    requires OnRoute(lay, true, a, s) && i < lay.K() == |s.lanes|
    ensures LaneInv(lay.PartOf(i), s.lanes[i]) && OnWay(lay.PartOf(i), m, s.lanes[i], s.lanes[i])
  {
    hide LaneInv, SystemLeads, SystemReachable, Reachable, BarrierInv;
    assert LaneOk(lay, s, i);
    ReachableInv(lay.PartOf(i), s.lanes[i]);
    Stay(lay.PartOf(i), m, s.lanes[i]);
  }

  lemma {:induction false} StopAll(lay: Layout, a: System, s: System, i: nat) returns (s': System)
    requires AllParameters(lay) && OnRoute(lay, true, a, s) && i <= lay.K() == |s.lanes|
    requires s.main == SentinelSent && s.sendingDone
    requires forall j :: 0 <= j < i ==> s.lanes[j].sender.pc == Stopped
    ensures OnRoute(lay, true, a, s') && s'.main == SentinelSent && s'.sendingDone
    ensures SameReceivers(s, s') && s'.disk == s.disk
    ensures forall j :: 0 <= j < lay.K() ==> s'.lanes[j].sender.pc == Stopped
    decreases lay.K() - i
  {
    if i == lay.K() {
      s' := s;
    } else {
      var p, l := lay.PartOf(i), s.lanes[i];
      ParametersOf(lay, i);
      LaneReady(lay, STOPPING, a, s, i);
      hide OnRoute, AllParameters, Parameters, LaneInv, Recoverable, Leads;
      var l' := ComeToStop(p, STOPPING, l, l);
      var s1 := LiftLeads(lay, true, STOPPING, a, s, i, l');
      s' := StopAll(lay, a, s1, i + 1);
    }
  }

  lemma RouteDone(lay: Layout, a: System, s: System)
    requires OnRoute(lay, true, a, s)
    ensures SystemLeads(lay, true, a, s) && SystemReachable(lay, s) && |s.lanes| == lay.K()
    ensures s.sendingDone ==> s.tcp == []
  {
  }

  /** From every reachable state in which the disk has been written, whatever has been lost: the
      main thread sends its sentinel, the handler comes to it past every frame, and every sender
      stops; no receiver moves, and the disk stays as it is. */
  lemma DirectionCanEnd(lay: Layout, a: System) returns (s: System)
    requires AllParameters(lay) && SystemReachable(lay, a) && a.main != Collecting
    ensures SystemLeads(lay, true, a, s) && SystemReachable(lay, s) && Flipped(s)
    ensures SameReceivers(a, s) && s.disk == a.disk
  {
    Depart(lay, true, a);
    hide OnRoute, AllParameters;
    s := a;
    if s.main == DiskWritten { s := SentinelNow(lay, a, s); }
    s := DrainToSentinel(lay, a, s);
    RouteDone(lay, a, s);
    s := StopAll(lay, a, s, 0);
    RouteDone(lay, a, s);
  }

  lemma SentinelNow(lay: Layout, a: System, s: System) returns (s': System)
    requires OnRoute(lay, true, a, s) && s.main == DiskWritten
    ensures OnRoute(lay, true, a, s') && s' == s.(main := SentinelSent, tcp := s'.tcp)
  {
    hide SystemLeads, SystemReachable, LanesInv, BarrierInv;
    s' := Advance(lay, true, a, s, SendSentinel);
  }

  lemma LeadsThrough(lay: Layout, lossless: bool, a: System, b: System, c: System)
    requires SystemLeads(lay, lossless, a, b) && SystemLeads(lay, lossless, b, c)
    ensures SystemLeads(lay, lossless, a, c)
  {
    hide Passes;
    var trace, steps :| SystemBetween(lay, lossless, a, trace, steps, b);
    var trace1, steps1 :| SystemBetween(lay, lossless, b, trace1, steps1, c);
    var n := |steps|;
    var trace', steps' := trace + trace1[1..], steps + steps1;
    forall j | 0 <= j < |steps'| ensures Passes(lay, lossless, trace'[j], steps'[j], trace'[j + 1]) {
      if j < n {
        assert trace'[j] == trace[j] && trace'[j + 1] == trace[j + 1];
      } else {
        assert trace'[j] == trace1[j - n] && trace'[j + 1] == trace1[j - n + 1];
      }
    }
    assert SystemBetween(lay, lossless, a, trace', steps', c);
  }

  // ----- and it cannot be put off -----

  predicate BySender(step: Step) {
    || step.SendFirst? || step.EndFirst? || step.SeeDone? || step.SeeNotDone? || step.SeeEmpty?
    || step.SeeNonempty? || step.Read? || step.Send? || step.Erase?
  }

  /** How many steps the sender can still make once no request comes in any more. */
  function Rank(p: Part, s: Sender): (rank: nat) {
    match s.pc
    case Stopped => 0
    case CheckDone => 1
    case CheckEmpty => 4 * |s.requests| + 4
    case ReadBegin => 4 * |s.requests| + 3
    case Resend => 4 * |s.requests| + 2
    case EraseBegin => 4 * |s.requests| + 1
    case FirstPass => if s.sendPtr < p.Len() then p.Len() - s.sendPtr + 2 else 2
  }

  /** In the resend loop, or out of it with nothing left to send. */
  predicate Serves(s: Sender) {
    s.pc == CheckEmpty || s.pc == ReadBegin || s.pc == Resend || s.pc == EraseBegin || s.requests == {}
  }

  lemma RankStep(p: Part, l: Lane, step: Step)
    requires Enabled(p, l, step) && !step.TakeNack? && !step.SeeNotDone?
    ensures var l' := Apply(p, l, step);
      && (if BySender(step) then Rank(p, l'.sender) < Rank(p, l.sender) else l'.sender == l.sender)
      && l'.handled == l.handled && (Serves(l.sender) ==> Serves(l'.sender))
  {
    hide OnWire, Min, Arrive, NackNext, FinishGap, InGap, Parameters;
    if step.Erase? {
      LeastIsIn(l.sender.requests);
      assert |l.sender.requests - {Min(l.sender.requests)}| == |l.sender.requests| - 1;
    }
  }

  lemma LeastIsIn(s: set<nat>)
    requires s != {}
    ensures Min(s) in s
  {
  }

  /** A sender that has not stopped can make a step; if it is at its test, it sees the sentinel. */
  lemma SenderCanStep(p: Part, l: Lane) returns (step: Step)
    requires Parameters(p) && LaneInv(p, l) && l.sender.pc != Stopped
    ensures Enabled(p, l, step) && BySender(step) && !step.SeeNotDone?
  {
    HasWork(p, l);
    var stale := seq(p.d + 8, _ => 0);
    match l.sender.pc
    case FirstPass => step := if l.sender.sendPtr < p.Len() then SendFirst(stale) else EndFirst;
    case CheckDone => step := SeeDone;
    case CheckEmpty => step := if l.sender.requests == {} then SeeEmpty else SeeNonempty;
    case ReadBegin => step := Read;
    case Resend => step := Send(stale);
    case EraseBegin => step := Erase;
  }

  function SenderSteps(steps: seq<SystemStep>, i: nat): (n: nat) {
    if steps == [] then 0
    else
      var last := steps[|steps| - 1];
      SenderSteps(steps[..|steps| - 1], i) + if last.InPart? && last.i == i && BySender(last.step) then 1 else 0
  }

  function HandlerSteps(steps: seq<SystemStep>): (n: nat) {
    if steps == [] then 0
    else HandlerSteps(steps[..|steps| - 1]) + if steps[|steps| - 1].HandleFrame? then 1 else 0
  }

  lemma SentinelStep(lay: Layout, s: System, step: SystemStep)
    requires Good(lay, s) && s.main == SentinelSent && MayStep(lay, s, step)
    ensures var s' := Next(lay, s, step);
      && s'.main == SentinelSent && (s.sendingDone ==> s'.sendingDone)
      && |s.tcp| == |s'.tcp| + if step.HandleFrame? then 1 else 0
  {
    hide Enabled, Apply, Blit, LanesInv, Content, Counters, Framed;
    if step.InPart? { StepWeights(lay.PartOf(step.i), s.lanes[step.i], step.step); }
  }

  lemma AtSentinel(lay: Layout, s: System)
    requires Good(lay, s) && s.main == SentinelSent
    ensures s.sendingDone <==> s.tcp == []
    ensures !s.sendingDone ==> |s.lanes| == lay.K() && MayStep(lay, s, HandleFrame)
  {
    hide LanesInv, Content, Counters, Framed;
  }

  /** Once the sentinel has been sent, and whatever else happens: each iteration of the handler
      brings it one frame closer, nothing puts a frame behind it, and it can always take the next one
      until it has handled the sentinel. */
  lemma {:induction false} HandlerEnds(lay: Layout, trace: seq<System>, steps: seq<SystemStep>, s: System)
    requires |steps| < |trace| && Good(lay, trace[0]) && trace[0].main == SentinelSent
    requires SystemBetween(lay, false, trace[0], trace, steps, s)
    ensures Good(lay, s) && s.main == SentinelSent
    ensures HandlerSteps(steps) + |s.tcp| == |trace[0].tcp|
    ensures s.sendingDone <==> HandlerSteps(steps) == |trace[0].tcp|
    ensures !s.sendingDone ==> |s.lanes| == lay.K() && MayStep(lay, s, HandleFrame)
    decreases |steps|
  {
    hide Good, Next, MayStep;
    if steps != [] {
      var n := |steps| - 1;
      HandlerEnds(lay, trace[..n + 1], steps[..n], trace[n]);
      assert Passes(lay, false, trace[n], steps[n], s);
      GoodStep(lay, trace[n], steps[n]);
      SentinelStep(lay, trace[n], steps[n]);
    }
    AtSentinel(lay, s);
  }

  lemma SenderStep(lay: Layout, s: System, step: SystemStep, i: nat)
    requires Good(lay, s) && s.main == SentinelSent && s.sendingDone && MayStep(lay, s, step)
    requires i < lay.K() == |s.lanes|
    ensures |Next(lay, s, step).lanes| == lay.K()
    ensures var p, l, l' := lay.PartOf(i), s.lanes[i], Next(lay, s, step).lanes[i];
      && l'.handled == l.handled && (Serves(l.sender) ==> Serves(l'.sender))
      && Rank(p, l'.sender) + SenderSteps([step], i) <= Rank(p, l.sender)
  {
    hide Next, MayStep, Apply, Enabled, BarrierInv, Content, Rank, Serves;
    assert SenderSteps([step], i)
        == SenderSteps([], i) + if step.InPart? && step.i == i && BySender(step.step) then 1 else 0;
    NoneToHandle(lay, s, step);
    var moves, st := PartStep(lay, s, step, i);
    if moves { RankStep(lay.PartOf(i), s.lanes[i], st); }
  }

  lemma NoneToHandle(lay: Layout, s: System, step: SystemStep)
    requires s.sendingDone && MayStep(lay, s, step)
    ensures !step.HandleFrame? && (step.InPart? ==> !step.step.TakeNack? && !step.step.SeeNotDone?)
  {
  }

  lemma WillStep(lay: Layout, s: System, i: nat)
    requires AllParameters(lay) && Good(lay, s) && s.sendingDone && i < lay.K() == |s.lanes|
    requires s.lanes[i].sender.pc != Stopped
    ensures exists step: Step :: BySender(step) && MayStep(lay, s, InPart(i, step))
  {
    hide Reachable, LaneInv, BarrierInv, Content, Enabled, Parameters;
    assert LaneOk(lay, s, i);
    ReachableInv(lay.PartOf(i), s.lanes[i]);
    ParametersOf(lay, i);
    var step := SenderCanStep(lay.PartOf(i), s.lanes[i]);
    assert BySender(step) && MayStep(lay, s, InPart(i, step));
  }

  lemma NextIsRequested(s: Sender, nacked: seq<nat>, handled: nat)
    requires Requests(s, nacked, handled)
    ensures Base(s) == handled || nacked[Base(s)] in s.requests
  {
    var window := nacked[Base(s)..handled];
    assert Base(s) == handled || window[0] == nacked[Base(s)];
  }

  lemma AllServed(lay: Layout, s: System, i: nat)
    requires Good(lay, s) && s.sendingDone && i < lay.K() == |s.lanes|
    requires s.lanes[i].sender.pc == Stopped && Serves(s.lanes[i].sender)
    ensures s.lanes[i].sender.resent == s.lanes[i].receiver.nacked
  {
    hide Reachable, Inv, InFlight, Tokens, Control, Content, Counters, Framed;
    var l := s.lanes[i];
    assert LaneOk(lay, s, i);
    ReachableInv(lay.PartOf(i), l);
    NextIsRequested(l.sender, l.receiver.nacked, l.handled);
    assert FramesOf([], i) == [];
  }

  /** Once the sentinel has been handled, every schedule ends the senders: whatever the network and
      the other threads do, part i's sender can make at most as many steps as its rank, can make one
      as long as it has not stopped, and has stopped when it has made them all. If the sentinel finds
      it resending, it has then sent again everything that was ever NACKed. */
  lemma {:induction false} SendersEnd(lay: Layout, trace: seq<System>, steps: seq<SystemStep>, s: System, i: nat)
    requires |steps| < |trace| && AllParameters(lay) && Good(lay, trace[0]) && i < lay.K() == |trace[0].lanes|
    requires trace[0].sendingDone && SystemBetween(lay, false, trace[0], trace, steps, s)
    ensures Good(lay, s) && s.sendingDone && |s.lanes| == lay.K()
    ensures var p, l, l' := lay.PartOf(i), trace[0].lanes[i], s.lanes[i];
      && SenderSteps(steps, i) + Rank(p, l'.sender) <= Rank(p, l.sender)
      && (SenderSteps(steps, i) == Rank(p, l.sender) ==> l'.sender.pc == Stopped)
      && (l'.sender.pc != Stopped ==> exists step: Step :: BySender(step) && MayStep(lay, s, InPart(i, step)))
      && (Serves(l.sender) ==> Serves(l'.sender))
      && (Serves(l.sender) && l'.sender.pc == Stopped ==> l'.sender.resent == l'.receiver.nacked)
    decreases |steps|
  {
    hide Good, Next, MayStep, AllParameters, Rank, Serves;
    DoneAtSentinel(lay, trace[0]);
    if steps != [] {
      var n := |steps| - 1;
      SendersEnd(lay, trace[..n + 1], steps[..n], trace[n], i);
      assert Passes(lay, false, trace[n], steps[n], s);
      DoneAtSentinel(lay, trace[n]);
      GoodStep(lay, trace[n], steps[n]);
      SentinelStep(lay, trace[n], steps[n]);
      SenderStep(lay, trace[n], steps[n], i);
      OneMore(steps, i);
    }
    assert Rank(lay.PartOf(i), s.lanes[i].sender) == 0 ==> s.lanes[i].sender.pc == Stopped by {
      RankIsPositive(lay.PartOf(i), s.lanes[i].sender);
    }
    if s.lanes[i].sender.pc != Stopped {
      WillStep(lay, s, i);
    } else if Serves(s.lanes[i].sender) {
      AllServed(lay, s, i);
    }
  }

  lemma DoneAtSentinel(lay: Layout, s: System)
    requires Good(lay, s) && s.sendingDone
    ensures s.main == SentinelSent
  {
    hide LanesInv, Content, Counters, Framed;
  }

  lemma OneMore(steps: seq<SystemStep>, i: nat)
    requires steps != []
    ensures SenderSteps(steps, i) == SenderSteps(steps[..|steps| - 1], i) + SenderSteps([steps[|steps| - 1]], i)
  {
    var last := [steps[|steps| - 1]];
    assert SenderSteps(last, i)
        == SenderSteps(last[..0], i) + if last[0].InPart? && last[0].i == i && BySender(last[0].step) then 1 else 0;
  }

  lemma RankIsPositive(p: Part, s: Sender)
    ensures Rank(p, s) == 0 ==> s.pc == Stopped
  {
  }
}
