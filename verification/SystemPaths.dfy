// Runs of the whole system from a given state, and how a run of one part becomes one of them.
module SystemPaths {
  import opened Nacks
  import opened Lanes
  import opened LanePaths
  import opened System
  import opened Barrier
  import opened Transfer

  /** A step; if `lossless`, not one in which the network drops or duplicates. */
  ghost predicate Passes(lay: Layout, lossless: bool, s: System, step: SystemStep, s': System) {
    Follows(lay, s, step, s') && (lossless && step.InPart? ==> !step.step.Drop? && !step.step.Duplicate?)
  }

  ghost predicate SystemBetween(lay: Layout, lossless: bool, a: System,
                                trace: seq<System>, steps: seq<SystemStep>, b: System)
  {
    && |trace| == |steps| + 1 && trace[0] == a && trace[|steps|] == b
    && forall j :: 0 <= j < |steps| ==> Passes(lay, lossless, trace[j], steps[j], trace[j + 1])
  }

  ghost predicate SystemLeads(lay: Layout, lossless: bool, a: System, b: System) {
    exists trace, steps :: SystemBetween(lay, lossless, a, trace, steps, b)
  }

  /** s is reachable, by way of a. */
  ghost predicate OnRoute(lay: Layout, lossless: bool, a: System, s: System) {
    SystemLeads(lay, lossless, a, s) && SystemReachable(lay, s) && LanesInv(lay, s) && BarrierInv(lay, s)
  }

  lemma Depart(lay: Layout, lossless: bool, a: System)
    requires SystemReachable(lay, a)
    ensures OnRoute(lay, lossless, a, a)
  {
    assert SystemBetween(lay, lossless, a, [a], [], a);
    SystemInv(lay, a);
  }

  lemma DepartBoot(lay: Layout, lossless: bool)
    ensures OnRoute(lay, lossless, Boot(lay), Boot(lay))
  {
    assert EndsIn(lay, [Boot(lay)], [], Boot(lay));
    Depart(lay, lossless, Boot(lay));
  }

  lemma ReachableNext(lay: Layout, s: System, step: SystemStep)
    requires SystemReachable(lay, s) && |s.lanes| == lay.K() && MayStep(lay, s, step)
    ensures SystemReachable(lay, Next(lay, s, step))
  {
    hide Next, MayStep;
    var s' := Next(lay, s, step);
    var trace, steps :| EndsIn(lay, trace, steps, s);
    var trace', steps' := trace + [s'], steps + [step];
    forall j | 0 <= j < |steps'| ensures Follows(lay, trace'[j], steps'[j], trace'[j + 1]) {
      if j < |steps| { assert trace'[j] == trace[j] && trace'[j + 1] == trace[j + 1]; }
    }
    assert EndsIn(lay, trace', steps', s');
  }

  lemma Advance(lay: Layout, lossless: bool, a: System, s: System, step: SystemStep) returns (s': System)
    requires OnRoute(lay, lossless, a, s) && MayStep(lay, s, step)
    requires lossless && step.InPart? ==> !step.step.Drop? && !step.step.Duplicate?
    ensures s' == Next(lay, s, step) && OnRoute(lay, lossless, a, s')
  {
    hide Next, MayStep, BarrierInv;
    ReachableNext(lay, s, step);
    s' := Next(lay, s, step);
    SystemInv(lay, s');
    var trace, steps :| SystemBetween(lay, lossless, a, trace, steps, s);
    var trace', steps' := trace + [s'], steps + [step];
    forall j | 0 <= j < |steps'| ensures Passes(lay, lossless, trace'[j], steps'[j], trace'[j + 1]) {
      if j < |steps| { assert trace'[j] == trace[j] && trace'[j + 1] == trace[j + 1]; }
    }
    assert SystemBetween(lay, lossless, a, trace', steps', s');
  }

  // ----- one part moves -----

  predicate OnlyPart(tcp: seq<Request>, i: nat) {
    forall j :: 0 <= j < |tcp| ==> tcp[j].idx == i
  }

  /** Part i has moved on, nothing else has. */
  predicate Moved(s: System, s': System, i: nat, l': Lane)
    requires i < |s.lanes|
  {
    && s'.lanes == s.lanes[i := l'] && s'.main == s.main && s'.sendingDone == s.sendingDone && s'.disk == s.disk
    && (OnlyPart(s.tcp, i) ==> OnlyPart(s'.tcp, i))
  }

  /** Such a lane may run before, or after, the sentinel has been handled. */
  predicate Suits(m: Mode, lossless: bool, sendingDone: bool) {
    && (if sendingDone then !m.stays && !m.takes else !m.ends)
    && (lossless ==> !m.drops && !m.duplicates)
  }

  lemma HeadOfOnly(lay: Layout, s: System, i: nat)
    requires LanesInv(lay, s) && i < lay.K() && OnlyPart(s.tcp, i)
    requires s.lanes[i].handled < |s.lanes[i].receiver.nacked|
    ensures s.tcp != [] && s.tcp[0].idx == i
    ensures s.tcp[0].seqNum == s.lanes[i].receiver.nacked[s.lanes[i].handled] < lay.fileSize
  {
    hide Reachable;
    assert LaneOk(lay, s, i);
    if s.tcp != [] { HeadIsNext(lay, s, i); }
  }

  lemma LiftTake(lay: Layout, lossless: bool, a: System, s: System, i: nat) returns (s': System)
    requires OnRoute(lay, lossless, a, s) && i < lay.K() == |s.lanes| && !s.sendingDone
    requires OnlyPart(s.tcp, i) && Enabled(lay.PartOf(i), s.lanes[i], TakeNack)
    ensures OnRoute(lay, lossless, a, s') && Moved(s, s', i, Apply(lay.PartOf(i), s.lanes[i], TakeNack))
  {
    hide SystemLeads, SystemReachable, LanesInv, BarrierInv, Reachable;
    HeadOfOnly(lay, s, i);
    s' := Advance(lay, lossless, a, s, HandleFrame);
  }

  lemma LiftOther(lay: Layout, lossless: bool, m: Mode, a: System, s: System, i: nat, step: Step) returns (s': System)
    requires OnRoute(lay, lossless, a, s) && i < lay.K() == |s.lanes|
    requires Suits(m, lossless, s.sendingDone) && Allowed(m, step) && !step.TakeNack?
    requires Enabled(lay.PartOf(i), s.lanes[i], step)
    ensures OnRoute(lay, lossless, a, s') && Moved(s, s', i, Apply(lay.PartOf(i), s.lanes[i], step))
  {
    hide OnRoute, Enabled, Apply, Blit;
    s' := Advance(lay, lossless, a, s, InPart(i, step));
  }

  /** A run of part i alone, or with the NACKs on the connection all its own, is a run of the
      system in which nothing else moves. */
  lemma {:induction false} Lift(lay: Layout, lossless: bool, m: Mode, a: System, s: System, i: nat,
                                trace: seq<Lane>, steps: seq<Step>, l': Lane) returns (s': System)
    requires OnRoute(lay, lossless, a, s) && i < lay.K() == |s.lanes|
    requires Suits(m, lossless, s.sendingDone) && (m.takes ==> OnlyPart(s.tcp, i))
    requires Between(lay.PartOf(i), m, s.lanes[i], trace, steps, l')
    ensures OnRoute(lay, lossless, a, s') && Moved(s, s', i, l')
    decreases |steps|
  {
    hide OnRoute, Enabled, Apply, OnlyPart;
    if steps == [] {
      s' := s;
    } else {
      var n := |steps| - 1;
      var s1 := Lift(lay, lossless, m, a, s, i, trace[..n + 1], steps[..n], trace[n]);
      assert Taken(lay.PartOf(i), m, trace[n], steps[n], l');
      if steps[n].TakeNack? {
        s' := LiftTake(lay, lossless, a, s1, i);
      } else {
        s' := LiftOther(lay, lossless, m, a, s1, i, steps[n]);
      }
    }
  }

  lemma LiftLeads(lay: Layout, lossless: bool, m: Mode, a: System, s: System, i: nat, l': Lane) returns (s': System)
    requires OnRoute(lay, lossless, a, s) && i < lay.K() == |s.lanes|
    requires Suits(m, lossless, s.sendingDone) && (m.takes ==> OnlyPart(s.tcp, i))
    requires Leads(lay.PartOf(i), m, s.lanes[i], l')
    ensures OnRoute(lay, lossless, a, s') && Moved(s, s', i, l')
  {
    hide OnRoute, Moved, Suits;
    var trace, steps :| Between(lay.PartOf(i), m, s.lanes[i], trace, steps, l');
    s' := Lift(lay, lossless, m, a, s, i, trace, steps, l');
  }

  // ----- what a step does to one part -----

  /** The step that part i makes in a system step, if it makes one. */
  lemma PartStep(lay: Layout, s: System, step: SystemStep, i: nat) returns (moves: bool, st: Step)
    requires LanesInv(lay, s) && MayStep(lay, s, step) && i < lay.K()
    ensures |Next(lay, s, step).lanes| == lay.K()
    ensures moves ==>
      Enabled(lay.PartOf(i), s.lanes[i], st) && Next(lay, s, step).lanes[i] == Apply(lay.PartOf(i), s.lanes[i], st)
    ensures moves ==> st == if step.InPart? then step.step else TakeNack
    ensures if step.InPart? then moves <==> step.i == i else moves ==> step.HandleFrame?
    ensures !moves ==> Next(lay, s, step).lanes[i] == s.lanes[i]
  {
    hide Enabled, Reachable, Blit;
    moves, st := false, TakeNack;
    if step.InPart? && step.i == i {
      moves, st := true, step.step;
    } else if step.HandleFrame? && s.tcp[0].idx == i {
      assert LaneOk(lay, s, i);
      HeadIsNext(lay, s, i);
      HandleEnabled(lay.PartOf(i), s.lanes[i]);
      moves := true;
    }
  }
}
