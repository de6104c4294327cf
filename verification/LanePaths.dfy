// Runs of one lane, from its start or from a given state, when the network is or is not allowed
// to interfere.
module LanePaths {
  import opened Receiving
  import opened Lanes

  /** What may happen on the way: the network drops, the network duplicates, NACKs are taken off
      the shared connection, the sender sees that the sentinel has arrived, it sees that it has not. */
  datatype Mode = Mode(drops: bool, duplicates: bool, takes: bool, ends: bool, stays: bool)

  const ANYTHING: Mode := Mode(true, true, true, true, true)
  const UNDUPLICATED: Mode := Mode(true, false, true, true, true)
  const UNDROPPED: Mode := Mode(false, true, true, true, true)
  const UNSERVED: Mode := Mode(true, true, false, true, true)
  const UNDISTURBED: Mode := Mode(false, false, true, true, true)
  const REORDERING: Mode := Mode(false, false, true, false, true)
  const ALONE: Mode := Mode(false, false, false, false, true)
  const LOSING_ALONE: Mode := Mode(true, false, false, false, false)
  const LOSING: Mode := Mode(true, false, true, false, true)
  const STOPPING: Mode := Mode(false, false, false, true, false)

  predicate Allowed(m: Mode, step: Step) {
    && (step.Drop? ==> m.drops)
    && (step.Duplicate? ==> m.duplicates)
    && (step.TakeNack? ==> m.takes)
    && (step.SeeDone? ==> m.ends)
    && (step.SeeNotDone? ==> m.stays)
  }

  predicate Within(m: Mode, m': Mode) {
    && (m.drops ==> m'.drops) && (m.duplicates ==> m'.duplicates) && (m.takes ==> m'.takes)
    && (m.ends ==> m'.ends) && (m.stays ==> m'.stays)
  }

  ghost predicate Taken(p: Part, m: Mode, l: Lane, step: Step, l': Lane) {
    Allowed(m, step) && Enabled(p, l, step) && l' == Apply(p, l, step)
  }

  ghost predicate Between(p: Part, m: Mode, a: Lane, trace: seq<Lane>, steps: seq<Step>, b: Lane) {
    && |trace| == |steps| + 1 && trace[0] == a && trace[|steps|] == b
    && forall j :: 0 <= j < |steps| ==> Taken(p, m, trace[j], steps[j], trace[j + 1])
  }

  /** b can follow a. */
  ghost predicate Leads(p: Part, m: Mode, a: Lane, b: Lane) {
    exists trace, steps :: Between(p, m, a, trace, steps, b)
  }

  ghost predicate Reaches(p: Part, m: Mode, l: Lane) {
    Leads(p, m, START, l)
  }

  ghost predicate Reachable(p: Part, l: Lane) {
    Reaches(p, ANYTHING, l)
  }

  lemma Stay(p: Part, m: Mode, a: Lane)
    ensures Leads(p, m, a, a)
  {
    assert Between(p, m, a, [a], [], a);
  }

  lemma Then(p: Part, m: Mode, a: Lane, l: Lane, step: Step) returns (l': Lane)
    requires Leads(p, m, a, l) && Enabled(p, l, step) && Allowed(m, step)
    ensures l' == Apply(p, l, step) && Leads(p, m, a, l')
  {
    hide Apply, Enabled;
    l' := Apply(p, l, step);
    var trace, steps :| Between(p, m, a, trace, steps, l);
    var trace', steps' := trace + [l'], steps + [step];
    forall j | 0 <= j < |steps'| ensures Taken(p, m, trace'[j], steps'[j], trace'[j + 1]) {
      if j < |steps| { assert trace'[j] == trace[j] && trace'[j + 1] == trace[j + 1]; }
    }
    assert Between(p, m, a, trace', steps', l');
  }

  /** What a stricter network allows, a laxer one allows too. */
  lemma LeadsWithin(p: Part, m: Mode, m': Mode, a: Lane, b: Lane)
    requires Leads(p, m, a, b) && Within(m, m')
    ensures Leads(p, m', a, b)
  {
    hide Enabled, Apply;
    var trace, steps :| Between(p, m, a, trace, steps, b);
    forall j | 0 <= j < |steps| ensures Taken(p, m', trace[j], steps[j], trace[j + 1]) {
      assert Taken(p, m, trace[j], steps[j], trace[j + 1]);
    }
    assert Between(p, m', a, trace, steps, b);
  }

  /** The invariant holds all along. */
  lemma {:induction false} PathKeeps(p: Part, m: Mode, trace: seq<Lane>, steps: seq<Step>, l: Lane)
    requires |steps| < |trace| && LaneInv(p, trace[0]) && Between(p, m, trace[0], trace, steps, l)
    ensures LaneInv(p, l)
    decreases |steps|
  {
    hide LaneInv, Apply, Enabled;
    if steps != [] {
      var n := |steps| - 1;
      PathKeeps(p, m, trace[..n + 1], steps[..n], trace[n]);
      assert Taken(p, m, trace[n], steps[n], l);
      StepKeeps(p, trace[n], steps[n]);
    }
  }

  lemma ReachesInv(p: Part, m: Mode, l: Lane)
    requires Reaches(p, m, l)
    ensures Reachable(p, l) && LaneInv(p, l)
  {
    StartInv(p);
    hide LaneInv;
    LeadsWithin(p, m, ANYTHING, START, l);
    var trace, steps :| Between(p, m, START, trace, steps, l);
    PathKeeps(p, m, trace, steps, l);
  }

  lemma ReachableInv(p: Part, l: Lane)
    requires Reachable(p, l)
    ensures LaneInv(p, l)
  {
    hide LaneInv;
    ReachesInv(p, ANYTHING, l);
  }

  lemma ReachableStart(p: Part)
    ensures Reachable(p, START)
  {
    Stay(p, ANYTHING, START);
  }

  lemma ReachableStep(p: Part, l: Lane, step: Step)
    requires Reachable(p, l) && Enabled(p, l, step)
    ensures Reachable(p, Apply(p, l, step))
  {
    hide Apply, Enabled;
    var l' := Then(p, ANYTHING, START, l, step);
  }
}
