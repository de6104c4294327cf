// The earlier server's gap loop as written strides by the datagram that revealed the gap: exactly
// when some run leaves it with a wrong report.
module ShortStride {
  import opened Slots
  import opened OnePass

  ghost predicate Ends(c: Params, trace: seq<Server>, steps: seq<Step>, v: Server) {
    Run(c, trace, steps) && trace[|steps|] == v
  }

  ghost predicate Reachable(c: Params, v: Server) {
    exists trace, steps :: Ends(c, trace, steps, v)
  }

  lemma ReachableStep(c: Params, v: Server, step: Step)
    requires Reachable(c, v) && CanStep(c, v, step)
    ensures Reachable(c, Next(c, v, step))
  {
    hide Next, CanStep;
    var v' := Next(c, v, step);
    var trace, steps :| Ends(c, trace, steps, v);
    var trace', steps' := trace + [v'], steps + [step];
    forall j | 0 <= j < |steps'| ensures Follows(c, trace'[j], steps'[j], trace'[j + 1]) {
      if j < |steps| { assert trace'[j] == trace[j] && trace'[j + 1] == trace[j + 1]; }
    }
    assert Ends(c, trace', steps', v');
  }

  /** Part i's loop is over and its report is not exact. */
  ghost predicate WrongReport(c: Params, v: Server, i: nat)
    requires i < |c.lens|
  {
    && |v.threads| == |c.lens| && v.threads[i].pc == Waiting && v.threads[i].expected >= c.lens[i]
    && !ExactReport(c, v, i)
  }

  /** The gap loop of part i runs to its end. */
  lemma {:induction false} FillUp(c: Params, v: Server, i: nat) returns (v': Server)
    requires Reachable(c, v) && i < |c.lens| == |v.threads|
    requires v.threads[i].pc.Filling? && v.threads[i].pc.size > 0
    ensures Reachable(c, v') && |v'.threads| == |c.lens| && v'.threads[i].pc == Waiting
    ensures v'.threads[i].openers == v.threads[i].openers
    ensures v'.threads[i].log == v.threads[i].log + [v.threads[i].pc.seqNum]
    decreases if v.threads[i].expected < v.threads[i].pc.seqNum
              then v.threads[i].pc.seqNum - v.threads[i].expected else 0
  {
    hide Reachable;
    if v.threads[i].expected < v.threads[i].pc.seqNum {
      ReachableStep(c, v, Fill(i));
      v' := FillUp(c, Next(c, v, Fill(i)), i);
    } else {
      ReachableStep(c, v, Finish(i));
      v' := Next(c, v, Finish(i));
    }
  }

  lemma Launched(c: Params)
    ensures Reachable(c, Boot(c))
  {
    assert Ends(c, [Boot(c)], [], Boot(c));
  }

  lemma AtExit(c: Params, v: Server, i: nat)
    requires Reachable(c, v) && i < |c.lens| == |v.threads| && v.threads[i].pc == Waiting
    ensures v.threads[i].expected >= c.lens[i] <==> HasFinal(c, i, v.threads[i])
    ensures HasFinal(c, i, v.threads[i]) ==> (ExactReport(c, v, i) <==> !ShortGap(c, i, v.threads[i]))
    ensures Shape(c, i, v.threads[i])
  {
    var trace, steps :| Ends(c, trace, steps, v);
    HighWaterExit(c, trace, steps, i);
    RunKeeps(c, trace, steps);
    assert ThreadInv(c, v, i);
  }

  /** The short final datagram comes first and alone. */
  lemma FinalFirst(c: Params, i: nat) returns (v: Server)
    requires i < |c.lens| && c.stride == ByArrival && c.d < c.lens[i] && c.lens[i] % c.d != 0
    ensures Reachable(c, v) && WrongReport(c, v, i)
  {
    var f := SlotOf(c.d, c.lens[i], c.lens[i] - 1);
    ShortTail(c.d, c.lens[i], f);
    Launched(c);
    var v0 := Boot(c);
    ReachableStep(c, v0, Arrive(i, f));
    hide Reachable;
    v := FillUp(c, Next(c, v0, Arrive(i, f)), i);
    assert f in v.threads[i].openers && f in v.threads[i].log;
    AtExit(c, v, i);
  }

  /** The last slot is short, and not the first one, exactly in these lengths. */
  lemma ShortTail(d: pos, len: nat, f: nat)
    requires IsSlot(d, len, f)
    ensures len % d != 0 && len <= f + d ==> SlotSize(d, len, f) < d
    ensures len > d && len <= f + d ==> f > 0
    ensures SlotSize(d, len, f) < d ==> len % d != 0
    ensures SlotSize(d, len, f) < d && f > 0 ==> len > d
  {
    AlignedIsMultiple(d, len);
    if len == f + d { assert Aligned(d, len); }
    if Aligned(d, len) { SlotsApart(d, f, len); }
    if f > 0 { SlotsApart(d, 0, f); }
  }

  lemma OnlyShortTails(c: Params, v: Server, i: nat)
    requires i < |c.lens| && Reachable(c, v) && WrongReport(c, v, i)
    ensures c.stride == ByArrival && c.d < c.lens[i] && c.lens[i] % c.d != 0
  {
    AtExit(c, v, i);
    var o :| o in v.threads[i].openers && o < c.lens[i] && SlotSize(c.d, c.lens[i], o) < c.d;
    ShortTail(c.d, c.lens[i], o);
  }

  /** Some run leaves part i's loop with a report that is not the slots that never arrived, if and
      only if the stride is the one written, the part has more than one slot, and the last of them
      is short. */
  lemma WrongReportIff(c: Params, i: nat)
    requires i < |c.lens|
    ensures (exists v :: Reachable(c, v) && WrongReport(c, v, i))
      <==> c.stride == ByArrival && c.d < c.lens[i] && c.lens[i] % c.d != 0
  {
    hide Reachable, WrongReport;
    if c.stride == ByArrival && c.d < c.lens[i] && c.lens[i] % c.d != 0 {
      var v := FinalFirst(c, i);
    }
    forall v | Reachable(c, v) && WrongReport(c, v, i)
      ensures c.stride == ByArrival && c.d < c.lens[i] && c.lens[i] % c.d != 0
    {
      OnlyShortTails(c, v, i);
    }
  }
}
