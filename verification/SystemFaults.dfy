// What the faults of one part do to the whole transfer: a file that is wrong although the network
// only reordered, and a transfer that one lost datagram blocks for ever.
module SystemFaults {
  import opened Bytes
  import opened Slots
  import opened Splits
  import opened Receiving
  import opened Lanes
  import opened LaneRuns
  import opened LanePaths
  import opened LaneFaults
  import opened LaneCopies
  import opened LaneLoss
  import opened System
  import opened Barrier
  import opened Transfer
  import opened Echo
  import opened SystemPaths
  import opened Ending
  import opened SystemProgress

  // ----- a wrong file -----

  /** Part i is left without slot x, every other part is complete, and the disk is written. */
  lemma FaultyTransfer(lay: Layout, i: nat) returns (s: System, x: nat)
    requires AllParameters(lay) && i < lay.K()
    requires lay.counting == EveryArrival && LongEnough(lay.PartOf(i))
    ensures OnRoute(lay, true, Boot(lay), s) && s.main == DiskWritten && AllFinished(s)
    ensures s.disk == s.buf[..Clamp(|s.buf|, s.totalRecvSize)]
    ensures |s.lanes| == lay.K() && IsSlot(lay.d, lay.sizes[i], x) && x !in s.lanes[i].receiver.log
    ensures if lay.gap == AsWritten then x == 0 else x + lay.d >= lay.sizes[i]
  {
    var p, s0, l := lay.PartOf(i), Boot(lay), Lanes.START;
    DepartBoot(lay, true);
    ParametersOf(lay, i);
    hide OnRoute, AllParameters, Parameters, Leads;
    l, x := FaultyRun(p);
    var s1 := LiftLeads(lay, true, REORDERING, s0, s0, i, l);
    var s2 := RestInOrder(lay, true, s0, s1, 0, lay.K());
    s := WriteNow(lay, true, s0, s2);
  }

  lemma {:induction false} TallyAtLeast(lanes: seq<Lane>, sizes: seq<nat>)
    requires |lanes| == |sizes|
    requires forall i :: 0 <= i < |lanes| ==> lanes[i].receiver.pc == Finished && lanes[i].receiver.recvSize >= sizes[i]
    ensures Tally(Barrier.Bytes, lanes) >= Total(sizes)
  {
    if lanes != [] {
      TallyAtLeast(lanes[..|lanes| - 1], sizes[..|sizes| - 1]);
    }
  }

  lemma FinishedIsLong(lay: Layout, s: System, i: nat)
    requires LanesInv(lay, s) && i < lay.K() && s.lanes[i].receiver.pc == Finished
    ensures s.lanes[i].receiver.recvSize >= lay.sizes[i]
  {
    assert LaneOk(lay, s, i);
    if lay.sizes[i] > 0 { LeavesCompleteIff(lay.PartOf(i), s.lanes[i]); }
  }

  /** The whole buffer is written when all receivers have finished. */
  lemma CountedInFull(lay: Layout, s: System)
    requires LanesInv(lay, s) && BarrierInv(lay, s) && AllFinished(s)
    ensures s.totalRecvSize >= Total(lay.sizes)
  {
    hide Reachable, Framed, Gates;
    forall i | 0 <= i < |s.lanes| ensures s.lanes[i].receiver.recvSize >= lay.sizes[i] {
      FinishedIsLong(lay, s, i);
    }
    TallyAtLeast(s.lanes, lay.sizes);
  }

  /** Nothing but part i's slot x reaches a byte of that slot, when the parts do not overlap. */
  lemma Untouched(lay: Layout, s: System, i: nat, x: nat, p: nat)
    requires LanesInv(lay, s) && i < lay.K() && IsSlot(lay.d, lay.sizes[i], x) && Covers(lay, i, x, p)
    requires x !in s.lanes[i].receiver.log
    requires forall j: nat :: j < lay.K() && lay.offs[j] <= p < lay.offs[j] + lay.sizes[j] ==> j == i
    ensures !Touched(lay, s, p)
  {
    if Touched(lay, s, p) {
      var j: nat :| j < lay.K() && TouchedBy(lay, s, j, p);
      var y :| y in s.lanes[j].receiver.log && Covers(lay, j, y, p);
      assert LaneOk(lay, s, i);
      ReachableInv(lay.PartOf(i), s.lanes[i]);
      SameSlot(lay.d, lay.sizes[i], x, y, p - lay.offs[i]);
    }
  }

  lemma SameSlot(d: pos, len: nat, x: nat, y: nat, q: nat)
    requires IsSlot(d, len, x) && IsSlot(d, len, y)
    requires x <= q < x + SlotSize(d, len, x) && y <= q < y + SlotSize(d, len, y)
    ensures x == y
  {
    if x < y { SlotsApart(d, x, y); }
    if y < x { SlotsApart(d, y, x); }
  }

  /** With either rule a byte of a part lies in no other part, if it is not the last one's. */
  lemma OnePartOnly(n: nat, k: nat, rule: OffsetRule, i: nat, p: nat)
    requires i < k && (rule == PrefixOffsets || i < k - 1)
    requires Offset(n, k, rule, i) <= p < Offset(n, k, rule, i) + Size(n, k, i)
    ensures p < n
    ensures forall j: nat :: j < k && Offset(n, k, rule, j) <= p < Offset(n, k, rule, j) + Size(n, k, j) ==> j == i
  {
    Tiling(n, k);
    ShiftNonnegative(n, k);
    OffsetShift(n, k, rule, i);
    assert Splits.InPart(n, k, i, p);
    hide Offset, Size, Prefix;
    forall j: nat | j < k && Offset(n, k, rule, j) <= p < Offset(n, k, rule, j) + Size(n, k, j) ensures j == i {
      OffsetShift(n, k, rule, j);
      if j < k - 1 || rule == PrefixOffsets {
        assert Splits.InPart(n, k, j, p);
      } else {
        PartsBeforeLast(n, k, i);
      }
    }
  }

  /** Every arrival counted, prefix-sum offsets, or the written ones and not the last part: if part i
      is long enough, a run in which the network drops and duplicates nothing writes a file of at
      least full length in which a whole slot of part i is zero, whatever it was: the part's first
      slot as written, its final one with the gap guard repaired. */
  lemma ReorderingCorrupts(d: pos, n: nat, k: nat, rule: OffsetRule, gap: GapGuard, memory: seq<byte>, i: nat)
    returns (s: System, x: nat)
    requires 4 <= d < TWO_32 && 0 < k && n < TWO_32 && Extent(n, k, rule) <= |memory|
    requires i < k && (rule == PrefixOffsets || i < k - 1)
    requires Size(n, k, i) > 2 * d || (gap == AsWritten && Size(n, k, i) == 2 * d)
    ensures var lay := Direction(d, n, k, rule, gap, EveryArrival, memory);
      && lay.Valid() && SystemLeads(lay, true, Boot(lay), s) && s.main == DiskWritten
      && n <= |s.disk| <= |memory|
      && IsSlot(d, lay.sizes[i], x) && (if gap == AsWritten then x == 0 else x + d >= lay.sizes[i])
      && forall p: nat :: Covers(lay, i, x, p) ==> p < n && s.disk[p] == 0
  {
    var lay := Direction(d, n, k, rule, gap, EveryArrival, memory);
    PartsSmall(d, n, k, rule, gap, EveryArrival, memory);
    s, x := FaultyTransfer(lay, i);
    assert Content(lay, s) by { ContentSafety(lay, s); }
    CountedInFull(lay, s);
    TotalIsPrefix(n, k, k);
    SizesSum(n, k);
    ExtentAtLeast(n, k, rule);
    hide Size, Offset, Extent, Touched, LanesInv, BarrierInv, SystemReachable, SystemLeads, IsSlot;
    forall p: nat | Covers(lay, i, x, p) ensures p < n && s.disk[p] == 0 {
      OnePartOnly(n, k, rule, i, p);
      Untouched(lay, s, i, x, p);
    }
  }

  /** Each part of a run without drops and duplicates is such a run of its lane. */
  lemma {:induction false} LanesUndisturbed(lay: Layout, trace: seq<System>, steps: seq<SystemStep>, s: System, i: nat)
    requires SystemBetween(lay, true, Boot(lay), trace, steps, s) && i < lay.K()
    ensures Good(lay, s) && |s.lanes| == lay.K() && Reaches(lay.PartOf(i), UNDISTURBED, s.lanes[i])
    decreases |steps|
  {
    hide Next, MayStep, Good, Reaches, Enabled, Apply;
    if steps == [] {
      BootIsGood(lay);
      StartReached(lay.PartOf(i));
    } else {
      var n := |steps| - 1;
      LanesUndisturbed(lay, trace[..n + 1], steps[..n], trace[n], i);
      assert Passes(lay, true, trace[n], steps[n], s);
      GoodStep(lay, trace[n], steps[n]);
      GoodLanes(lay, trace[n]);
      var moves, st := PartStep(lay, trace[n], steps[n], i);
      if moves { StartThen(lay.PartOf(i), trace[n].lanes[i], st); }
    }
  }

  lemma BootIsGood(lay: Layout)
    ensures Good(lay, Boot(lay)) && |Boot(lay).lanes| == lay.K()
  {
    assert EndsIn(lay, [Boot(lay)], [], Boot(lay));
    SystemInv(lay, Boot(lay));
  }

  lemma StartReached(p: Part)
    ensures Reaches(p, UNDISTURBED, Lanes.START)
  {
    Stay(p, UNDISTURBED, Lanes.START);
  }

  lemma StartThen(p: Part, l: Lane, st: Step)
    requires Reaches(p, UNDISTURBED, l) && Enabled(p, l, st) && Allowed(UNDISTURBED, st)
    ensures Reaches(p, UNDISTURBED, Apply(p, l, st))
  {
    var l' := Then(p, UNDISTURBED, Lanes.START, l, st);
  }

  /** The disk is written although some slot of some part never arrived. */
  ghost predicate IncompleteWrite(lay: Layout, s: System) {
    s.main != Collecting && |s.lanes| == lay.K()
    && exists i: nat :: i < lay.K() && Incomplete(lay, s, i)
  }

  ghost predicate Incomplete(lay: Layout, s: System, i: nat)
    requires i < lay.K() == |s.lanes|
  {
    !AllIn(lay.d, lay.sizes[i], s.lanes[i].receiver.log)
  }

  lemma OnlyLongEnough(lay: Layout, s: System, i: nat)
    requires SystemLeads(lay, true, Boot(lay), s) && s.main != Collecting
    requires i < lay.K() == |s.lanes| && Incomplete(lay, s, i)
    ensures lay.counting == EveryArrival && LongEnough(lay.PartOf(i))
  {
    var p, l := lay.PartOf(i), s.lanes[i];
    hide Good, Reaches, AllIn;
    var trace, steps :| SystemBetween(lay, true, Boot(lay), trace, steps, s);
    LanesUndisturbed(lay, trace, steps, s, i);
    GoodLanes(lay, s);
    UndisturbedIsUnduplicated(p, l);
    OnlyLongParts(p, l);
  }

  lemma UndisturbedIsUnduplicated(p: Part, l: Lane)
    requires Reaches(p, UNDISTURBED, l)
    ensures Reaches(p, UNDUPLICATED, l)
  {
    LeadsWithin(p, UNDISTURBED, UNDUPLICATED, Lanes.START, l);
  }

  /** A run in which the network drops and duplicates nothing can write the disk with some slot
      missing exactly when every arrival is counted and some part is long enough. */
  lemma IncompleteWriteIff(lay: Layout)
    requires AllParameters(lay)
    ensures (exists s :: SystemLeads(lay, true, Boot(lay), s) && IncompleteWrite(lay, s))
      <==> lay.counting == EveryArrival && exists i: nat :: i < lay.K() && LongEnough(lay.PartOf(i))
  {
    hide AllParameters, SystemLeads, LongEnough;
    if lay.counting == EveryArrival && exists i: nat :: i < lay.K() && LongEnough(lay.PartOf(i)) {
      var i: nat :| i < lay.K() && LongEnough(lay.PartOf(i));
      var s, x := FaultyTransfer(lay, i);
      assert Incomplete(lay, s, i);
    }
    forall s | SystemLeads(lay, true, Boot(lay), s) && IncompleteWrite(lay, s)
      ensures lay.counting == EveryArrival && exists i: nat :: i < lay.K() && LongEnough(lay.PartOf(i))
    {
      var i: nat :| i < lay.K() && Incomplete(lay, s, i);
      OnlyLongEnough(lay, s, i);
    }
  }

  // ----- a transfer that hangs -----

  lemma HungPartStep(lay: Layout, s: System, step: SystemStep, i: nat)
    requires LanesInv(lay, s) && MayStep(lay, s, step) && i < lay.K() == |s.lanes|
    requires Hung(lay.PartOf(i), s.lanes[i])
    ensures |Next(lay, s, step).lanes| == lay.K() && Hung(lay.PartOf(i), Next(lay, s, step).lanes[i])
    ensures Next(lay, s, step).lanes[i].receiver == s.lanes[i].receiver
  {
    hide Next, MayStep, Apply, Enabled, LanesInv, Hung;
    var moves, st := PartStep(lay, s, step, i);
    if moves { HungStep(lay.PartOf(i), s.lanes[i], st); }
  }

  lemma {:induction false} HungPart(lay: Layout, trace: seq<System>, steps: seq<SystemStep>, s: System, i: nat)
    requires |steps| < |trace| && Good(lay, trace[0]) && i < lay.K() == |trace[0].lanes|
    requires SystemBetween(lay, false, trace[0], trace, steps, s) && Hung(lay.PartOf(i), trace[0].lanes[i])
    ensures Good(lay, s) && |s.lanes| == lay.K() && Hung(lay.PartOf(i), s.lanes[i])
    ensures s.lanes[i].receiver == trace[0].lanes[i].receiver
    decreases |steps|
  {
    hide Good, Next, MayStep, Hung;
    if steps != [] {
      var n := |steps| - 1;
      HungPart(lay, trace[..n + 1], steps[..n], trace[n], i);
      assert Passes(lay, false, trace[n], steps[n], s);
      GoodStep(lay, trace[n], steps[n]);
      GoodLanes(lay, trace[n]);
      HungPartStep(lay, trace[n], steps[n], i);
    }
  }

  lemma GoodLanes(lay: Layout, s: System)
    requires Good(lay, s)
    ensures LanesInv(lay, s) && BarrierInv(lay, s)
  {
  }

  lemma HungIsCollecting(lay: Layout, s: System, i: nat)
    requires BarrierInv(lay, s) && i < lay.K() && Hung(lay.PartOf(i), s.lanes[i])
    ensures s.main == Collecting
  {
    hide Counters, Framed;
  }

  /** Any variant, any file: only the final datagram of part i is lost, everything else has arrived
      in order, so that no gap was ever noticed, and the transfer hangs: whatever follows, with or
      without loss, the receiver of part i never moves again and the disk is never written. */
  lemma LostTailBlocks(lay: Layout, i: nat) returns (s: System, f: nat)
    requires AllParameters(lay) && i < lay.K() && lay.sizes[i] > 0
    ensures SystemReachable(lay, s) && |s.lanes| == lay.K() && IsFinal(lay.PartOf(i), f)
    ensures forall x: nat :: x in s.lanes[i].receiver.log <==> IsSlot(lay.d, lay.sizes[i], x) && x != f
    ensures s.lanes[i].receiver.nacked == []
    ensures forall j :: 0 <= j < lay.K() && j != i ==> s.lanes[j].receiver.pc == Finished
    ensures forall s' :: SystemLeads(lay, false, s, s') ==>
      s'.main == Collecting && |s'.lanes| == lay.K() && s'.lanes[i].receiver == s.lanes[i].receiver
  {
    var p, s0, l := lay.PartOf(i), Boot(lay), Lanes.START;
    DepartBoot(lay, false);
    ParametersOf(lay, i);
    hide OnRoute, AllParameters, Parameters, Leads, Hung, IsFinal;
    l, f := LostTail(p);
    var s1 := LiftLeads(lay, false, LOSING_ALONE, s0, s0, i, l);
    s := RestInOrder(lay, false, s0, s1, 0, i);
    RouteGood(lay, s0, s);
    forall s' | SystemLeads(lay, false, s, s')
      ensures s'.main == Collecting && |s'.lanes| == lay.K() && s'.lanes[i].receiver == s.lanes[i].receiver
    {
      HungFrom(lay, s, s', i);
    }
  }

  lemma RouteGood(lay: Layout, a: System, s: System)
    requires OnRoute(lay, false, a, s)
    ensures SystemReachable(lay, s) && Good(lay, s)
  {
    SystemInv(lay, s);
  }

  lemma HungFrom(lay: Layout, s: System, s': System, i: nat)
    requires Good(lay, s) && i < lay.K() == |s.lanes| && Hung(lay.PartOf(i), s.lanes[i])
    requires SystemLeads(lay, false, s, s')
    ensures s'.main == Collecting && |s'.lanes| == lay.K() && s'.lanes[i].receiver == s.lanes[i].receiver
  {
    hide Good, Hung;
    var trace, steps :| SystemBetween(lay, false, s, trace, steps, s');
    HungPart(lay, trace, steps, s', i);
    GoodLanes(lay, s');
    HungIsCollecting(lay, s', i);
  }
}
