// Runs of the direction in which the server sends: a disk written without a slot although nothing
// was lost, and a transfer that one lost datagram of a part other than 0 blocks for ever.
module ServerFaults {
  import opened Slots
  import opened Nacks
  import opened Receiving
  import opened Lanes
  import opened LaneRuns
  import opened LanePaths
  import opened LaneMoves
  import opened LaneFaults
  import opened LaneLoss
  import opened System
  import opened Barrier
  import opened SystemPaths
  import opened Ending
  import opened ServerReturn

  // ----- a lane with a misread request -----

  /** Part 0 has received everything but its final slot when it is asked for offset 1: the datagram
      sent for that is no slot's, counts as one whole datagram under either rule, and ends the
      receive loop. */
  lemma MisreadEnds(p: Part, l: Lane, f: nat) returns (l': Lane)
    requires Parameters(p) && p.Len() > p.d && IsFinal(p, f)
    requires l.sender.pc == CheckEmpty && l.sender.requests == {1}
    requires l.receiver.pc == Waiting && l.receiver.recvSize == f <= l.receiver.expected && 1 !in l.receiver.log
    ensures Leads(p, ALONE, l, l')
    ensures l'.receiver.pc == Finished && l'.receiver.log == l.receiver.log + [1]
  {
    hide Leads, OnWire, Min, SlotDatagram, NackNext, FinishGap, InGap;
    var stale := seq(p.d + 8, _ => 0);
    MinIs({1}, 1);
    OneDatagramPerOffset(p, 1, stale);
    SlotFacts(p, 1);
    if f > 0 { SlotsApart(p.d, 0, f); }
    var pk := Packet(SlotDatagram(p, 1), true);
    Stay(p, ALONE, l);
    l' := Then(p, ALONE, l, l, SeeNonempty);
    l' := Then(p, ALONE, l, l', Read);
    l' := Then(p, ALONE, l, l', Send(stale));
    l' := Then(p, ALONE, l, l', Deliver(pk));
    l' := Then(p, ALONE, l, l', LeaveLoop);
    l' := Then(p, ALONE, l, l', CountDone);
  }

  lemma AllButFinal(p: Part) returns (l: Lane, f: nat)
    requires Parameters(p) && p.Len() > p.d
    ensures Reaches(p, ALONE, l) && IsFinal(p, f)
    ensures l.sender.pc == CheckEmpty && l.sender.requests == {}
    ensures l.receiver.pc == Waiting && l.receiver.recvSize == f <= l.receiver.expected
    ensures f !in l.receiver.log && 1 !in l.receiver.log && 1 < f
  {
    f := FinalSlot(p);
    if f > 0 { SlotsApart(p.d, 0, f); }
    hide Reaches, SlotDatagram, Parameters;
    Begin(p, ALONE);
    l := Stream(p, ALONE, START, f);
    l := FirstSend(p, ALONE, l);
    l := EndOfFirstPass(p, ALONE, l);
  }

  // ----- parts move in the system -----

  ghost predicate OnServerRoute(lay: Layout, lossless: bool, s: System) {
    ServerLeads(lay, lossless, Boot(lay), s) && ServerGood(lay, s)
  }

  lemma ServerDeparts(lay: Layout, lossless: bool)
    ensures OnServerRoute(lay, lossless, Boot(lay))
  {
    BootServer(lay);
    assert ServerBetween(lay, lossless, Boot(lay), [Boot(lay)], [], Boot(lay));
  }

  lemma ServerAdvance(lay: Layout, lossless: bool, s: System, step: SystemStep) returns (s': System)
    requires ServerFits(lay) && OnServerRoute(lay, lossless, s) && |s.lanes| == lay.K() && MayStep(lay, s, step)
    requires lossless && step.InPart? ==> !step.step.Drop? && !step.step.Duplicate?
    ensures s' == ServerNext(lay, s, step) && OnServerRoute(lay, lossless, s')
  {
    hide ServerNext, MayStep, ServerGood;
    ServerStep(lay, s, step);
    s' := ServerNext(lay, s, step);
    var trace, steps :| ServerBetween(lay, lossless, Boot(lay), trace, steps, s);
    var trace', steps' := trace + [s'], steps + [step];
    forall j | 0 <= j < |steps'| ensures ServerPasses(lay, lossless, trace'[j], steps'[j], trace'[j + 1]) {
      if j < |steps| { assert trace'[j] == trace[j] && trace'[j + 1] == trace[j + 1]; }
    }
    assert ServerBetween(lay, lossless, Boot(lay), trace', steps', s');
  }

  /** Part i has moved on, nothing else has, and its NACKs stay in order on the connection. */
  predicate ServerMoved(s: System, s': System, i: nat, l': Lane)
    requires i < |s.lanes|
  {
    && Moved(s, s', i, l') && s.tcp <= s'.tcp
    && (Ordered(s.tcp, s.lanes[i], i) ==> Ordered(s'.tcp, l', i))
  }

  lemma ServerLiftStep(lay: Layout, lossless: bool, m: Mode, s: System, i: nat, step: Step) returns (s': System)
    requires ServerFits(lay) && OnServerRoute(lay, lossless, s) && i < lay.K() == |s.lanes| && !s.sendingDone
    requires Suits(m, lossless, false) && !m.takes && Allowed(m, step) && Enabled(lay.PartOf(i), s.lanes[i], step)
    ensures OnServerRoute(lay, lossless, s')
    ensures ServerMoved(s, s', i, Apply(lay.PartOf(i), s.lanes[i], step))
  {
    hide OnServerRoute, Enabled, Apply, Blit;
    NackedBy(lay.PartOf(i), s.lanes[i], step);
    FramesAppend(s.tcp, Request(i, s.lanes[i].receiver.expected), i);
    s' := ServerAdvance(lay, lossless, s, InPart(i, step));
  }

  lemma {:induction false} ServerLift(lay: Layout, lossless: bool, m: Mode, s: System, i: nat,
                                      trace: seq<Lane>, steps: seq<Step>, l': Lane) returns (s': System)
    requires ServerFits(lay) && OnServerRoute(lay, lossless, s) && i < lay.K() == |s.lanes| && !s.sendingDone
    requires Suits(m, lossless, false) && !m.takes && Between(lay.PartOf(i), m, s.lanes[i], trace, steps, l')
    ensures OnServerRoute(lay, lossless, s') && ServerMoved(s, s', i, l')
    decreases |steps|
  {
    hide OnServerRoute, Enabled, Apply, OnlyPart, Ordered;
    if steps == [] {
      s' := s;
    } else {
      var n := |steps| - 1;
      var s1 := ServerLift(lay, lossless, m, s, i, trace[..n + 1], steps[..n], trace[n]);
      assert Taken(lay.PartOf(i), m, trace[n], steps[n], l');
      s' := ServerLiftStep(lay, lossless, m, s1, i, steps[n]);
    }
  }

  lemma ServerLiftLeads(lay: Layout, lossless: bool, m: Mode, s: System, i: nat, l': Lane) returns (s': System)
    requires ServerFits(lay) && OnServerRoute(lay, lossless, s) && i < lay.K() == |s.lanes| && !s.sendingDone
    requires Suits(m, lossless, false) && !m.takes && Leads(lay.PartOf(i), m, s.lanes[i], l')
    ensures OnServerRoute(lay, lossless, s') && ServerMoved(s, s', i, l')
  {
    hide OnServerRoute, ServerMoved;
    var trace, steps :| Between(lay.PartOf(i), m, s.lanes[i], trace, steps, l');
    s' := ServerLift(lay, lossless, m, s, i, trace, steps, l');
  }

  lemma {:induction false} OthersFinish(lay: Layout, s: System, i: nat) returns (s': System)
    requires ServerFits(lay) && AllParameters(lay) && OnServerRoute(lay, true, s) && i <= lay.K() == |s.lanes|
    requires s.main == Collecting && !s.sendingDone
    requires forall j :: 0 <= j < i ==> s.lanes[j].receiver.pc == Finished
    requires forall j :: i <= j < lay.K() ==> s.lanes[j] == Lanes.START
    ensures OnServerRoute(lay, true, s') && |s'.lanes| == lay.K() && s'.main == Collecting && AllFinished(s')
    ensures forall j :: 0 <= j < i ==> s'.lanes[j] == s.lanes[j]
    decreases lay.K() - i
  {
    if i == lay.K() {
      s' := s;
    } else {
      hide OnServerRoute, Leads, AllParameters, Ordered;
      ParametersOf(lay, i);
      var l' := WholePart(lay.PartOf(i), ALONE);
      var s1 := ServerLiftLeads(lay, true, ALONE, s, i, l');
      s' := OthersFinish(lay, s1, i + 1);
    }
  }

  lemma MayWrite(lay: Layout, s: System)
    requires OnServerRoute(lay, true, s) && s.main == Collecting && AllFinished(s)
    ensures |s.lanes| == lay.K() && MayStep(lay, s, WriteToDisk)
  {
    FinishersAtMost(s.lanes);
    hide Reaches;
  }

  lemma ServerWrites(lay: Layout, s: System) returns (s': System)
    requires ServerFits(lay) && OnServerRoute(lay, true, s) && s.main == Collecting && AllFinished(s)
    ensures OnServerRoute(lay, true, s') && s'.main == DiskWritten && s'.lanes == s.lanes
  {
    MayWrite(lay, s);
    hide OnServerRoute, AllFinished;
    s' := ServerAdvance(lay, true, s, WriteToDisk);
  }

  // ----- the runs -----

  lemma HeadOfOrdered(tcp: seq<Request>, l: Lane, i: nat)
    requires OnlyPart(tcp, i) && Ordered(tcp, l, i) && l.handled == 0 && l.receiver.nacked != []
    ensures tcp != [] && tcp[0] == Request(i, l.receiver.nacked[0])
  {
    if tcp != [] {
      assert FramesOf(tcp, i)[0] == tcp[0].seqNum;
    }
  }

  /** Part 1 arrives whole, but with its second slot first, so that it NACKs its first slot. */
  lemma FirstFrame(lay: Layout) returns (s: System)
    requires ServerFits(lay) && AllParameters(lay) && lay.K() >= 2 && lay.sizes[1] > lay.d
    ensures OnServerRoute(lay, true, s) && |s.lanes| == lay.K() && s.main == Collecting && !s.sendingDone
    ensures s.tcp != [] && s.tcp[0] == Request(1, 0) && s.lanes[1].receiver.pc == Finished
    ensures forall j :: 0 <= j < lay.K() && j != 1 ==> s.lanes[j] == Lanes.START
  {
    ServerDeparts(lay, true);
    ParametersOf(lay, 1);
    hide OnServerRoute, Leads, AllParameters, Parameters, Ordered;
    var l := WholeWithGap(lay.PartOf(1), ALONE);
    BootOrdered(lay, 1);
    s := ServerLiftLeads(lay, true, ALONE, Boot(lay), 1, l);
    HeadOfOrdered(s.tcp, l, 1);
  }

  lemma BootOrdered(lay: Layout, i: nat)
    requires i < lay.K()
    ensures Ordered(Boot(lay).tcp, Boot(lay).lanes[i], i) && OnlyPart(Boot(lay).tcp, i)
  {
  }

  /** With the server's test, two parts of more than one datagram, and whichever gap guard and way
      of counting: a run in which the network drops and duplicates nothing writes the disk without
      the final slot of part 0. A NACK of part 1 for its first slot has been taken for a request of
      part 0 for offset 1. */
  lemma MisreadCorrupts(lay: Layout) returns (s: System, f: nat)
    requires ServerFits(lay) && AllParameters(lay)
    requires lay.K() >= 2 && lay.sizes[0] > lay.d && lay.sizes[1] > lay.d
    ensures ServerLeads(lay, true, Boot(lay), s) && s.main == DiskWritten && |s.lanes| == lay.K()
    ensures IsFinal(lay.PartOf(0), f) && f !in s.lanes[0].receiver.log
  {
    var p := lay.PartOf(0);
    ParametersOf(lay, 0);
    hide OnServerRoute, Leads, AllParameters, Ordered, IsFinal;
    var l0;
    l0, f := AllButFinal(p);
    var s0 := FirstFrame(lay);
    var s1 := ServerLiftLeads(lay, true, ALONE, s0, 0, l0);
    s := MisreadThere(lay, s1, l0, f);
    s := OthersFinish(lay, s, 2);
    s := ServerWrites(lay, s);
    RouteLeads(lay, s);
  }

  lemma RouteLeads(lay: Layout, s: System)
    requires OnServerRoute(lay, true, s)
    ensures ServerLeads(lay, true, Boot(lay), s)
  {
  }

  /** The frame is handled, and part 0 serves it. */
  lemma MisreadThere(lay: Layout, s: System, l: Lane, f: nat) returns (s': System)
    requires ServerFits(lay) && OnServerRoute(lay, true, s) && lay.K() >= 2 && |s.lanes| == lay.K()
    requires !s.sendingDone && s.tcp != [] && s.tcp[0] == Request(1, 0) && 1 < lay.fileSize
    requires s.lanes[0] == l && Parameters(lay.PartOf(0)) && lay.sizes[0] > lay.d && IsFinal(lay.PartOf(0), f)
    requires l.sender.pc == CheckEmpty && l.sender.requests == {}
    requires l.receiver.pc == Waiting && l.receiver.recvSize == f <= l.receiver.expected && 1 !in l.receiver.log
    ensures OnServerRoute(lay, true, s') && |s'.lanes| == lay.K() && !s'.sendingDone && s'.main == s.main
    ensures s'.lanes[0].receiver.pc == Finished && s'.lanes[0].receiver.log == l.receiver.log + [1]
    ensures forall j :: 1 <= j < lay.K() ==> s'.lanes[j] == s.lanes[j]
  {
    hide OnServerRoute, Leads, Ordered, IsFinal, Parameters;
    var s1 := ServerAdvance(lay, true, s, HandleFrame);
    assert s1.lanes[0] == TakeRequest(l, 1);
    var l' := MisreadEnds(lay.PartOf(0), s1.lanes[0], f);
    s' := ServerLiftLeads(lay, true, ALONE, s1, 0, l');
  }

  /** With the server's test, any slot of any part other than 0: a reachable state in which only its
      datagram was dropped, after which it never arrives, whatever follows; and if repeats are not
      counted the disk is never written. */
  lemma LostDatagramBlocks(lay: Layout, i: nat, x: nat) returns (s: System)
    requires ServerFits(lay) && AllParameters(lay) && 0 < i < lay.K() && IsSlot(lay.d, lay.sizes[i], x)
    ensures ServerLeads(lay, false, Boot(lay), s)
    ensures forall s' :: ServerLeads(lay, false, s, s') ==>
      && |s'.lanes| == lay.K() && x !in s'.lanes[i].receiver.log
      && (lay.counting == FreshOnly ==> s'.main == Collecting)
  {
    ServerDeparts(lay, false);
    ParametersOf(lay, i);
    hide OnServerRoute, ServerGood, Leads, AllParameters, Ordered, InReach;
    var l := LostSlot(lay.PartOf(i), x);
    s := ServerLiftLeads(lay, false, LOSING_ALONE, Boot(lay), i, l);
    DroppedIsOut(l, x);
    RouteGood(lay, s);
    forall s' | ServerLeads(lay, false, s, s')
      ensures
        && |s'.lanes| == lay.K() && x !in s'.lanes[i].receiver.log
        && (lay.counting == FreshOnly ==> s'.main == Collecting)
    {
      LossIsFinal(lay, s, s', i, x);
    }
  }

  lemma RouteGood(lay: Layout, s: System)
    requires OnServerRoute(lay, false, s)
    ensures ServerLeads(lay, false, Boot(lay), s) && ServerGood(lay, s)
  {
  }

  lemma DroppedIsOut(l: Lane, x: nat)
    requires l.receiver.pc == Waiting && x !in l.receiver.log && l.net == multiset{} && l.sender.sendPtr > x
    ensures !InReach(l, x)
  {
  }

  // ----- the handler ends before its time -----

  /** Long enough for a NACK of another slot than the first. */
  predicate Misleads(lay: Layout, i: nat)
    requires i < lay.K()
  {
    i > 0 && (lay.sizes[i] > 2 * lay.d || (lay.gap == AsWritten && lay.sizes[i] > lay.d))
  }

  ghost predicate SomeMisleads(lay: Layout) {
    exists i: nat :: i < lay.K() && Misleads(lay, i)
  }

  /** Frames that are no part's are the sentinel's, and the handler ends at one, or at a NACK of a
      part that misleads. */
  ghost predicate EndsAsDue(lay: Layout, s: System) {
    && (s.main != SentinelSent ==> forall j :: 0 <= j < |s.tcp| ==> 0 <= s.tcp[j].idx < lay.K())
    && (s.sendingDone ==> s.main == SentinelSent || SomeMisleads(lay))
  }

  lemma FarNackMisleads(lay: Layout, s: System, i: nat, x: nat)
    requires ServerGood(lay, s) && 0 < i < lay.K() && x in s.lanes[i].receiver.nacked && x > 0
    ensures Misleads(lay, i)
  {
    hide Counters;
    var p, l := lay.PartOf(i), s.lanes[i];
    assert Unserved(lay, s, i);
    ReachesInv(p, UNSERVED, l);
    NackRangeHolds(p, l);
    hide LaneInv;
    SlotsApart(p.d, 0, x);
    var o :| o in l.receiver.openers && (x < o || (p.gap == AsWritten && x == o));
    OpenerIsSlot(p, l.receiver, o);
    if x < o { SlotsApart(p.d, x, o); }
  }

  lemma OpenerIsSlot(p: Part, r: Receiver, o: nat)
    requires Inv(p, r) && o in r.openers
    ensures IsSlot(p.d, p.Len(), o)
  {
    hide GapAccount, ByteCount, HighWater, NackRange, Silent;
  }

  lemma DueStep(lay: Layout, s: System, step: SystemStep)
    requires ServerFits(lay) && ServerGood(lay, s) && EndsAsDue(lay, s) && MayStep(lay, s, step)
    ensures EndsAsDue(lay, ServerNext(lay, s, step))
  {
    hide Unserved, Counters, Enabled, Apply, Blit, InsidePart, Misleads;
    if step.HandleFrame? && s.main != SentinelSent && 0 < s.tcp[0].idx {
      var i: nat, x := s.tcp[0].idx, s.tcp[0].seqNum;
      assert x in s.lanes[i].receiver.nacked;
      if x > 0 { FarNackMisleads(lay, s, i, x); }
    }
  }

  lemma {:induction false} DueRuns(lay: Layout, lossless: bool, trace: seq<System>, steps: seq<SystemStep>, s: System)
    requires ServerFits(lay) && ServerBetween(lay, lossless, Boot(lay), trace, steps, s)
    ensures ServerGood(lay, s) && EndsAsDue(lay, s)
    decreases |steps|
  {
    if steps == [] {
      BootServer(lay);
    } else {
      hide ServerNext, MayStep, ServerGood, EndsAsDue;
      var n := |steps| - 1;
      DueRuns(lay, lossless, trace[..n + 1], steps[..n], trace[n]);
      assert ServerPasses(lay, lossless, trace[n], steps[n], s);
      ServerStep(lay, trace[n], steps[n]);
      DueStep(lay, trace[n], steps[n]);
    }
  }

  /** A part NACKs slot d, and before that at most its first one. */
  lemma FarNack(p: Part) returns (l: Lane)
    requires Parameters(p) && (p.Len() > 2 * p.d || (p.gap == AsWritten && p.Len() > p.d))
    ensures Reaches(p, ALONE, l) && l.handled == 0
    ensures var d: nat := p.d; l.receiver.nacked == if p.gap == AsWritten then [0, d] else [d]
  {
    var d: nat := p.d;
    hide Reaches, SlotDatagram, Parameters, Arrive, NackNext, FinishGap, InGap, IsSlot;
    if p.gap == AsWritten {
      l := SecondSlotFirst(p, ALONE);
    } else {
      l := ThirdSlotEarly(p);
    }
  }

  /** The first slot comes in order, then the third: the second is NACKed. */
  lemma ThirdSlotEarly(p: Part) returns (l: Lane)
    requires Parameters(p) && p.gap == Repaired && p.Len() > 2 * p.d
    ensures Reaches(p, ALONE, l) && l.handled == 0 && l.receiver.nacked == [p.d]
  {
    var d: nat := p.d;
    assert Aligned(d, d) && Aligned(d, 2 * d);
    SlotFacts(p, 0);
    SlotFacts(p, d);
    SlotFacts(p, 2 * d);
    SecondMissed(p);
    hide Reaches, SlotDatagram, Parameters, Aligned, Arrive, NackNext, InGap;
    Begin(p, ALONE);
    l := FirstSend(p, ALONE, Lanes.START);
    l := FirstSend(p, ALONE, l);
    l := FirstSend(p, ALONE, l);
    l := Receive(p, ALONE, l, 0, false);
    l := Receive(p, ALONE, l, 2 * d, false);
    l := Gap(p, ALONE, l);
  }

  lemma SecondMissed(p: Part)
    requires p.Len() > 2 * p.d
    ensures var r1 := Arrive(p, FRESH, SlotDatagram(p, 0)); var r2 := Arrive(p, r1, SlotDatagram(p, 2 * p.d));
      && r1.pc == Waiting && r1.recvSize == p.d
      && InGap(p, r2) && NackNext(p, r2).nacked == [p.d]
  {
  }

  lemma OnlyFrames(tcp: seq<Request>, i: nat)
    requires OnlyPart(tcp, i)
    ensures |FramesOf(tcp, i)| == |tcp|
    ensures forall j :: 0 <= j < |tcp| ==> tcp[j] == Request(i, FramesOf(tcp, i)[j])
  {
    if tcp != [] { OnlyFrames(tcp[1..], i); }
  }

  /** The server reads the NACK for slot d of part i as one for an index beyond all parts. */
  lemma FarFrameEnds(lay: Layout, s: System, i: nat) returns (s': System)
    requires ServerFits(lay) && lay.K() < lay.d < 0x8000_0000 && OnServerRoute(lay, true, s)
    requires |s.lanes| == lay.K() && 0 < i < lay.K() && !s.sendingDone
    requires s.tcp != [] && s.tcp[0] == Request(i, lay.d)
    ensures OnServerRoute(lay, true, s') && s'.sendingDone && s'.main == s.main
  {
    hide OnServerRoute;
    s' := ServerAdvance(lay, true, s, HandleFrame);
  }

  lemma EndsEarly(lay: Layout, i: nat) returns (s: System)
    requires ServerFits(lay) && AllParameters(lay) && lay.K() < lay.d < 0x8000_0000
    requires i < lay.K() && Misleads(lay, i)
    ensures ServerLeads(lay, true, Boot(lay), s) && s.sendingDone && s.main == Collecting
  {
    ServerDeparts(lay, true);
    ParametersOf(lay, i);
    hide OnServerRoute, AllParameters, Parameters, Ordered;
    var l := FarNack(lay.PartOf(i));
    BootOrdered(lay, i);
    s := ServerLiftLeads(lay, true, ALONE, Boot(lay), i, l);
    FramesAre(s.tcp, l, i);
    if lay.gap == AsWritten {
      s := ServerAdvance(lay, true, s, HandleFrame);
    }
    s := FarFrameEnds(lay, s, i);
    RouteLeads(lay, s);
  }

  lemma FramesAre(tcp: seq<Request>, l: Lane, i: nat)
    requires OnlyPart(tcp, i) && Ordered(tcp, l, i) && l.handled == 0
    ensures |tcp| == |l.receiver.nacked|
    ensures forall j :: 0 <= j < |tcp| ==> tcp[j] == Request(i, l.receiver.nacked[j])
  {
    OnlyFrames(tcp, i);
  }

  /** With the server's test, the handler and with it the senders can be told to end before the
      other side has received everything, and so without its sentinel, if and only if some part other
      than 0 is long enough to NACK a slot that is not its first; nothing need be lost for that. */
  lemma EndsEarlyIff(lay: Layout)
    requires ServerFits(lay) && AllParameters(lay) && lay.K() < lay.d < 0x8000_0000
    ensures (exists s :: ServerLeads(lay, true, Boot(lay), s) && s.sendingDone && s.main != SentinelSent)
      <==> SomeMisleads(lay)
    ensures (exists s :: ServerLeads(lay, false, Boot(lay), s) && s.sendingDone && s.main != SentinelSent)
      <==> SomeMisleads(lay)
  {
    hide AllParameters, Misleads, ServerBetween, ServerGood;
    forall lossless, s | ServerLeads(lay, lossless, Boot(lay), s) && s.sendingDone && s.main != SentinelSent
      ensures SomeMisleads(lay)
    {
      var trace, steps :| ServerBetween(lay, lossless, Boot(lay), trace, steps, s);
      DueRuns(lay, lossless, trace, steps, s);
    }
    if i: nat :| i < lay.K() && Misleads(lay, i) {
      var s := EndsEarly(lay, i);
      LosslessServer(lay, Boot(lay), s);
    }
  }

  lemma LosslessServer(lay: Layout, a: System, s: System)
    requires ServerLeads(lay, true, a, s)
    ensures ServerLeads(lay, false, a, s)
  {
    hide ServerNext, MayStep;
    var trace, steps :| ServerBetween(lay, true, a, trace, steps, s);
    forall j | 0 <= j < |steps| ensures ServerPasses(lay, false, trace[j], steps[j], trace[j + 1]) {
      assert ServerPasses(lay, true, trace[j], steps[j], trace[j + 1]);
    }
    assert ServerBetween(lay, false, a, trace, steps, s);
  }
}
