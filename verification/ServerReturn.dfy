// The direction in which the server sends, with its handler as written: it reads the two fields of
// every NACK of another part than 0 the wrong way round.
module ServerReturn {
  import opened Bytes
  import opened Slots
  import opened Nacks
  import opened Receiving
  import opened Lanes
  import opened LaneRuns
  import opened LanePaths
  import opened LaneLoss
  import opened LaneProgress
  import opened System
  import opened Barrier
  import opened Transfer
  import opened SystemPaths

  /** A frame as the server's test reads it. */
  function AsServerReads(k: nat, r: Request): (read: Request) {
    if 0 < r.idx < k && r.seqNum < TWO_32 then Request(ToInt(r.seqNum), r.idx) else r
  }

  lemma ReadsAsDecoded(k: nat, frame: Frame, idx: uint32, seqNum: uint32)
    requires k < 0xFF && IsFrameOf(frame, idx, seqNum)
    requires idx < k || idx == seqNum == k + 1
    ensures DecodeNack(ServerTest, k, frame) == AsServerReads(k, Request(idx, seqNum))
  {
    hide DecodeNack, IsFrameOf;
    if idx < k { ServerDecodesNack(k, frame, idx, seqNum); } else { SentinelDecodes(ServerTest, k, frame); }
  }

  // ----- runs -----

  ghost function ServerNext(lay: Layout, s: System, step: SystemStep): System
    requires |s.lanes| == lay.K() && MayStep(lay, s, step)
  {
    if step.HandleFrame? then Handle(lay, s, AsServerReads(lay.K(), s.tcp[0])) else Next(lay, s, step)
  }

  ghost predicate ServerPasses(lay: Layout, lossless: bool, s: System, step: SystemStep, s': System) {
    && |s.lanes| == lay.K() && MayStep(lay, s, step) && s' == ServerNext(lay, s, step)
    && (lossless && step.InPart? ==> !step.step.Drop? && !step.step.Duplicate?)
  }

  ghost predicate ServerBetween(lay: Layout, lossless: bool, a: System,
                                trace: seq<System>, steps: seq<SystemStep>, b: System)
  {
    && |trace| == |steps| + 1 && trace[0] == a && trace[|steps|] == b
    && forall j :: 0 <= j < |steps| ==> ServerPasses(lay, lossless, trace[j], steps[j], trace[j + 1])
  }

  ghost predicate ServerLeads(lay: Layout, lossless: bool, a: System, b: System) {
    exists trace, steps :: ServerBetween(lay, lossless, a, trace, steps, b)
  }

  // ----- what they keep -----

  /** Every frame of a part on the connection is a NACK which that part issued. */
  ghost predicate Issued(lay: Layout, s: System)
    requires |s.lanes| == lay.K()
  {
    forall j :: 0 <= j < |s.tcp| && 0 <= s.tcp[j].idx < lay.K() ==>
      s.tcp[j].seqNum in s.lanes[s.tcp[j].idx].receiver.nacked
  }

  ghost predicate Unserved(lay: Layout, s: System, i: nat)
    requires i < lay.K() == |s.lanes|
  {
    i > 0 ==> Reaches(lay.PartOf(i), UNSERVED, s.lanes[i])
  }

  /** The counters and the wait are as ever; but every part other than 0 runs as a lane whose NACKs
      nobody takes. */
  ghost predicate ServerGood(lay: Layout, s: System) {
    && |s.lanes| == lay.K() && Counters(s) && Issued(lay, s)
    && (s.main != Collecting ==> AllFinished(s))
    && InsidePart(lay.PartOf(0), s.lanes[0])
    && forall i: nat :: i < lay.K() ==> Unserved(lay, s, i)
  }

  /** Part 0 may serve offsets that are no slots, but all of them lie inside the part. */
  predicate InsidePart(p: Part, l: Lane) {
    && (forall pk :: pk in l.net ==> pk.dg.seqNum < p.Len())
    && (l.receiver.pc.Filling? ==> l.receiver.pc.dg.seqNum < p.Len())
    && (forall x :: x in l.receiver.nacked ==> x < p.Len())
  }

  lemma InsideSend(p: Part, l: Lane, step: Step)
    requires InsidePart(p, l) && Enabled(p, l, step) && (step.SendFirst? || step.Send?)
    ensures InsidePart(p, Apply(p, l, step))
  {
    hide OnWire, Min, SlotDatagram;
    OneDatagramPerOffset(p, l.sender.sendPtr, step.stale);
  }

  lemma InsideStep(p: Part, l: Lane, step: Step)
    requires InsidePart(p, l) && Enabled(p, l, step)
    ensures InsidePart(p, Apply(p, l, step))
  {
    hide OnWire, Min, Parameters;
    if step.SendFirst? || step.Send? {
      hide Apply, Enabled;
      InsideSend(p, l, step);
    }
  }

  lemma BootServer(lay: Layout)
    ensures ServerGood(lay, Boot(lay))
  {
    var s := Boot(lay);
    TallyStart(Finishers, lay.K());
    TallyStart(Barrier.Bytes, lay.K());
    forall i: nat | i < lay.K() ensures Unserved(lay, s, i) {
      Stay(lay.PartOf(i), UNSERVED, Lanes.START);
      assert s.lanes[i] == Lanes.START;
    }
  }

  /** Offsets fit the wire, and no offset but 0 is small enough to pass for the number of a part. */
  predicate ServerFits(lay: Layout) {
    lay.K() <= lay.d && lay.fileSize < TWO_32
  }

  /** What the server reads is never for a part other than 0. */
  lemma ReadsForPartZero(lay: Layout, s: System)
    requires ServerFits(lay) && ServerGood(lay, s) && s.tcp != []
    ensures 0 <= AsServerReads(lay.K(), s.tcp[0]).idx < lay.K() ==> AsServerReads(lay.K(), s.tcp[0]).idx == 0
  {
    hide Reaches;
    var r := s.tcp[0];
    if 0 < r.idx < lay.K() {
      var i: nat := r.idx;
      var p := lay.PartOf(i);
      assert Unserved(lay, s, i);
      ReachesInv(p, UNSERVED, s.lanes[i]);
      NackedIncreasing(p, s.lanes[i].receiver);
      if r.seqNum > 0 { SlotsApart(lay.d, 0, r.seqNum); }
    }
  }

  lemma InPartServer(lay: Layout, s: System, i: nat, st: Step)
    requires ServerGood(lay, s) && MayStep(lay, s, InPart(i, st))
    ensures ServerGood(lay, ServerNext(lay, s, InPart(i, st)))
  {
    hide Apply, Enabled, Reaches, Blit, Counters, Weight;
    var s' := Next(lay, s, InPart(i, st));
    InPartCounters(lay, s, i, st);
    StepWeights(lay.PartOf(i), s.lanes[i], st);
    NackedBy(lay.PartOf(i), s.lanes[i], st);
    if i == 0 { InsideStep(lay.PartOf(0), s.lanes[0], st); }
    hide InsidePart;
    forall j: nat | j < lay.K() ensures Unserved(lay, s', j) {
      assert Unserved(lay, s, j);
      if j == i && i > 0 { UnservedStep(lay.PartOf(i), s.lanes[i], st); }
    }
  }

  lemma UnservedStep(p: Part, l: Lane, st: Step)
    requires Reaches(p, UNSERVED, l) && Enabled(p, l, st) && !st.TakeNack?
    ensures Reaches(p, UNSERVED, Apply(p, l, st))
  {
    hide Apply, Enabled;
    var l' := Then(p, UNSERVED, Lanes.START, l, st);
  }

  lemma HandleServer(lay: Layout, s: System)
    requires ServerFits(lay) && ServerGood(lay, s) && MayStep(lay, s, HandleFrame)
    ensures ServerGood(lay, ServerNext(lay, s, HandleFrame))
  {
    hide Reaches, Counters;
    var r := AsServerReads(lay.K(), s.tcp[0]);
    var s' := Handle(lay, s, r);
    ReadsForPartZero(lay, s);
    HandleCounters(lay, s, r);
    forall j: nat | j < lay.K() ensures Unserved(lay, s', j) {
      assert Unserved(lay, s, j);
    }
  }

  lemma MainServer(lay: Layout, s: System, step: SystemStep)
    requires ServerGood(lay, s) && MayStep(lay, s, step)
    requires step == WriteToDisk || step == SendSentinel
    ensures ServerGood(lay, ServerNext(lay, s, step))
  {
    hide Reaches;
    var s' := Next(lay, s, step);
    FinishersAtMost(s.lanes);
    forall j: nat | j < lay.K() ensures Unserved(lay, s', j) {
      assert Unserved(lay, s, j);
    }
  }

  lemma ServerStep(lay: Layout, s: System, step: SystemStep)
    requires ServerFits(lay) && ServerGood(lay, s) && MayStep(lay, s, step)
    ensures ServerGood(lay, ServerNext(lay, s, step))
  {
    hide ServerGood, ServerNext, MayStep;
    match step
    case InPart(i, st) => InPartServer(lay, s, i, st);
    case HandleFrame => HandleServer(lay, s);
    case _ => MainServer(lay, s, step);
  }

  /** The handler's iteration in the model is the one the server's nackHandler makes of the frame's
      bytes. */
  lemma ServerHandlesTheBytes(lay: Layout, s: System, frame: Frame, idx: uint32, seqNum: uint32, n: nat)
    requires |s.lanes| == lay.K() < 0xFF && MayStep(lay, s, HandleFrame)
    requires s.tcp[0] == Request(idx, seqNum) && IsFrameOf(frame, idx, seqNum)
    requires idx < lay.K() || idx == seqNum == lay.K() + 1
    ensures var s' := ServerNext(lay, s, HandleFrame);
      Outcome(RequestSets(s'.lanes), s'.sendingDone, n + 1)
        == HandleOne(ServerTest, lay.fileSize, frame, Outcome(RequestSets(s.lanes), false, n))
  {
    hide DecodeNack, IsFrameOf, HandleOne, AsServerReads;
    ReadsAsDecoded(lay.K(), frame, idx, seqNum);
    HandleIsHandlers(lay, s, ServerTest, frame, n);
  }

  // ----- where the server's direction is the client's -----

  /** A frame of a part other than 0 is handled. */
  predicate HandlesOther(lay: Layout, s: System, step: SystemStep) {
    step.HandleFrame? && s.tcp != [] && 0 < s.tcp[0].idx < lay.K()
  }

  /** What the server handles for part 0 is put into its set, whatever was misread before, and
      nothing else changes. */
  lemma PartZeroIsServed(lay: Layout, s: System)
    requires ServerGood(lay, s) && MayStep(lay, s, HandleFrame) && s.tcp[0].idx == 0
    ensures var l := s.lanes[0];
      ServerNext(lay, s, HandleFrame) == s.(
        tcp := s.tcp[1..],
        lanes := s.lanes[0 := l.(sender := l.sender.(requests := l.sender.requests + {s.tcp[0].seqNum}),
                                 handled := l.handled + 1)])
  {
    hide Reaches, Counters;
  }

  /** A step of the server is the client's unless it handles a frame of another part than 0; and
      then it never is. */
  lemma ServerNextIff(lay: Layout, s: System, step: SystemStep)
    requires ServerFits(lay) && ServerGood(lay, s) && MayStep(lay, s, step)
    ensures ServerNext(lay, s, step) == Next(lay, s, step) <==> !HandlesOther(lay, s, step)
  {
    hide Reaches, Counters, Blit, Apply, Enabled;
    if HandlesOther(lay, s, step) {
      var r := s.tcp[0];
      ReadsForPartZero(lay, s);
      assert Unserved(lay, s, r.idx);
      ReachesInv(lay.PartOf(r.idx), UNSERVED, s.lanes[r.idx]);
      NackedIncreasing(lay.PartOf(r.idx), s.lanes[r.idx].receiver);
      assert Next(lay, s, step).lanes[r.idx].handled == s.lanes[r.idx].handled + 1;
      assert ServerNext(lay, s, step).lanes[r.idx] == s.lanes[r.idx];
    }
  }

  lemma {:induction false} ServerRuns(lay: Layout, trace: seq<System>, steps: seq<SystemStep>, s: System)
    requires ServerFits(lay) && ServerBetween(lay, false, Boot(lay), trace, steps, s)
    ensures ServerGood(lay, s)
    decreases |steps|
  {
    hide ServerNext, MayStep, ServerGood;
    if steps == [] {
      BootServer(lay);
    } else {
      var n := |steps| - 1;
      ServerRuns(lay, trace[..n + 1], steps[..n], trace[n]);
      assert ServerPasses(lay, false, trace[n], steps[n], s);
      ServerStep(lay, trace[n], steps[n]);
    }
  }

  lemma ServerPrefix(lay: Layout, trace: seq<System>, steps: seq<SystemStep>, s: System, j: nat)
    requires ServerFits(lay) && ServerBetween(lay, false, Boot(lay), trace, steps, s) && j < |steps|
    ensures ServerGood(lay, trace[j]) && ServerPasses(lay, false, trace[j], steps[j], trace[j + 1])
  {
    hide ServerPasses, ServerGood;
    var before, done := trace[..j + 1], steps[..j];
    forall n | 0 <= n < j ensures ServerPasses(lay, false, before[n], done[n], before[n + 1]) {
      assert before[n] == trace[n] && before[n + 1] == trace[n + 1];
    }
    assert ServerBetween(lay, false, Boot(lay), before, done, trace[j]);
    ServerRuns(lay, before, done, trace[j]);
  }

  /** A run of the direction in which the server sends is one of the direction in which the client
      sends, and every theorem about those holds of it, if and only if no NACK of a part other than 0
      is handled in it. */
  lemma ServerRunAgreesIff(lay: Layout, trace: seq<System>, steps: seq<SystemStep>, s: System)
    requires ServerFits(lay) && ServerBetween(lay, false, Boot(lay), trace, steps, s)
    ensures Execution(lay, trace, steps)
      <==> forall j :: 0 <= j < |steps| ==> !HandlesOther(lay, trace[j], steps[j])
  {
    hide ServerGood, ServerNext, Next, MayStep, HandlesOther;
    forall j | 0 <= j < |steps|
      ensures Follows(lay, trace[j], steps[j], trace[j + 1]) <==> !HandlesOther(lay, trace[j], steps[j])
    {
      ServerPrefix(lay, trace, steps, s, j);
      ServerNextIff(lay, trace[j], steps[j]);
    }
    hide Follows;
    if Execution(lay, trace, steps) {
      forall j | 0 <= j < |steps| ensures !HandlesOther(lay, trace[j], steps[j]) {
        assert Follows(lay, trace[j], steps[j], trace[j + 1]);
      }
    }
  }

  /** In particular, as long as that is so part 0 runs as a lane, as do all others, its NACKs in
      order on the connection; and whatever of them has been handled is in the set of part 0 or has
      been sent from there. */
  lemma AgreesSoFar(lay: Layout, trace: seq<System>, steps: seq<SystemStep>, s: System, i: nat)
    requires ServerFits(lay) && ServerBetween(lay, false, Boot(lay), trace, steps, s) && i < lay.K()
    requires forall j :: 0 <= j < |steps| ==> !HandlesOther(lay, trace[j], steps[j])
    ensures SystemReachable(lay, s) && |s.lanes| == lay.K()
    ensures Reachable(lay.PartOf(i), s.lanes[i]) && Ordered(s.tcp, s.lanes[i], i)
    ensures forall x :: x in s.lanes[i].receiver.nacked ==>
      x in s.lanes[i].sender.resent || x in s.lanes[i].sender.requests || x in FramesOf(s.tcp, i)
  {
    hide ServerBetween, HandlesOther, Follows, Reachable;
    ServerRunAgreesIff(lay, trace, steps, s);
    assert EndsIn(lay, trace, steps, s) by { EndsThere(lay, trace, steps, s); }
    PartsAreLanes(lay, s, i);
    ServedInOrderOnce(lay.PartOf(i), s.lanes[i]);
  }

  lemma EndsThere(lay: Layout, trace: seq<System>, steps: seq<SystemStep>, s: System)
    requires ServerBetween(lay, false, Boot(lay), trace, steps, s)
    ensures |trace| == |steps| + 1 && trace[|steps|] == s
  {
  }

  /** No part but part 0 has NACKed anything. */
  predicate UnNacked(s: System) {
    forall i :: 0 < i < |s.lanes| ==> s.lanes[i].receiver.nacked == []
  }

  lemma UnNackedBefore(lay: Layout, s: System, step: SystemStep)
    requires LanesInv(lay, s) && MayStep(lay, s, step) && UnNacked(Next(lay, s, step))
    ensures UnNacked(s) && !HandlesOther(lay, s, step)
  {
    hide Next, MayStep, Reachable, Apply, Enabled;
    forall i: nat | 0 < i < |s.lanes| ensures s.lanes[i].receiver.nacked == [] {
      var moves, st := PartStep(lay, s, step, i);
      if moves { NackedBy(lay.PartOf(i), s.lanes[i], st); }
    }
    if HandlesOther(lay, s, step) { HeadIsNext(lay, s, s.tcp[0].idx); }
  }

  lemma {:induction false} UnNackedRun(lay: Layout, lossless: bool, trace: seq<System>, steps: seq<SystemStep>,
                                       s: System)
    requires SystemBetween(lay, lossless, Boot(lay), trace, steps, s) && UnNacked(s)
    ensures ServerBetween(lay, lossless, Boot(lay), trace, steps, s)
    decreases |steps|
  {
    hide Next, ServerNext, MayStep, UnNacked;
    if steps != [] {
      var n := |steps| - 1;
      var before, done := trace[..n + 1], steps[..n];
      assert Passes(lay, lossless, trace[n], steps[n], s);
      assert SystemBetween(lay, lossless, Boot(lay), before, done, trace[n]);
      BetweenReaches(lay, lossless, before, done, trace[n]);
      SystemInv(lay, trace[n]);
      UnNackedBefore(lay, trace[n], steps[n]);
      UnNackedRun(lay, lossless, before, done, trace[n]);
      SameStep(lay, trace[n], steps[n]);
      forall j | 0 <= j < |steps| ensures ServerPasses(lay, lossless, trace[j], steps[j], trace[j + 1]) {
        if j < n { assert ServerPasses(lay, lossless, before[j], done[j], before[j + 1]); }
      }
    }
  }

  lemma BetweenReaches(lay: Layout, lossless: bool, trace: seq<System>, steps: seq<SystemStep>, s: System)
    requires SystemBetween(lay, lossless, Boot(lay), trace, steps, s)
    ensures SystemReachable(lay, s)
  {
    hide Next, MayStep;
    forall j | 0 <= j < |steps| ensures Follows(lay, trace[j], steps[j], trace[j + 1]) {
      assert Passes(lay, lossless, trace[j], steps[j], trace[j + 1]);
    }
    assert EndsIn(lay, trace, steps, s);
  }

  lemma SameStep(lay: Layout, s: System, step: SystemStep)
    requires |s.lanes| == lay.K() && MayStep(lay, s, step) && !HandlesOther(lay, s, step)
    ensures ServerNext(lay, s, step) == Next(lay, s, step)
  {
  }

  /** A run in which no part but part 0 has NACKed anything is one of the direction in which the
      server sends, too. */
  lemma UnNackedIsServers(lay: Layout, lossless: bool, s: System)
    requires SystemLeads(lay, lossless, Boot(lay), s) && UnNacked(s)
    ensures ServerLeads(lay, lossless, Boot(lay), s)
  {
    hide SystemBetween, ServerBetween;
    var trace, steps :| SystemBetween(lay, lossless, Boot(lay), trace, steps, s);
    UnNackedRun(lay, lossless, trace, steps, s);
  }

  // ----- a loss outside part 0 is final -----

  lemma {:induction false} NothingTaken(p: Part, trace: seq<Lane>, steps: seq<Step>, l: Lane)
    requires Between(p, UNSERVED, Lanes.START, trace, steps, l)
    ensures l.handled == 0
    decreases |steps|
  {
    hide Apply, Enabled;
    if steps != [] {
      var n := |steps| - 1;
      NothingTaken(p, trace[..n + 1], steps[..n], trace[n]);
      assert Taken(p, UNSERVED, trace[n], steps[n], l);
      NackedBy(p, trace[n], steps[n]);
    }
  }

  /** So its sender never has anything to send again. */
  lemma NeverSends(p: Part, l: Lane)
    requires Reaches(p, UNSERVED, l)
    ensures LaneInv(p, l) && l.sender.pc != Resend
  {
    var trace, steps :| Between(p, UNSERVED, Lanes.START, trace, steps, l);
    NothingTaken(p, trace, steps, l);
    ReachesInv(p, UNSERVED, l);
    hide Inv;
  }

  lemma OutOfReachStep(p: Part, l: Lane, st: Step, x: nat)
    requires Reaches(p, UNSERVED, l) && Enabled(p, l, st) && IsSlot(p.d, p.Len(), x) && !InReach(l, x)
    ensures !InReach(Apply(p, l, st), x)
  {
    hide Reaches, LaneInv, InReach;
    NeverSends(p, l);
    ReachStep(p, l, st, x);
  }

  lemma LostPartStep(lay: Layout, s: System, step: SystemStep, i: nat, x: nat)
    requires ServerFits(lay) && ServerGood(lay, s) && MayStep(lay, s, step)
    requires 0 < i < lay.K() && IsSlot(lay.d, lay.sizes[i], x) && !InReach(s.lanes[i], x)
    ensures |ServerNext(lay, s, step).lanes| == lay.K() && !InReach(ServerNext(lay, s, step).lanes[i], x)
  {
    hide Apply, Enabled, Reaches, Blit, Counters, InReach;
    assert Unserved(lay, s, i);
    if step.InPart? && step.i == i {
      OutOfReachStep(lay.PartOf(i), s.lanes[i], step.step, x);
    } else if step.HandleFrame? {
      ReadsForPartZero(lay, s);
    }
  }

  lemma {:induction false} LostSlotRuns(lay: Layout, lossless: bool, trace: seq<System>, steps: seq<SystemStep>,
                                        s: System, i: nat, x: nat)
    requires ServerFits(lay) && |steps| < |trace| && ServerGood(lay, trace[0])
    requires ServerBetween(lay, lossless, trace[0], trace, steps, s)
    requires 0 < i < lay.K() && IsSlot(lay.d, lay.sizes[i], x) && !InReach(trace[0].lanes[i], x)
    ensures ServerGood(lay, s) && |s.lanes| == lay.K() && !InReach(s.lanes[i], x)
    decreases |steps|
  {
    hide ServerNext, MayStep, InReach;
    if steps != [] {
      var n := |steps| - 1;
      LostSlotRuns(lay, lossless, trace[..n + 1], steps[..n], trace[n], i, x);
      hide ServerGood;
      assert ServerPasses(lay, lossless, trace[n], steps[n], s);
      ServerStep(lay, trace[n], steps[n]);
      LostPartStep(lay, trace[n], steps[n], i, x);
    }
  }

  lemma LostIsNotWritten(lay: Layout, s: System, i: nat, x: nat)
    requires ServerGood(lay, s) && lay.counting == FreshOnly
    requires 0 < i < lay.K() && IsSlot(lay.d, lay.sizes[i], x) && !InReach(s.lanes[i], x)
    ensures s.main == Collecting
  {
    hide Reaches, Counters;
    var p, l := lay.PartOf(i), s.lanes[i];
    assert Unserved(lay, s, i);
    ReachesInv(p, UNSERVED, l);
    if l.receiver.pc == Finished { LeftIsComplete(p, l); }
  }

  /** A slot of a part other than 0 that has not arrived, is not in flight and is past its first
      pass never arrives, whatever follows; so, if repeats are not counted, the disk is never
      written. */
  lemma LossIsFinal(lay: Layout, s: System, s': System, i: nat, x: nat)
    requires ServerFits(lay) && ServerGood(lay, s) && ServerLeads(lay, false, s, s')
    requires 0 < i < lay.K() && IsSlot(lay.d, lay.sizes[i], x) && !InReach(s.lanes[i], x)
    ensures |s'.lanes| == lay.K() && x !in s'.lanes[i].receiver.log
    ensures lay.counting == FreshOnly ==> s'.main == Collecting
  {
    var trace, steps :| ServerBetween(lay, false, s, trace, steps, s');
    hide ServerGood, ServerBetween;
    LostSlotRuns(lay, false, trace, steps, s', i, x);
    if lay.counting == FreshOnly { LostIsNotWritten(lay, s', i, x); }
  }
}
