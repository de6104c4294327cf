// Whole transfers: that they are possible, and exactly when one can still be completed.
module SystemProgress {
  import opened Bytes
  import opened Slots
  import opened Receiving
  import opened Lanes
  import opened LanePaths
  import opened LaneMoves
  import opened LaneLoss
  import opened LaneProgress
  import opened System
  import opened Barrier
  import opened Transfer
  import opened Echo
  import opened SystemPaths
  import opened Ending
  import opened ServerReturn

  // ----- every file can be transferred -----

  /** The parts from i on that have not started, part `but` excepted, are sent and received in
      order. */
  lemma {:induction false} RestInOrder(lay: Layout, lossless: bool, a: System, s: System, i: nat, but: nat)
    returns (s': System)
    requires AllParameters(lay) && OnRoute(lay, lossless, a, s) && i <= lay.K() == |s.lanes|
    requires s.main == Collecting && !s.sendingDone
    requires forall j :: 0 <= j < i && j != but ==> s.lanes[j].receiver.pc == Finished
    requires forall j :: i <= j < lay.K() && j != but ==>
      s.lanes[j].receiver.pc == Finished || s.lanes[j] == Lanes.START
    ensures OnRoute(lay, lossless, a, s') && |s'.lanes| == lay.K() && s'.main == Collecting && !s'.sendingDone
    ensures forall j :: 0 <= j < lay.K() && j != but ==> s'.lanes[j].receiver.pc == Finished
    ensures forall j :: 0 <= j < lay.K() && (j == but || s.lanes[j].receiver.pc == Finished) ==>
      s'.lanes[j] == s.lanes[j]
    ensures forall j :: 0 <= j < lay.K() && j != but && s.lanes[j] == Lanes.START ==>
      Distinct(s'.lanes[j].receiver.log) && s'.lanes[j].receiver.nacked == []
    decreases lay.K() - i
  {
    if i == lay.K() {
      s' := s;
    } else {
      var m := ALONE;
      hide OnRoute, Leads, AllParameters;
      if i == but || s.lanes[i].receiver.pc == Finished {
        s' := RestInOrder(lay, lossless, a, s, i + 1, but);
      } else {
        ParametersOf(lay, i);
        var l' := WholePart(lay.PartOf(i), m);
        var s1 := LiftLeads(lay, lossless, m, a, s, i, l');
        s' := RestInOrder(lay, lossless, a, s1, i + 1, but);
      }
    }
  }

  lemma WriteNow(lay: Layout, lossless: bool, a: System, s: System) returns (s': System)
    requires OnRoute(lay, lossless, a, s) && s.main == Collecting && AllFinished(s)
    ensures OnRoute(lay, lossless, a, s') && s'.main == DiskWritten && s'.lanes == s.lanes && s'.buf == s.buf
    ensures s'.totalRecvSize == s.totalRecvSize && s'.disk == s.buf[..Clamp(|s.buf|, s.totalRecvSize)]
  {
    BarrierSafety(lay, s);
    hide SystemLeads, SystemReachable, LanesInv, BarrierInv, AllFinished;
    s' := Advance(lay, lossless, a, s, WriteToDisk);
  }

  // ----- and brought to its end -----

  lemma EndDirection(lay: Layout, a: System, s: System) returns (s': System)
    requires AllParameters(lay) && SystemLeads(lay, true, a, s) && Completed(lay, s)
    ensures SystemLeads(lay, true, a, s') && Completed(lay, s') && Flipped(s') && s'.disk == s.disk
    ensures SameReceivers(s, s')
  {
    hide SystemLeads, SystemReachable, AllParameters;
    s' := DirectionCanEnd(lay, s);
    LeadsThrough(lay, true, a, s, s');
  }

  /** Whatever the variants, a run of the whole system exists that writes the disk, in which no
      datagram was received twice, and at the end of which the roles can flip; with the server's
      handler, too. */
  lemma TransferIsPossible(lay: Layout) returns (s: System)
    requires AllParameters(lay)
    ensures Completed(lay, s) && Flipped(s) && SystemLeads(lay, true, Boot(lay), s)
    ensures ServerLeads(lay, true, Boot(lay), s)
  {
    var s0 := Boot(lay);
    DepartBoot(lay, true);
    var s1 := RestInOrder(lay, true, s0, s0, 0, lay.K());
    s := WriteNow(lay, true, s0, s1);
    RouteReaches(lay, s0, s);
    hide SystemLeads, SystemReachable, AllParameters, OnRoute;
    s := EndDirection(lay, s0, s);
    UnNackedIsServers(lay, true, s);
  }

  /** In particular every file below 4 GiB can make both directions, the second one with the handler
      that the server has, and with either offset rule. */
  lemma EchoIsPossible(d: pos, n: nat, k: nat, rule: OffsetRule, gap: GapGuard, counting: Counting, memory: seq<byte>)
    returns (server: System, client: System)
    requires 4 <= d < TWO_32 && 0 < k && n < TWO_32 && Extent(n, k, rule) <= |memory|
    ensures Completed(Direction(d, n, k, rule, gap, counting, memory), server) && Flipped(server)
    ensures var back := Direction(d, n, k, rule, gap, counting, server.buf);
      Completed(back, client) && Flipped(client) && ServerLeads(back, true, Boot(back), client)
  {
    hide Completed, Extent, Direction, AllParameters;
    PartsSmall(d, n, k, rule, gap, counting, memory);
    server := TransferIsPossible(Direction(d, n, k, rule, gap, counting, memory));
    ExtentAtLeast(n, k, rule);
    OneWay(d, n, k, rule, gap, counting, memory, server);
    PartsSmall(d, n, k, rule, gap, counting, server.buf);
    client := TransferIsPossible(Direction(d, n, k, rule, gap, counting, server.buf));
  }

  lemma PartsSmall(d: pos, n: nat, k: nat, rule: OffsetRule, gap: GapGuard, counting: Counting, memory: seq<byte>)
    requires 4 <= d < TWO_32 && 0 < k && n < TWO_32 && Extent(n, k, rule) <= |memory|
    ensures Direction(d, n, k, rule, gap, counting, memory).Valid()
    ensures AllParameters(Direction(d, n, k, rule, gap, counting, memory))
  {
    DirectionValid(d, n, k, rule, gap, counting, memory);
    hide Extent;
  }

  /** With prefix-sum offsets the file then comes back unchanged. */
  lemma FileCanReturn(d: pos, k: nat, gap: GapGuard, counting: Counting, file: seq<byte>)
    returns (server: System, client: System)
    requires 4 <= d < TWO_32 && 0 < k && |file| < TWO_32
    ensures Completed(Direction(d, |file|, k, PrefixOffsets, gap, counting, file), server) && server.disk == file
    ensures Flipped(server)
    ensures var back := Direction(d, |file|, k, PrefixOffsets, gap, counting, server.buf);
      Completed(back, client) && ServerLeads(back, true, Boot(back), client) && client.disk == file
  {
    hide Completed, Direction;
    server, client := EchoIsPossible(d, |file|, k, PrefixOffsets, gap, counting, file);
    EchoRoundTrip(d, |file|, k, gap, counting, file, server, client);
    assert file[..|file|] == file;
  }

  /** With the offsets as written, a completed transfer that leaves a wrong file exists exactly
      when a byte that the last part's displacement leaves out is not zero. */
  lemma WrittenOffsetsCorruptIff(d: pos, n: nat, k: nat, gap: GapGuard, counting: Counting, memory: seq<byte>)
    requires 4 <= d < TWO_32 && 0 < k && n < TWO_32 && Extent(n, k, WrittenOffsets) <= |memory| && n <= |memory|
    ensures (exists server ::
        Completed(Direction(d, n, k, WrittenOffsets, gap, counting, memory), server) && server.disk != memory[..n])
      <==> exists p: nat :: p < n && Hole(n, k, WrittenOffsets, p) && memory[p] != 0
  {
    hide Completed, Direction, Hole, Extent;
    var server, client := EchoIsPossible(d, n, k, WrittenOffsets, gap, counting, memory);
    forall s | Completed(Direction(d, n, k, WrittenOffsets, gap, counting, memory), s)
      ensures s.disk != memory[..n] <==> exists p: nat :: p < n && Hole(n, k, WrittenOffsets, p) && memory[p] != 0
    {
      WrongExactly(d, n, k, gap, counting, memory, s);
    }
  }

  lemma WrongExactly(d: pos, n: nat, k: nat, gap: GapGuard, counting: Counting, memory: seq<byte>, s: System)
    requires 0 < k && Extent(n, k, WrittenOffsets) <= |memory| && n <= |memory|
    requires Completed(Direction(d, n, k, WrittenOffsets, gap, counting, memory), s)
    ensures s.disk != memory[..n] <==> exists p: nat :: p < n && Hole(n, k, WrittenOffsets, p) && memory[p] != 0
  {
    hide Completed, Direction, Hole, Extent;
    OneWay(d, n, k, WrittenOffsets, gap, counting, memory, s);
    if p: nat :| p < n && Hole(n, k, WrittenOffsets, p) && memory[p] != 0 {
      assert s.disk[p] != memory[..n][p];
    }
  }

  // ----- what can still be completed -----

  /** A part that needs no more than its own threads once its NACKs have been taken. */
  ghost predicate Near(p: Part, l: Lane) {
    Recoverable(p, l) && (Prepared(p, l) || l.receiver.pc == Counted || l.receiver.pc == Finished)
  }

  ghost predicate Collectable(lay: Layout, a: System, s: System) {
    && OnRoute(lay, true, a, s) && |s.lanes| == lay.K() && s.main == Collecting && !s.sendingDone
    && forall j: nat :: j < lay.K() ==> Recoverable(lay.PartOf(j), s.lanes[j])
  }

  lemma StillSending(lay: Layout, a: System, s: System, i: nat)
    requires Collectable(lay, a, s) && i < lay.K()
    ensures s.lanes[i].sender.pc != Stopped && Recoverable(lay.PartOf(i), s.lanes[i])
  {
    hide SystemLeads, SystemReachable, LanesInv, Counters, Framed, Recoverable;
  }

  lemma {:induction false} PrepareAll(lay: Layout, a: System, s: System, i: nat) returns (s': System)
    requires AllParameters(lay) && lay.counting == FreshOnly && Collectable(lay, a, s) && i <= lay.K()
    requires forall j: nat :: j < i ==> Near(lay.PartOf(j), s.lanes[j])
    ensures Collectable(lay, a, s') && forall j: nat :: j < lay.K() ==> Near(lay.PartOf(j), s'.lanes[j])
    decreases lay.K() - i
  {
    if i == lay.K() {
      s' := s;
    } else {
      var p, l, m := lay.PartOf(i), s.lanes[i], ALONE;
      ParametersOf(lay, i);
      LaneReady(lay, m, a, s, i);
      StillSending(lay, a, s, i);
      hide OnRoute, OnWay, AllParameters, Parameters, LaneInv, Recoverable, Prepared, Leads;
      if l.receiver.pc == Waiting || l.receiver.pc.Filling? {
        var l' := Prepare(p, m, l, l);
        var s1 := LiftLeads(lay, true, m, a, s, i, l');
        s' := PrepareAll(lay, a, s1, i + 1);
      } else {
        s' := PrepareAll(lay, a, s, i + 1);
      }
    }
  }

  lemma TakenKeepsNear(p: Part, l: Lane, seqNum: nat)
    requires Near(p, l)
    ensures Near(p, TakeRequest(l, seqNum))
  {
    var l' := TakeRequest(l, seqNum);
    assert forall x :: Alive(l', x) == Alive(l, x);
  }

  /** The connection is read to its end. */
  lemma {:induction false} DrainAll(lay: Layout, a: System, s: System) returns (s': System)
    requires Collectable(lay, a, s)
    requires forall j: nat :: j < lay.K() ==> Near(lay.PartOf(j), s.lanes[j])
    ensures Collectable(lay, a, s') && forall j: nat :: j < lay.K() ==> Near(lay.PartOf(j), s'.lanes[j])
    ensures s'.tcp == []
    decreases |s.tcp|
  {
    if s.tcp == [] {
      s' := s;
    } else {
      var r := s.tcp[0];
      assert 0 <= r.idx < lay.K();
      if r.seqNum < lay.fileSize { TakenKeepsNear(lay.PartOf(r.idx), s.lanes[r.idx], r.seqNum); }
      hide SystemLeads, SystemReachable, LanesInv, BarrierInv, Recoverable, Prepared;
      var s1 := Advance(lay, true, a, s, HandleFrame);
      s' := DrainAll(lay, a, s1);
    }
  }

  lemma Drained(lay: Layout, s: System, i: nat)
    requires LanesInv(lay, s) && i < lay.K() && s.tcp == []
    ensures s.lanes[i].handled == |s.lanes[i].receiver.nacked|
  {
    hide Reachable;
    assert LaneOk(lay, s, i);
  }

  lemma {:induction false} RetireAll(lay: Layout, a: System, s: System, i: nat) returns (s': System)
    requires AllParameters(lay) && lay.gap == Repaired && lay.counting == FreshOnly
    requires Collectable(lay, a, s) && i <= lay.K()
    requires forall j: nat :: j < i ==> s.lanes[j].receiver.pc == Finished
    requires forall j: nat :: i <= j < lay.K() ==>
      Near(lay.PartOf(j), s.lanes[j]) && s.lanes[j].handled == |s.lanes[j].receiver.nacked|
    ensures OnRoute(lay, true, a, s') && s'.main == Collecting && AllFinished(s')
    decreases lay.K() - i
  {
    if i == lay.K() {
      s' := s;
    } else {
      var p, l, m := lay.PartOf(i), s.lanes[i], ALONE;
      ParametersOf(lay, i);
      LaneReady(lay, m, a, s, i);
      StillSending(lay, a, s, i);
      hide OnRoute, OnWay, AllParameters, Parameters, LaneInv, Recoverable, Prepared, Leads;
      var l' := Retire(p, m, l, l);
      var s1 := LiftLeads(lay, true, m, a, s, i, l');
      s' := RetireAll(lay, a, s1, i + 1);
    }
  }

  lemma Complete(lay: Layout, a: System) returns (s: System)
    requires AllParameters(lay) && lay.gap == Repaired && lay.counting == FreshOnly
    requires SystemReachable(lay, a) && a.main == Collecting
    requires |a.lanes| == lay.K() && forall j: nat :: j < lay.K() ==> Recoverable(lay.PartOf(j), a.lanes[j])
    ensures SystemLeads(lay, true, a, s) && Completed(lay, s) && Flipped(s)
  {
    Depart(lay, true, a);
    assert Collectable(lay, a, a);
    hide OnRoute, Recoverable, AllParameters, Near;
    var s1 := PrepareAll(lay, a, a, 0);
    var s2 := DrainAll(lay, a, s1);
    forall j: nat | j < lay.K() ensures s2.lanes[j].handled == |s2.lanes[j].receiver.nacked| {
      RouteDrained(lay, a, s2, j);
    }
    var s3 := RetireAll(lay, a, s2, 0);
    s := WriteNow(lay, true, a, s3);
    RouteReaches(lay, a, s);
    hide SystemLeads, SystemReachable;
    s := EndDirection(lay, a, s);
  }

  lemma RouteDrained(lay: Layout, a: System, s: System, i: nat)
    requires OnRoute(lay, true, a, s) && i < lay.K() == |s.lanes| && s.tcp == []
    ensures s.lanes[i].handled == |s.lanes[i].receiver.nacked|
  {
    hide SystemLeads, SystemReachable;
    Drained(lay, s, i);
  }

  lemma RouteReaches(lay: Layout, a: System, s: System)
    requires OnRoute(lay, true, a, s)
    ensures SystemLeads(lay, true, a, s) && SystemReachable(lay, s)
  {
  }

  lemma LostPartStep(lay: Layout, s: System, step: SystemStep, i: nat)
    requires Good(lay, s) && MayStep(lay, s, step) && i < lay.K() == |s.lanes|
    requires !Recoverable(lay.PartOf(i), s.lanes[i])
    ensures |Next(lay, s, step).lanes| == lay.K() && !Recoverable(lay.PartOf(i), Next(lay, s, step).lanes[i])
  {
    hide Next, MayStep, Apply, Enabled, Recoverable, BarrierInv, Content, LaneInv, Reachable;
    assert LaneOk(lay, s, i);
    ReachableInv(lay.PartOf(i), s.lanes[i]);
    var moves, st := PartStep(lay, s, step, i);
    if moves && Recoverable(lay.PartOf(i), Apply(lay.PartOf(i), s.lanes[i], st)) {
      IrrecoverableStep(lay.PartOf(i), s.lanes[i], st);
    }
  }

  lemma {:induction false} LostPart(lay: Layout, lossless: bool, trace: seq<System>, steps: seq<SystemStep>,
                                    s: System, i: nat)
    requires |steps| < |trace| && Good(lay, trace[0]) && i < lay.K() == |trace[0].lanes|
    requires SystemBetween(lay, lossless, trace[0], trace, steps, s)
    requires !Recoverable(lay.PartOf(i), trace[0].lanes[i])
    ensures Good(lay, s) && |s.lanes| == lay.K() && !Recoverable(lay.PartOf(i), s.lanes[i])
    decreases |steps|
  {
    hide Good, Next, MayStep, Recoverable;
    if steps != [] {
      var n := |steps| - 1;
      LostPart(lay, lossless, trace[..n + 1], steps[..n], trace[n], i);
      assert Passes(lay, lossless, trace[n], steps[n], s);
      GoodStep(lay, trace[n], steps[n]);
      LostPartStep(lay, trace[n], steps[n], i);
    }
  }

  lemma LostIsCollecting(lay: Layout, s: System, i: nat)
    requires Good(lay, s) && lay.counting == FreshOnly && i < lay.K() == |s.lanes|
    requires !Recoverable(lay.PartOf(i), s.lanes[i])
    ensures s.main == Collecting
  {
    hide Recoverable, Reachable, LaneInv, Content, Counters, Framed;
    assert LaneOk(lay, s, i);
    ReachableInv(lay.PartOf(i), s.lanes[i]);
    if s.lanes[i].receiver.pc == Finished {
      LeftIsComplete(lay.PartOf(i), s.lanes[i]);
      CompleteIsRecoverable(lay.PartOf(i), s.lanes[i]);
    }
  }

  /** With both repairs, from any reachable state in which the disk has not been written, whatever
      has been lost so far: a continuation in which the network only reorders writes the disk and
      comes to the flip of the roles if and only if every part is still recoverable; and if one is
      not, no continuation even writes the disk. */
  lemma TransferCompletableIff(lay: Layout, a: System)
    requires AllParameters(lay) && lay.gap == Repaired && lay.counting == FreshOnly
    requires SystemReachable(lay, a) && a.main == Collecting && |a.lanes| == lay.K()
    ensures (exists s :: SystemLeads(lay, true, a, s) && Flipped(s) && Completed(lay, s))
      <==> forall j: nat :: j < lay.K() ==> Recoverable(lay.PartOf(j), a.lanes[j])
    ensures (exists s :: SystemLeads(lay, false, a, s) && s.main != Collecting)
      <==> forall j: nat :: j < lay.K() ==> Recoverable(lay.PartOf(j), a.lanes[j])
  {
    SystemInv(lay, a);
    hide Recoverable, Good, AllParameters, SystemReachable;
    if forall j: nat :: j < lay.K() ==> Recoverable(lay.PartOf(j), a.lanes[j]) {
      var s := Complete(lay, a);
      LosslessLeads(lay, a, s);
    } else {
      var i: nat :| i < lay.K() && !Recoverable(lay.PartOf(i), a.lanes[i]);
      forall lossless, s | SystemLeads(lay, lossless, a, s) ensures s.main == Collecting {
        var trace, steps :| SystemBetween(lay, lossless, a, trace, steps, s);
        LostPart(lay, lossless, trace, steps, s, i);
        LostIsCollecting(lay, s, i);
      }
    }
  }

  lemma LosslessLeads(lay: Layout, a: System, s: System)
    requires SystemLeads(lay, true, a, s)
    ensures SystemLeads(lay, false, a, s)
  {
    hide Follows;
    var trace, steps :| SystemBetween(lay, true, a, trace, steps, s);
    forall j | 0 <= j < |steps| ensures Passes(lay, false, trace[j], steps[j], trace[j + 1]) {
      assert Passes(lay, true, trace[j], steps[j], trace[j + 1]);
    }
    assert SystemBetween(lay, false, a, trace, steps, s);
  }
}
