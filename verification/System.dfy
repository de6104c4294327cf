// One direction of the transfer: K lanes, one shared TCP connection for their NACKs, the shared
// file buffer, the two counters of the receiving program and its main thread.
module System {
  import opened Bytes
  import opened Slots
  import opened Wire
  import opened Nacks
  import opened Receiving
  import opened Lanes
  import opened LanePaths
  import opened LaneRuns

  /** Part i is the `sizes[i]` bytes of `src` from `offs[i]` on. */
  datatype Plan = Plan(d: pos, fileSize: nat, src: seq<byte>, sizes: seq<nat>, offs: seq<nat>,
                       gap: GapGuard, counting: Counting)
  {
    function K(): nat { |sizes| }

    predicate Valid() {
      && 0 < |sizes| == |offs| && fileSize <= |src|
      && forall i :: 0 <= i < |sizes| ==> sizes[i] <= fileSize && offs[i] + sizes[i] <= |src|
    }

    function PartOf(i: nat): (p: Part)
      requires Valid() && i < K()
      ensures p.Len() == sizes[i]
    {
      Part(d, src[offs[i]..offs[i] + sizes[i]], gap, counting)
    }
  }

  /** A plan whose parts lie in the memory it describes. */
  type Layout = lay: Plan | lay.Valid() witness Plan(1, 0, [], [0], [0], AsWritten, EveryArrival)

  datatype MainPc = Collecting | DiskWritten | SentinelSent

  /** `tcp` holds the frames as the client's test decodes them; `buf` is the zeroed file buffer. */
  datatype System = System(lanes: seq<Lane>, tcp: seq<Request>, buf: seq<byte>, totalRecvSize: nat,
                           doneReceiveCount: nat, main: MainPc, sendingDone: bool, disk: seq<byte>)

  datatype SystemStep =
    | InPart(i: nat, step: Step)   // a step of part i's sender, receiver or datagrams
    | HandleFrame                  // one iteration of nackHandler
    | WriteToDisk                  // main, past its wait for all parts
    | SendSentinel

  function Boot(lay: Layout): System {
    System(seq(lay.K(), _ => Lanes.START), [], seq(|lay.src|, _ => 0), 0, 0, Collecting, false, [])
  }

  function SentinelOf(k: nat): Request {
    Request(k + 1, k + 1)
  }

  ghost predicate MayStep(lay: Layout, s: System, step: SystemStep) {
    match step
    case InPart(i, st) =>
      && i < lay.K() == |s.lanes| && Enabled(lay.PartOf(i), s.lanes[i], st)
      && !st.TakeNack? && (st.SeeDone? ==> s.sendingDone) && (st.SeeNotDone? ==> !s.sendingDone)
    case HandleFrame => s.tcp != [] && !s.sendingDone
    case WriteToDisk => s.main == Collecting && s.doneReceiveCount == lay.K()
    case SendSentinel => s.main == DiskWritten
  }

  datatype Copy = NoCopy | CopyOf(dg: Datagram)

  /** The datagram that a receiver step copies into the file buffer. */
  function Copied(l: Lane, step: Step): Copy {
    if step.Deliver? && step.pk.dg.seqNum <= l.receiver.expected then CopyOf(step.pk.dg)
    else if step.EndGap? && l.receiver.pc.Filling? then CopyOf(l.receiver.pc.dg)
    else NoCopy
  }

  /** memcpy into the buffer; the invariant shows that it is always in bounds. */
  function Blit(buf: seq<byte>, at: nat, b: seq<byte>): (r: seq<byte>)
    ensures |r| == |buf|
  {
    if at + |b| <= |buf| then Overwrite(buf, at, b) else buf
  }

  /** One iteration of nackHandler for the frame at the head of the connection, read as r. */
  function Handle(lay: Layout, s: System, r: Request): System
    requires |s.lanes| == lay.K() && s.tcp != []
  {
    if r.idx > lay.K() then s.(tcp := s.tcp[1..], sendingDone := true)
    else if 0 <= r.idx < lay.K() && r.seqNum < lay.fileSize then
      s.(tcp := s.tcp[1..], lanes := s.lanes[r.idx := TakeRequest(s.lanes[r.idx], r.seqNum)])
    else s.(tcp := s.tcp[1..])
  }

  /** missedSeqSender, as all lanes together hold it. */
  function RequestSets(lanes: seq<Lane>): (requests: seq<set<nat>>)
    ensures |requests| == |lanes| && forall i :: 0 <= i < |lanes| ==> requests[i] == lanes[i].sender.requests
  {
    seq(|lanes|, i requires 0 <= i < |lanes| => lanes[i].sender.requests)
  }

  /** It is nackHandler's iteration: with either test, the sets and the done flag become what the
      handler makes of the frame's bytes, and nothing but them and the connection changes. */
  lemma HandleIsHandlers(lay: Layout, s: System, test: Decoder, frame: Frame, n: nat)
    requires |s.lanes| == lay.K() && s.tcp != [] && !s.sendingDone
    ensures var s' := Handle(lay, s, DecodeNack(test, lay.K(), frame));
      && Outcome(RequestSets(s'.lanes), s'.sendingDone, n + 1)
           == HandleOne(test, lay.fileSize, frame, Outcome(RequestSets(s.lanes), false, n))
      && s' == s.(tcp := s.tcp[1..], sendingDone := s'.sendingDone, lanes := s'.lanes)
      && |s'.lanes| == |s.lanes|
      && forall i :: 0 <= i < |s.lanes| ==> s'.lanes[i] == s.lanes[i].(
           sender := s.lanes[i].sender.(requests := s'.lanes[i].sender.requests), handled := s'.lanes[i].handled)
  {
    hide DecodeNack;
    var r := DecodeNack(test, lay.K(), frame);
    var s' := Handle(lay, s, r);
    assert RequestSets(s'.lanes) == if r.idx > lay.K() then RequestSets(s.lanes)
      else Insert(RequestSets(s.lanes), lay.fileSize, r);
  }

  ghost function Next(lay: Layout, s: System, step: SystemStep): System
    requires |s.lanes| == lay.K() && MayStep(lay, s, step)
  {
    match step
    case InPart(i, st) =>
      var l := s.lanes[i];
      var copy := Copied(l, st);
      s.(lanes := s.lanes[i := Apply(lay.PartOf(i), l, st)],
         tcp := if st.FillGap? then s.tcp + [Request(i, l.receiver.expected)] else s.tcp,
         buf := if copy.CopyOf? then Blit(s.buf, lay.offs[i] + copy.dg.seqNum, copy.dg.payload) else s.buf,
         totalRecvSize := if st.LeaveLoop? then s.totalRecvSize + l.receiver.recvSize else s.totalRecvSize,
         doneReceiveCount := if st.CountDone? then s.doneReceiveCount + 1 else s.doneReceiveCount)
    case HandleFrame => Handle(lay, s, s.tcp[0])
    case WriteToDisk =>
      s.(main := DiskWritten, disk := s.buf[..Clamp(|s.buf|, s.totalRecvSize)])
    case SendSentinel => s.(main := SentinelSent, tcp := s.tcp + [SentinelOf(lay.K())])
  }

  ghost predicate Follows(lay: Layout, s: System, step: SystemStep, s': System) {
    |s.lanes| == lay.K() && MayStep(lay, s, step) && s' == Next(lay, s, step)
  }

  ghost predicate Execution(lay: Layout, trace: seq<System>, steps: seq<SystemStep>) {
    && |trace| == |steps| + 1
    && trace[0] == Boot(lay)
    && forall j :: 0 <= j < |steps| ==> Follows(lay, trace[j], steps[j], trace[j + 1])
  }

  // ----- each lane of a system run is a run of that lane -----

  /** The offsets on the TCP connection that belong to part i, in order. */
  function FramesOf(tcp: seq<Request>, i: int): (q: seq<nat>) {
    if tcp == [] then []
    else (if tcp[0].idx == i then [tcp[0].seqNum] else []) + FramesOf(tcp[1..], i)
  }

  lemma {:induction false} FramesAppend(tcp: seq<Request>, r: Request, i: int)
    ensures FramesOf(tcp + [r], i) == FramesOf(tcp, i) + if r.idx == i then [r.seqNum] else []
  {
    var tcp' := tcp + [r];
    assert FramesOf(tcp', i) == (if tcp'[0].idx == i then [tcp'[0].seqNum] else []) + FramesOf(tcp'[1..], i);
    if tcp == [] {
      assert tcp'[1..] == [];
    } else {
      FramesAppend(tcp[1..], r, i);
      assert tcp'[1..] == tcp[1..] + [r];
    }
  }

  /** Part i's unhandled NACKs are on the connection, in the order they were issued. */
  predicate Ordered(tcp: seq<Request>, l: Lane, i: int) {
    l.handled <= |l.receiver.nacked| && FramesOf(tcp, i) == l.receiver.nacked[l.handled..]
  }

  ghost predicate LaneOk(lay: Layout, s: System, i: nat)
    requires i < lay.K() == |s.lanes|
  {
    Reachable(lay.PartOf(i), s.lanes[i]) && Ordered(s.tcp, s.lanes[i], i)
  }

  ghost predicate LanesInv(lay: Layout, s: System) {
    |s.lanes| == lay.K() && forall i: nat :: i < lay.K() ==> LaneOk(lay, s, i)
  }

  lemma BootLanes(lay: Layout)
    ensures LanesInv(lay, Boot(lay))
  {
    var s := Boot(lay);
    forall i: nat | i < lay.K() ensures LaneOk(lay, s, i) {
      ReachableStart(lay.PartOf(i));
      assert s.lanes[i] == Lanes.START;
    }
  }

  lemma InPartLanes(lay: Layout, s: System, i: nat, st: Step)
    requires LanesInv(lay, s) && MayStep(lay, s, InPart(i, st))
    ensures LanesInv(lay, Next(lay, s, InPart(i, st)))
  {
    hide Enabled, Apply, Reachable, Blit;
    var s' := Next(lay, s, InPart(i, st));
    forall j: nat | j < lay.K() ensures LaneOk(lay, s', j) {
      assert LaneOk(lay, s, j);
      if st.FillGap? { FramesAppend(s.tcp, Request(i, s.lanes[i].receiver.expected), j); }
      if j == i {
        ReachableStep(lay.PartOf(i), s.lanes[i], st);
        NackedBy(lay.PartOf(i), s.lanes[i], st);
      }
    }
  }

  /** The frame at the head of the connection is the next NACK of its part, in range. */
  lemma HeadIsNext(lay: Layout, s: System, i: nat)
    requires LanesInv(lay, s) && i < lay.K() && s.tcp != [] && s.tcp[0].idx == i
    ensures var l := s.lanes[i];
      && l.handled < |l.receiver.nacked| && l.receiver.nacked[l.handled] == s.tcp[0].seqNum
      && s.tcp[0].seqNum < lay.sizes[i] <= lay.fileSize
  {
    hide Reachable;
    var l := s.lanes[i];
    assert LaneOk(lay, s, i);
    assert l.receiver.nacked[l.handled..][0] == s.tcp[0].seqNum;
    NackRangeHolds(lay.PartOf(i), l);
    assert l.receiver.nacked[l.handled] in l.receiver.nacked;
  }

  lemma HandleLanes(lay: Layout, s: System)
    requires LanesInv(lay, s) && MayStep(lay, s, HandleFrame)
    ensures LanesInv(lay, Next(lay, s, HandleFrame))
  {
    hide Enabled, Reachable, Blit;
    var s', r := Next(lay, s, HandleFrame), s.tcp[0];
    forall j: nat | j < lay.K() ensures LaneOk(lay, s', j) {
      assert LaneOk(lay, s, j);
      if r.idx == j {
        HeadIsNext(lay, s, j);
        assert Enabled(lay.PartOf(j), s.lanes[j], TakeNack) by { HandleEnabled(lay.PartOf(j), s.lanes[j]); }
        ReachableStep(lay.PartOf(j), s.lanes[j], TakeNack);
        assert s'.lanes[j] == Apply(lay.PartOf(j), s.lanes[j], TakeNack);
      }
    }
  }

  lemma HandleEnabled(p: Part, l: Lane)
    requires l.handled < |l.receiver.nacked|
    ensures Enabled(p, l, TakeNack)
  {
  }

  lemma MainLanes(lay: Layout, s: System, step: SystemStep)
    requires LanesInv(lay, s) && MayStep(lay, s, step)
    requires step == WriteToDisk || step == SendSentinel
    ensures LanesInv(lay, Next(lay, s, step))
  {
    hide Reachable;
    var s' := Next(lay, s, step);
    forall j: nat | j < lay.K() ensures LaneOk(lay, s', j) {
      assert LaneOk(lay, s, j);
      if step == SendSentinel { FramesAppend(s.tcp, SentinelOf(lay.K()), j); }
    }
  }

  lemma LanesStep(lay: Layout, s: System, step: SystemStep)
    requires LanesInv(lay, s) && MayStep(lay, s, step)
    ensures LanesInv(lay, Next(lay, s, step))
  {
    hide Next, MayStep, LanesInv;
    match step
    case InPart(i, st) => InPartLanes(lay, s, i, st);
    case HandleFrame => HandleLanes(lay, s);
    case _ => MainLanes(lay, s, step);
  }
}
