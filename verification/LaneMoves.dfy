// Short runs of one lane, from its start, out of which whole runs are put together.
module LaneMoves {
  import opened Slots
  import opened Receiving
  import opened Lanes
  import opened LaneRuns
  import opened LanePaths

  lemma Begin(p: Part, m: Mode)
    ensures Reaches(p, m, START)
  {
    Stay(p, m, START);
  }

  lemma Take(p: Part, m: Mode, l: Lane, step: Step) returns (l': Lane)
    requires Reaches(p, m, l) && Enabled(p, l, step) && Allowed(m, step)
    ensures l' == Apply(p, l, step) && Reaches(p, m, l')
  {
    hide Apply, Enabled;
    l' := Then(p, m, START, l, step);
  }

  /** The first pass sends the next slot's datagram. */
  lemma FirstSend(p: Part, m: Mode, l: Lane) returns (l': Lane)
    requires Parameters(p) && Reaches(p, m, l)
    requires l.sender.pc == FirstPass && IsSlot(p.d, p.Len(), l.sender.sendPtr)
    ensures Reaches(p, m, l')
    ensures l' == l.(
      sender := l.sender.(sendPtr := l.sender.sendPtr + SlotSize(p.d, p.Len(), l.sender.sendPtr)),
      net := l.net + multiset{Packet(SlotDatagram(p, l.sender.sendPtr), false)})
  {
    hide Reaches;
    var stale := seq(p.d + 8, _ => 0);
    OneDatagramPerOffset(p, l.sender.sendPtr, stale);
    hide OnWire;
    l' := Take(p, m, l, SendFirst(stale));
  }

  lemma SlotInPart(p: Part, x: nat)
    requires IsSlot(p.d, p.Len(), x)
    ensures x < p.Len()
  {
  }

  /** The oldest request x is taken off the TCP connection, read, sent again and erased. */
  lemma ServeNack(p: Part, m: Mode, l: Lane, x: nat) returns (l': Lane)
    requires Parameters(p) && Reaches(p, m, l) && m.takes
    requires l.sender.pc == CheckEmpty && l.sender.requests == {} && IsSlot(p.d, p.Len(), x)
    requires l.handled < |l.receiver.nacked| && l.receiver.nacked[l.handled] == x
    ensures Reaches(p, m, l')
    ensures l' == l.(
      sender := l.sender.(sendPtr := x, resent := l.sender.resent + [x]),
      net := l.net + multiset{Packet(SlotDatagram(p, x), true)},
      handled := l.handled + 1)
  {
    hide Reaches, OnWire, Min, SlotDatagram, IsSlot, Parameters, Arrive, NackNext, FinishGap, InGap;
    var stale := seq(p.d + 8, _ => 0);
    MinIs({x}, x);
    SlotInPart(p, x);
    OneDatagramPerOffset(p, x, stale);
    var l1 := Take(p, m, l, TakeNack);
    assert l1.sender.requests == {x};
    var l2 := Take(p, m, l1, SeeNonempty);
    var l3 := Take(p, m, l2, Read);
    var l4 := Take(p, m, l3, Send(stale));
    l' := Take(p, m, l4, Erase);
    assert l'.sender.requests == {};
  }

  lemma Receive(p: Part, m: Mode, l: Lane, s: nat, again: bool) returns (l': Lane)
    requires Reaches(p, m, l) && IsSlot(p.d, p.Len(), s)
    requires Packet(SlotDatagram(p, s), again) in l.net
    requires l.receiver.pc == Waiting && l.receiver.recvSize < p.Len()
    ensures Reaches(p, m, l')
    ensures l' == l.(receiver := Arrive(p, l.receiver, SlotDatagram(p, s)),
                     net := l.net - multiset{Packet(SlotDatagram(p, s), again)})
  {
    hide Reaches;
    l' := Take(p, m, l, Deliver(Packet(SlotDatagram(p, s), again)));
  }

  lemma EndOfFirstPass(p: Part, m: Mode, l: Lane) returns (l': Lane)
    requires Reaches(p, m, l) && m.stays
    requires l.sender.pc == FirstPass && l.sender.sendPtr >= p.Len()
    ensures Reaches(p, m, l')
    ensures l' == l.(sender := l.sender.(pc := CheckEmpty))
  {
    hide Reaches;
    var l1 := Take(p, m, l, EndFirst);
    l' := Take(p, m, l1, SeeNotDone);
  }

  lemma Gap(p: Part, m: Mode, l: Lane) returns (l': Lane)
    requires Reaches(p, m, l) && InGap(p, l.receiver)
    ensures Reaches(p, m, l') && l' == l.(receiver := NackNext(p, l.receiver))
  {
    hide Reaches;
    l' := Take(p, m, l, FillGap);
  }

  lemma Close(p: Part, m: Mode, l: Lane) returns (l': Lane)
    requires Reaches(p, m, l) && l.receiver.pc.Filling? && !InGap(p, l.receiver)
    ensures Reaches(p, m, l') && l' == l.(receiver := FinishGap(l.receiver))
  {
    hide Reaches;
    l' := Take(p, m, l, EndGap);
  }

  lemma Leave(p: Part, m: Mode, l: Lane) returns (l': Lane)
    requires Reaches(p, m, l)
    requires l.receiver.pc == Waiting && l.receiver.recvSize >= p.Len()
    ensures Reaches(p, m, l') && l' == l.(receiver := l.receiver.(pc := Finished))
  {
    hide Reaches;
    var l1 := Take(p, m, l, LeaveLoop);
    l' := Take(p, m, l1, CountDone);
  }

  function First(p: Part, s: nat): Packet
    requires s < p.Len()
  {
    Packet(SlotDatagram(p, s), false)
  }

  lemma SlotFacts(p: Part, s: nat)
    requires s < p.Len()
    ensures SlotDatagram(p, s).seqNum == s && SlotDatagram(p, s).size == SlotSize(p.d, p.Len(), s)
  {
  }

  // ----- in step -----

  /** A place where a datagram may begin, or the end of the part. */
  predicate Boundary(p: Part, x: nat) {
    IsSlot(p.d, p.Len(), x) || x == p.Len()
  }

  lemma NextBoundary(p: Part, at: nat, upTo: nat)
    requires IsSlot(p.d, p.Len(), at) && Boundary(p, upTo) && at < upTo
    ensures var next := at + SlotSize(p.d, p.Len(), at); Boundary(p, next) && next <= upTo
  {
    if upTo < p.Len() { SlotsApart(p.d, at, upTo); }
  }

  /** A slot that the mark has reached is taken without a gap. */
  lemma ArriveInStep(p: Part, r: Receiver, s: nat)
    requires Inv(p, r) && r.pc == Waiting
    requires IsSlot(p.d, p.Len(), s) && r.expected >= s && (p.counting == EveryArrival || s !in r.log)
    ensures var r' := Arrive(p, r, SlotDatagram(p, s));
      && r'.pc == Waiting && r'.nacked == r.nacked && r'.log == r.log + [s]
      && r'.recvSize == r.recvSize + SlotSize(p.d, p.Len(), s)
      && r'.expected >= s + SlotSize(p.d, p.Len(), s)
  {
    hide GapAccount, ByteCount, NackRange, HighWater, Silent;
    SlotFacts(p, s);
    if r.expected > s && Aligned(p.d, r.expected) { SlotsApart(p.d, s, r.expected); }
  }

  /** One datagram is sent for the first time and received at once. */
  lemma StreamOne(p: Part, m: Mode, l: Lane) returns (l': Lane)
    requires Parameters(p) && Reaches(p, m, l)
    requires l.sender.pc == FirstPass && IsSlot(p.d, p.Len(), l.sender.sendPtr)
    requires l.receiver.pc == Waiting && l.receiver.recvSize < p.Len()
    ensures Reaches(p, m, l')
    ensures l' == l.(
      sender := l.sender.(sendPtr := l.sender.sendPtr + SlotSize(p.d, p.Len(), l.sender.sendPtr)),
      receiver := Arrive(p, l.receiver, SlotDatagram(p, l.sender.sendPtr)))
  {
    hide Reaches, SlotDatagram, Arrive, Parameters, IsSlot;
    var l1 := FirstSend(p, m, l);
    l' := Receive(p, m, l1, l.sender.sendPtr, false);
    assert l'.net == l.net;
  }

  /** The slots of `log` come before `at`, each once. */
  predicate InOrder(log: seq<nat>, at: nat) {
    Distinct(log) && forall x :: x in log ==> x < at
  }

  lemma InOrderNext(log: seq<nat>, at: nat, next: nat)
    requires InOrder(log, at) && at < next
    ensures InOrder(log + [at], next)
  {
    assert forall j :: 0 <= j < |log| ==> log[j] in log;
  }

  /** `log'` is `log` and the slots from `at` up to `upTo`. */
  ghost predicate Extends(p: Part, log: seq<nat>, log': seq<nat>, at: nat, upTo: nat) {
    forall x: nat :: x in log' <==> x in log || (IsSlot(p.d, p.Len(), x) && at <= x < upTo)
  }

  lemma ExtendsNext(p: Part, log: seq<nat>, log': seq<nat>, at: nat, upTo: nat)
    requires IsSlot(p.d, p.Len(), at) && at < upTo
    requires Extends(p, log + [at], log', at + SlotSize(p.d, p.Len(), at), upTo)
    ensures Extends(p, log, log', at, upTo)
  {
    forall x: nat | IsSlot(p.d, p.Len(), x) && at < x ensures x >= at + p.d {
      SlotsApart(p.d, at, x);
    }
    assert forall x :: x in log + [at] <==> x in log || x == at;
  }

  /** The datagrams up to `upTo` are sent for the first time and received one by one, when the
      receiver's mark is not behind the sender. */
  lemma {:induction false} Stream(p: Part, m: Mode, l: Lane, upTo: nat) returns (l': Lane)
    requires Parameters(p) && Reaches(p, m, l) && InOrder(l.receiver.log, l.sender.sendPtr)
    requires l.sender.pc == FirstPass && l.receiver.pc == Waiting && l.receiver.expected >= l.sender.sendPtr
    requires Boundary(p, l.sender.sendPtr) && Boundary(p, upTo) && l.sender.sendPtr <= upTo
    requires l.receiver.recvSize + upTo - l.sender.sendPtr <= p.Len()
    ensures Reaches(p, m, l')
    ensures l' == l.(sender := l.sender.(sendPtr := upTo), receiver := l'.receiver)
    ensures l'.receiver.pc == Waiting && l'.receiver.nacked == l.receiver.nacked && l'.receiver.expected >= upTo
    ensures l'.receiver.recvSize == l.receiver.recvSize + upTo - l.sender.sendPtr
    ensures InOrder(l'.receiver.log, upTo)
    ensures Extends(p, l.receiver.log, l'.receiver.log, l.sender.sendPtr, upTo)
    decreases upTo - l.sender.sendPtr
  {
    var at := l.sender.sendPtr;
    if at == upTo {
      l' := l;
    } else {
      NextBoundary(p, at, upTo);
      ReachesInv(p, m, l);
      ArriveInStep(p, l.receiver, at);
      InOrderNext(l.receiver.log, at, at + SlotSize(p.d, p.Len(), at));
      hide Reaches, SlotDatagram, LaneInv, Inv, Arrive, Boundary, Parameters, InOrder, Extends, Aligned;
      var l1 := StreamOne(p, m, l);
      l' := Stream(p, m, l1, upTo);
      ExtendsNext(p, l.receiver.log, l'.receiver.log, at, upTo);
    }
  }

  lemma FinalSlot(p: Part) returns (f: nat)
    requires p.Len() > 0
    ensures IsFinal(p, f) && f + SlotSize(p.d, p.Len(), f) == p.Len()
    ensures forall x: nat :: Aligned(p.d, x) && x + p.d < p.Len() ==> x + p.d <= f
  {
    f := SlotOf(p.d, p.Len(), p.Len() - 1);
    forall x: nat | Aligned(p.d, x) && x + p.d < p.Len() ensures x + p.d <= f {
      SlotsApart(p.d, x, f);
    }
  }

  /** The whole part, sent and received in order. */
  lemma WholePart(p: Part, m: Mode) returns (l: Lane)
    requires Parameters(p)
    ensures Reaches(p, m, l) && l.receiver.pc == Finished && Distinct(l.receiver.log) && l.receiver.nacked == []
  {
    hide Reaches, Parameters;
    Begin(p, m);
    l := Stream(p, m, START, p.Len());
    l := Leave(p, m, l);
  }

  /** The datagrams before slot x have arrived, its own is dropped. */
  lemma LostSlot(p: Part, x: nat) returns (l: Lane)
    requires Parameters(p) && IsSlot(p.d, p.Len(), x)
    ensures Reaches(p, LOSING_ALONE, l)
    ensures l.receiver.pc == Waiting && x !in l.receiver.log && l.net == multiset{}
    ensures l.sender.pc == FirstPass && l.sender.sendPtr > x
  {
    hide Reaches, SlotDatagram, Parameters;
    Begin(p, LOSING_ALONE);
    l := Stream(p, LOSING_ALONE, START, x);
    l := FirstSend(p, LOSING_ALONE, l);
    l := Take(p, LOSING_ALONE, l, Drop(First(p, x)));
    assert l.net == multiset{};
  }
}
