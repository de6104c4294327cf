// One part end to end: sender thread, datagrams in flight, receiver thread, and the NACKs
// between them. NACKs of one part travel in order: nacked[..handled] have been inserted into
// missedSeqSender, the rest are still on the TCP connection.
module Lanes {
  import opened Bytes
  import opened Slots
  import opened Wire
  import opened Receiving

  datatype SenderPc =
    | FirstPass    // while (sendPtr < splitSize)
    | CheckDone    // while (sendingDone != 1)
    | CheckEmpty   // while (!missedSeqSender.empty())
    | ReadBegin    // about to read *begin(), unlocked
    | Resend       // holds sendPtr, about to send it
    | EraseBegin   // has sent it, about to erase begin() under udpResendLock
    | Stopped

  /** `requests` is missedSeqSender; `resent` lists the retransmissions made so far. */
  datatype Sender = Sender(pc: SenderPc, sendPtr: nat, requests: set<nat>, resent: seq<nat>)

  /** `again` tells retransmissions from first sends; nothing on the wire does. */
  datatype Packet = Packet(dg: Datagram, again: bool)

  /** `lost` collects the offsets of the retransmissions that the network dropped. */
  datatype Lane = Lane(sender: Sender, receiver: Receiver, net: multiset<Packet>, handled: nat, lost: set<nat>)

  datatype Step =
    | SendFirst(stale: seq<byte>)     // one iteration of the first pass
    | EndFirst
    | SeeDone | SeeNotDone
    | SeeEmpty | SeeNonempty
    | Read
    | Send(stale: seq<byte>)
    | Erase
    | TakeNack                        // nackHandler's locked insert
    | Deliver(pk: Packet)
    | Drop(pk: Packet)
    | Duplicate(pk: Packet)
    | FillGap
    | EndGap
    | LeaveLoop                       // recvSize reached splitSize
    | CountDone                       // doneReceiveCount++

  const START: Lane := Lane(Sender(FirstPass, 0, {}, []), FRESH, multiset{}, 0, {})

  /** begin() of an ordered set. */
  ghost function Min(s: set<nat>): (m: nat)
    requires s != {}
    ensures m in s && forall x :: x in s ==> m <= x
  {
    var x :| x in s;
    if s == {x} then x
    else
      assert s == (s - {x}) + {x};
      var m := Min(s - {x});
      if x < m then x else m
  }

  lemma MinIs(s: set<nat>, m: nat)
    requires m in s && forall x :: x in s ==> m <= x
    ensures Min(s) == m
  {
  }

  predicate Parameters(p: Part) {
    12 <= p.d + 8 && p.d < TWO_32 && p.Len() < TWO_32
  }

  predicate Fits(p: Part, stale: seq<byte>) {
    |stale| == p.d + 8
  }

  /** What the receiver will decode from the message sent for `sendPtr`. */
  function OnWire(p: Part, sendPtr: nat, stale: seq<byte>): Datagram
    requires Parameters(p) && Fits(p, stale) && sendPtr < p.Len()
  {
    Decode(Encode(stale, sendPtr, p.bytes[sendPtr..sendPtr + SlotSize(p.d, p.Len(), sendPtr)]))
  }

  ghost predicate Enabled(p: Part, l: Lane, step: Step) {
    match step
    case SendFirst(stale) =>
      l.sender.pc == FirstPass && l.sender.sendPtr < p.Len() && Fits(p, stale) && Parameters(p)
    case EndFirst => l.sender.pc == FirstPass && l.sender.sendPtr >= p.Len()
    case SeeDone => l.sender.pc == CheckDone
    case SeeNotDone => l.sender.pc == CheckDone
    case SeeEmpty => l.sender.pc == CheckEmpty && l.sender.requests == {}
    case SeeNonempty => l.sender.pc == CheckEmpty && l.sender.requests != {}
    case Read => l.sender.pc == ReadBegin && l.sender.requests != {}
    case Send(stale) =>
      l.sender.pc == Resend && l.sender.sendPtr < p.Len() && Fits(p, stale) && Parameters(p)
    case Erase => l.sender.pc == EraseBegin && l.sender.requests != {}
    case TakeNack => l.handled < |l.receiver.nacked|
    case Deliver(pk) => pk in l.net && l.receiver.pc == Waiting && l.receiver.recvSize < p.Len()
    case Drop(pk) => pk in l.net
    case Duplicate(pk) => pk in l.net
    case FillGap => InGap(p, l.receiver)
    case EndGap => l.receiver.pc.Filling? && !InGap(p, l.receiver)
    case LeaveLoop => l.receiver.pc == Waiting && l.receiver.recvSize >= p.Len()
    case CountDone => l.receiver.pc == Counted
  }

  /** nackHandler's insert of one request. */
  function TakeRequest(l: Lane, seqNum: nat): Lane {
    l.(sender := l.sender.(requests := l.sender.requests + {seqNum}), handled := l.handled + 1)
  }

  ghost function Apply(p: Part, l: Lane, step: Step): Lane
    requires Enabled(p, l, step)
  {
    var s := l.sender;
    match step
    case SendFirst(stale) =>
      l.(sender := s.(sendPtr := s.sendPtr + SlotSize(p.d, p.Len(), s.sendPtr)),
         net := l.net + multiset{Packet(OnWire(p, s.sendPtr, stale), false)})
    case EndFirst => l.(sender := s.(pc := CheckDone))
    case SeeDone => l.(sender := s.(pc := Stopped))
    case SeeNotDone => l.(sender := s.(pc := CheckEmpty))
    case SeeEmpty => l.(sender := s.(pc := CheckDone))
    case SeeNonempty => l.(sender := s.(pc := ReadBegin))
    case Read => l.(sender := s.(pc := Resend, sendPtr := Min(s.requests)))
    case Send(stale) =>
      l.(sender := s.(pc := EraseBegin, resent := s.resent + [s.sendPtr]),
         net := l.net + multiset{Packet(OnWire(p, s.sendPtr, stale), true)})
    case Erase => l.(sender := s.(pc := CheckEmpty, requests := s.requests - {Min(s.requests)}))
    case TakeNack => TakeRequest(l, l.receiver.nacked[l.handled])
    case Deliver(pk) => l.(receiver := Arrive(p, l.receiver, pk.dg), net := l.net - multiset{pk})
    case Drop(pk) =>
      l.(net := l.net - multiset{pk}, lost := if pk.again then l.lost + {pk.dg.seqNum} else l.lost)
    case Duplicate(pk) => l.(net := l.net + multiset{pk})
    case FillGap => l.(receiver := NackNext(p, l.receiver))
    case EndGap => l.(receiver := FinishGap(l.receiver))
    case LeaveLoop => l.(receiver := l.receiver.(pc := Counted))
    case CountDone => l.(receiver := l.receiver.(pc := Finished))
  }

  // ----- what every step keeps -----

  /** The first NACK whose request has not been erased. */
  function Base(s: Sender): int {
    if s.pc == EraseBegin then |s.resent| - 1 else |s.resent|
  }

  predicate Served(s: Sender, nacked: seq<nat>, handled: nat) {
    && 0 <= Base(s) <= handled <= |nacked|
    && |s.resent| <= handled
    && s.resent == nacked[..|s.resent|]
  }

  ghost predicate Requests(s: Sender, nacked: seq<nat>, handled: nat) {
    && 0 <= Base(s) <= handled <= |nacked|
    && forall x: nat :: x in s.requests <==> x in nacked[Base(s)..handled]
  }

  predicate Control(p: Part, s: Sender, nacked: seq<nat>, handled: nat) {
    && (s.pc == FirstPass ==> s.resent == [] && (Aligned(p.d, s.sendPtr) || s.sendPtr >= p.Len()))
    && (s.pc == ReadBegin ==> Base(s) < handled)
    && (s.pc == Resend || s.pc == EraseBegin ==>
          0 <= Base(s) < handled <= |nacked| && s.sendPtr == nacked[Base(s)])
  }

  predicate InFlight(p: Part, net: multiset<Packet>, resent: seq<nat>) {
    forall pk :: pk in net ==> IsSlotDatagram(p, pk.dg) && (pk.again ==> pk.dg.seqNum in resent)
  }

  ghost predicate Retransmitted(net: multiset<Packet>, x: nat) {
    exists pk :: pk in net && pk.again && pk.dg.seqNum == x
  }

  /** A retransmitted offset that is still missed is in flight again, or the network lost it. */
  ghost predicate Tokens(net: multiset<Packet>, lost: set<nat>, resent: seq<nat>, missed: set<nat>) {
    forall x :: x in resent && x in missed ==> Retransmitted(net, x) || x in lost
  }

  ghost predicate LaneInv(p: Part, l: Lane) {
    && Inv(p, l.receiver)
    && Served(l.sender, l.receiver.nacked, l.handled)
    && Requests(l.sender, l.receiver.nacked, l.handled)
    && Control(p, l.sender, l.receiver.nacked, l.handled)
    && InFlight(p, l.net, l.sender.resent)
    && Tokens(l.net, l.lost, l.sender.resent, l.receiver.missed)
  }

  lemma StartInv(p: Part)
    ensures LaneInv(p, START)
  {
    FreshInv(p);
  }

  /** Everything sent for an offset is that offset's datagram, whatever the message buffer held. */
  lemma OneDatagramPerOffset(p: Part, sendPtr: nat, stale: seq<byte>)
    requires Parameters(p) && Fits(p, stale) && sendPtr < p.Len()
    ensures OnWire(p, sendPtr, stale) == SlotDatagram(p, sendPtr)
    ensures OnWire(p, sendPtr, stale).seqNum == sendPtr
  {
    hide Encode, Decode;
    HeaderRoundTrip(stale, sendPtr, p.bytes[sendPtr..sendPtr + SlotSize(p.d, p.Len(), sendPtr)]);
  }

  lemma NackedIncreasing(p: Part, r: Receiver)
    requires Inv(p, r)
    ensures Increasing(r.nacked)
    ensures forall x :: x in r.nacked ==> x < r.expected && IsSlot(p.d, p.Len(), x)
  {
  }

  /** Increasing requests make begin() the oldest one that has not been erased. */
  lemma BeginIsOldest(s: Sender, nacked: seq<nat>, handled: nat)
    requires Increasing(nacked) && Requests(s, nacked, handled) && Base(s) < handled
    ensures s.requests != {} && Min(s.requests) == nacked[Base(s)]
  {
    var window := nacked[Base(s)..handled];
    assert window[0] == nacked[Base(s)];
    assert window[0] in s.requests;
    MinIs(s.requests, window[0]);
  }

  lemma FirstService(p: Part, s: Sender, nacked: seq<nat>, handled: nat)
    requires s.pc == FirstPass && s.sendPtr < p.Len()
    requires Served(s, nacked, handled) && Requests(s, nacked, handled) && Control(p, s, nacked, handled)
    ensures IsSlot(p.d, p.Len(), s.sendPtr)
    ensures var s' := s.(sendPtr := s.sendPtr + SlotSize(p.d, p.Len(), s.sendPtr));
      Served(s', nacked, handled) && Requests(s', nacked, handled) && Control(p, s', nacked, handled)
  {
  }

  lemma SendFirstKeeps(p: Part, l: Lane, stale: seq<byte>)
    requires LaneInv(p, l) && Enabled(p, l, SendFirst(stale))
    ensures LaneInv(p, Apply(p, l, SendFirst(stale)))
  {
    hide OnWire, Inv, Served, Requests, Control, SlotDatagram;
    FirstService(p, l.sender, l.receiver.nacked, l.handled);
    OneDatagramPerOffset(p, l.sender.sendPtr, stale);
    MoreInFlight(l.net, Packet(OnWire(p, l.sender.sendPtr, stale), false), l.lost, l.sender.resent, l.receiver.missed);
  }

  lemma MoreInFlight(net: multiset<Packet>, pk: Packet, lost: set<nat>, resent: seq<nat>, missed: set<nat>)
    requires Tokens(net, lost, resent, missed)
    ensures Tokens(net + multiset{pk}, lost, resent, missed)
    ensures pk.again ==> Retransmitted(net + multiset{pk}, pk.dg.seqNum)
  {
    var net' := net + multiset{pk};
    assert pk in net';
    forall y | Retransmitted(net, y) ensures Retransmitted(net', y) {
      var other :| other in net && other.again && other.dg.seqNum == y;
      assert other in net';
    }
  }

  lemma ResendService(p: Part, s: Sender, nacked: seq<nat>, handled: nat)
    requires s.pc == Resend
    requires Served(s, nacked, handled) && Requests(s, nacked, handled) && Control(p, s, nacked, handled)
    ensures s.sendPtr in nacked
    ensures var s' := s.(pc := EraseBegin, resent := s.resent + [s.sendPtr]);
      Served(s', nacked, handled) && Requests(s', nacked, handled) && Control(p, s', nacked, handled)
  {
  }

  lemma SendKeeps(p: Part, l: Lane, stale: seq<byte>)
    requires LaneInv(p, l) && Enabled(p, l, Send(stale))
    ensures LaneInv(p, Apply(p, l, Send(stale)))
  {
    hide OnWire, Inv, Served, Requests, Control, SlotDatagram;
    var s, nacked := l.sender, l.receiver.nacked;
    NackedIncreasing(p, l.receiver);
    ResendService(p, s, nacked, l.handled);
    OneDatagramPerOffset(p, s.sendPtr, stale);
    MoreInFlight(l.net, Packet(OnWire(p, s.sendPtr, stale), true), l.lost, s.resent, l.receiver.missed);
  }

  lemma ReadKeeps(p: Part, l: Lane)
    requires LaneInv(p, l) && Enabled(p, l, Read)
    ensures LaneInv(p, Apply(p, l, Read))
  {
    NackedIncreasing(p, l.receiver);
    BeginIsOldest(l.sender, l.receiver.nacked, l.handled);
    hide OnWire, Inv, IsSlotDatagram;
  }

  /** Between the unlocked read and the locked erase the handler may have inserted: begin() is
      still the element that was read and sent. */
  lemma EraseRemovesWhatWasSent(p: Part, l: Lane)
    requires LaneInv(p, l) && l.sender.pc == EraseBegin
    ensures l.sender.requests != {} && Min(l.sender.requests) == l.sender.sendPtr
    ensures l.sender.resent != [] && l.sender.resent[|l.sender.resent| - 1] == l.sender.sendPtr
  {
    NackedIncreasing(p, l.receiver);
    BeginIsOldest(l.sender, l.receiver.nacked, l.handled);
  }

  lemma EraseService(p: Part, s: Sender, nacked: seq<nat>, handled: nat)
    requires s.pc == EraseBegin && Increasing(nacked)
    requires Served(s, nacked, handled) && Requests(s, nacked, handled) && Control(p, s, nacked, handled)
    ensures var s' := s.(pc := CheckEmpty, requests := s.requests - {s.sendPtr});
      Served(s', nacked, handled) && Requests(s', nacked, handled) && Control(p, s', nacked, handled)
  {
    var b := Base(s);
    assert nacked[b..handled] == [nacked[b]] + nacked[b + 1..handled];
    assert nacked[b] !in nacked[b + 1..handled];
  }

  lemma EraseKeeps(p: Part, l: Lane)
    requires LaneInv(p, l) && Enabled(p, l, Erase)
    ensures LaneInv(p, Apply(p, l, Erase))
  {
    hide OnWire, Inv, Served, Requests, Control, InFlight, Tokens;
    NackedIncreasing(p, l.receiver);
    EraseRemovesWhatWasSent(p, l);
    EraseService(p, l.sender, l.receiver.nacked, l.handled);
  }

  lemma TakeNackService(p: Part, s: Sender, nacked: seq<nat>, handled: nat)
    requires handled < |nacked|
    requires Served(s, nacked, handled) && Requests(s, nacked, handled) && Control(p, s, nacked, handled)
    ensures var s' := s.(requests := s.requests + {nacked[handled]});
      Served(s', nacked, handled + 1) && Requests(s', nacked, handled + 1) && Control(p, s', nacked, handled + 1)
  {
    var b := Base(s);
    assert nacked[b..handled + 1] == nacked[b..handled] + [nacked[handled]];
  }

  lemma TakeNackKeeps(p: Part, l: Lane)
    requires LaneInv(p, l) && Enabled(p, l, TakeNack)
    ensures LaneInv(p, Apply(p, l, TakeNack))
  {
    hide OnWire, Inv, Served, Requests, Control, InFlight, Tokens;
    TakeNackService(p, l.sender, l.receiver.nacked, l.handled);
  }

  /** An arrival only shrinks the missed set; a late one takes its own offset out. */
  lemma ArriveMissed(p: Part, r: Receiver, dg: Datagram)
    ensures var r' := Arrive(p, r, dg);
      && r'.nacked == r.nacked
      && r'.missed <= r.missed
      && (dg.seqNum < r.expected ==> dg.seqNum !in r'.missed)
  {
  }

  /** A packet may leave the network if its offset is accounted for. */
  lemma FewerInFlight(net: multiset<Packet>, pk: Packet, lost: set<nat>, resent: seq<nat>,
                      missed: set<nat>, lost': set<nat>, missed': set<nat>)
    requires Tokens(net, lost, resent, missed) && pk in net
    requires missed' <= missed && lost <= lost'
    requires pk.again ==> pk.dg.seqNum in lost' || pk.dg.seqNum !in missed'
    ensures Tokens(net - multiset{pk}, lost', resent, missed')
  {
    var net' := net - multiset{pk};
    forall x | x in resent && x in missed' ensures Retransmitted(net', x) || x in lost' {
      if Retransmitted(net, x) {
        var other :| other in net && other.again && other.dg.seqNum == x;
        if other != pk { assert other in net'; }
      }
    }
  }

  lemma ResentAreNacked(s: Sender, nacked: seq<nat>, handled: nat)
    requires Served(s, nacked, handled)
    ensures forall x :: x in s.resent ==> x in nacked
  {
  }

  lemma DeliverKeeps(p: Part, l: Lane, pk: Packet)
    requires LaneInv(p, l) && Enabled(p, l, Deliver(pk))
    ensures LaneInv(p, Apply(p, l, Deliver(pk)))
  {
    hide OnWire, Inv, Arrive, SlotDatagram, Tokens, Served, Requests, Control;
    var r := l.receiver;
    NackedIncreasing(p, r);
    ArriveMissed(p, r, pk.dg);
    ArriveKeeps(p, r, pk.dg);
    ResentAreNacked(l.sender, r.nacked, l.handled);
    FewerInFlight(l.net, pk, l.lost, l.sender.resent, r.missed, l.lost, Arrive(p, r, pk.dg).missed);
  }

  lemma DropKeeps(p: Part, l: Lane, pk: Packet)
    requires LaneInv(p, l) && Enabled(p, l, Drop(pk))
    ensures LaneInv(p, Apply(p, l, Drop(pk)))
  {
    hide OnWire, Inv, IsSlotDatagram, Tokens, Served, Requests, Control;
    FewerInFlight(l.net, pk, l.lost, l.sender.resent, l.receiver.missed,
      Apply(p, l, Drop(pk)).lost, l.receiver.missed);
  }

  lemma DuplicateKeeps(p: Part, l: Lane, pk: Packet)
    requires LaneInv(p, l) && Enabled(p, l, Duplicate(pk))
    ensures LaneInv(p, Apply(p, l, Duplicate(pk)))
  {
    hide OnWire, Inv, IsSlotDatagram, Tokens, Served, Requests, Control;
    MoreInFlight(l.net, pk, l.lost, l.sender.resent, l.receiver.missed);
  }

  lemma ExtendNacked(p: Part, s: Sender, nacked: seq<nat>, more: seq<nat>, handled: nat)
    requires Served(s, nacked, handled) && Requests(s, nacked, handled) && Control(p, s, nacked, handled)
    ensures Served(s, nacked + more, handled) && Requests(s, nacked + more, handled)
    ensures Control(p, s, nacked + more, handled)
  {
    assert (nacked + more)[Base(s)..handled] == nacked[Base(s)..handled];
    assert (nacked + more)[..|s.resent|] == nacked[..|s.resent|];
  }

  lemma FillGapKeeps(p: Part, l: Lane)
    requires LaneInv(p, l) && Enabled(p, l, FillGap)
    ensures LaneInv(p, Apply(p, l, FillGap))
  {
    var r := l.receiver;
    NackedIncreasing(p, r);
    NackNextKeeps(p, r);
    ExtendNacked(p, l.sender, r.nacked, [r.expected], l.handled);
    assert forall x :: x in l.sender.resent ==> x in r.nacked;
    hide OnWire, Inv, InFlight, Served, Requests, Control;
  }

  lemma EndGapKeeps(p: Part, l: Lane)
    requires LaneInv(p, l) && Enabled(p, l, EndGap)
    ensures LaneInv(p, Apply(p, l, EndGap))
  {
    hide OnWire, Inv, InFlight, Served, Requests, Control;
    FinishKeeps(p, l.receiver);
  }

  lemma LeaveKeeps(p: Part, r: Receiver, pc: Pc)
    requires Inv(p, r) && !r.pc.Filling? && !pc.Filling?
    ensures Inv(p, r.(pc := pc))
  {
    var r' := r.(pc := pc);
    forall x ensures SteppedOver(p, r', x) == SteppedOver(p, r, x) {
    }
    if r.log != [] {
      var h: nat :| EndOfHighest(p, r, h);
      assert EndOfHighest(p, r', h);
    }
  }

  lemma LeaveLoopKeeps(p: Part, l: Lane, step: Step)
    requires LaneInv(p, l) && step in {LeaveLoop, CountDone} && Enabled(p, l, step)
    ensures LaneInv(p, Apply(p, l, step))
  {
    hide OnWire, Inv, InFlight, Served, Requests, Control, Tokens;
    LeaveKeeps(p, l.receiver, if step == LeaveLoop then Counted else Finished);
  }

  /** The steps that move only the sender's program counter. */
  lemma ControlKeeps(p: Part, l: Lane, step: Step)
    requires LaneInv(p, l) && Enabled(p, l, step)
    requires step in {EndFirst, SeeDone, SeeNotDone, SeeEmpty, SeeNonempty}
    ensures LaneInv(p, Apply(p, l, step))
  {
    hide OnWire, Inv, InFlight, Tokens;
  }

  /** Each step of a lane keeps the whole invariant. */
  lemma StepKeeps(p: Part, l: Lane, step: Step)
    requires LaneInv(p, l) && Enabled(p, l, step)
    ensures LaneInv(p, Apply(p, l, step))
  {
    hide OnWire, LaneInv, Apply;
    match step
    case SendFirst(stale) => SendFirstKeeps(p, l, stale);
    case Send(stale) => SendKeeps(p, l, stale);
    case Read => ReadKeeps(p, l);
    case Erase => EraseKeeps(p, l);
    case TakeNack => TakeNackKeeps(p, l);
    case Deliver(pk) => DeliverKeeps(p, l, pk);
    case Drop(pk) => DropKeeps(p, l, pk);
    case Duplicate(pk) => DuplicateKeeps(p, l, pk);
    case FillGap => FillGapKeeps(p, l);
    case EndGap => EndGapKeeps(p, l);
    case LeaveLoop => LeaveLoopKeeps(p, l, step);
    case CountDone => LeaveLoopKeeps(p, l, step);
    case _ => ControlKeeps(p, l, step);
  }
}
