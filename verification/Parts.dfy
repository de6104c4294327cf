// receiveUdp and sendUdp as the threads run them, proved against the step functions.
module Parts {
  import opened Bytes
  import opened Slots
  import opened Wire
  import opened Receiving
  import opened Lanes
  import opened Deliveries

  class PartReceiver {
    ghost const part: Part      // the part being sent, which the receiver does not know
    const dgramSize: nat
    const gap: GapGuard
    const counting: Counting
    const splitSize: nat
    const exactLocation: nat
    const file: array<byte>
    var expectedSeqNum: nat
    var missedSeqReceiver: set<nat>
    var recvSize: nat
    var nacks: seq<nat>         // the offsets handed to sendNack
    var log: seq<nat>           // the offsets copied
    ghost var openers: set<nat>

    constructor (ghost part: Part, dgramSize: nat, gap: GapGuard, counting: Counting,
                 splitSize: nat, exactLocation: nat, file: array<byte>)
      requires part.d == dgramSize && part.gap == gap && part.counting == counting
      requires part.Len() == splitSize
      ensures this.part == part && this.exactLocation == exactLocation && this.file == file
      ensures Configured() && Model() == FRESH
    {
      this.part, this.dgramSize, this.gap, this.counting := part, dgramSize, gap, counting;
      this.splitSize, this.exactLocation, this.file := splitSize, exactLocation, file;
      expectedSeqNum, missedSeqReceiver, recvSize, nacks, log := 0, {}, 0, [], [];
      openers := {};
    }

    ghost predicate Configured() {
      && part.d == dgramSize && part.gap == gap && part.counting == counting
      && part.Len() == splitSize
    }

    ghost function Model(): Receiver
      reads this
    {
      Receiver(expectedSeqNum, missedSeqReceiver, recvSize, Waiting, log, openers, nacks)
    }

    predicate InBounds(dg: Datagram) {
      |dg.payload| == dg.size && exactLocation + dg.seqNum + dg.size <= file.Length
    }

    /** The gap loop: NACK expectedSeqNum and stride on until it has reached the arrival. */
    method FillGap(seqNum: nat, ghost dg: Datagram)
      requires Configured() && dg.seqNum == seqNum
      modifies this`expectedSeqNum, this`missedSeqReceiver, this`nacks
      ensures FinishGap(Model().(pc := Filling(dg))) == Settle(part, old(Model()).(pc := Filling(dg)))
    {
      ghost var start := Model().(pc := Filling(dg));
      while expectedSeqNum < seqNum || (gap == AsWritten && expectedSeqNum == seqNum)
        invariant Settle(part, Model().(pc := Filling(dg))) == Settle(part, start)
        decreases if expectedSeqNum <= seqNum then seqNum - expectedSeqNum + 1 else 0
      {
        missedSeqReceiver := missedSeqReceiver + {expectedSeqNum};
        nacks := nacks + [expectedSeqNum];
        expectedSeqNum := expectedSeqNum + dgramSize;
      }
    }

    /** One iteration of the receive loop, for the message that recvfrom returned. */
    method Receive(msg: seq<byte>)
      requires Configured() && |msg| >= 12 && InBounds(Decode(msg))
      modifies this, file
      ensures Model() == Absorb(part, old(Model()), Decode(msg))
      ensures file[..] == Overwrite(old(file[..]), exactLocation + Decode(msg).seqNum, Decode(msg).payload)
    {
      hide Decode;
      var dg := Decode(msg);
      var seqNum, recvDataSize := dg.seqNum, dg.size;
      if counting == EveryArrival || seqNum !in log {
        recvSize := recvSize + recvDataSize;
      }
      if expectedSeqNum == seqNum {
        expectedSeqNum := expectedSeqNum + recvDataSize;
        missedSeqReceiver := missedSeqReceiver - {expectedSeqNum};
      } else if expectedSeqNum > seqNum {
        missedSeqReceiver := missedSeqReceiver - {seqNum};
      } else {
        openers := openers + {seqNum};
        FillGap(seqNum, dg);
        missedSeqReceiver := missedSeqReceiver - {seqNum};
        expectedSeqNum := expectedSeqNum + recvDataSize;
      }
      log := log + [seqNum];
      Memcpy(file, exactLocation + seqNum, dg.payload);
    }

    /** The receiver after the first n messages, and the buffer they were copied into. */
    ghost predicate After(arrivals: seq<seq<byte>>, n: nat, before: seq<byte>)
      requires n <= |arrivals| && Messages(arrivals)
      reads this, file
    {
      && Configured() && exactLocation + splitSize <= file.Length == |before|
      && AllSlotDatagrams(part, Decoded(arrivals, n))
      && Model() == AbsorbAll(part, FRESH, Decoded(arrivals, n))
      && file[..] == CopyAll(part, before, exactLocation, Decoded(arrivals, n))
    }

    method ReceiveNext(arrivals: seq<seq<byte>>, n: nat, ghost before: seq<byte>)
      requires n < |arrivals| && Messages(arrivals) && After(arrivals, n, before)
      requires IsSlotDatagram(part, Decode(arrivals[n]))
      modifies this, file
      ensures After(arrivals, n + 1, before)
      ensures AbsorbAll(part, FRESH, Decoded(arrivals, n)).recvSize == old(recvSize)
    {
      hide Decode, Absorb, AbsorbAll, CopyAll, Overwrite, IsSlotDatagram;
      var msg := arrivals[n];
      SlotInBounds(part, Decode(msg));
      AbsorbNext(part, Decoded(arrivals, n), Decode(msg));
      CopyNext(part, before, exactLocation, Decoded(arrivals, n), Decode(msg));
      Receive(msg);
    }

    lemma AfterNothing(arrivals: seq<seq<byte>>)
      requires Configured() && Model() == FRESH && exactLocation + splitSize <= file.Length && Messages(arrivals)
      ensures After(arrivals, 0, file[..])
    {
    }

    lemma AfterAll(arrivals: seq<seq<byte>>, n: nat, before: seq<byte>)
      requires n <= |arrivals| && Messages(arrivals) && After(arrivals, n, before)
      requires recvSize >= splitSize && (counting == FreshOnly || Distinct(log))
      ensures file[..] == Overwrite(before, exactLocation, part.bytes)
    {
      hide AbsorbAll, CopyAll, Decoded, AllSlotDatagrams, Distinct;
      StopsWithThePart(part, before, exactLocation, Decoded(arrivals, n));
    }

    /** receiveUdp's loop over the messages that arrive, until recvSize reaches splitSize. If it
        has, and nothing it counted arrived twice, the part is in its place in the file and the
        rest of the file is as it was. */
    method ReceiveLoop(arrivals: seq<seq<byte>>) returns (used: nat)
      requires Configured() && Model() == FRESH && exactLocation + splitSize <= file.Length
      requires Messages(arrivals)
      requires forall j :: 0 <= j < |arrivals| ==> IsSlotDatagram(part, Decode(arrivals[j]))
      modifies this, file
      ensures used <= |arrivals| && After(arrivals, used, old(file[..]))
      ensures used < |arrivals| ==> recvSize >= splitSize
      ensures used > 0 ==> AbsorbAll(part, FRESH, Decoded(arrivals, used - 1)).recvSize < splitSize
      ensures recvSize >= splitSize && (counting == FreshOnly || Distinct(log)) ==>
        file[..] == Overwrite(old(file[..]), exactLocation, part.bytes)
    {
      hide After, AbsorbAll, IsSlotDatagram, Decoded, Decode, Model, CopyAll, Distinct;
      used := 0;
      ghost var before := file[..];
      AfterNothing(arrivals);
      while recvSize < splitSize && used < |arrivals|
        invariant used <= |arrivals| && After(arrivals, used, before)
        invariant used > 0 ==> AbsorbAll(part, FRESH, Decoded(arrivals, used - 1)).recvSize < splitSize
        decreases |arrivals| - used
      {
        hide After, AbsorbAll, IsSlotDatagram, Decoded, Decode, Model, CopyAll;
        ReceiveNext(arrivals, used, before);
        used := used + 1;
      }
      if recvSize >= splitSize && (counting == FreshOnly || Distinct(log)) {
        AfterAll(arrivals, used, before);
      }
    }
  }

  lemma SlotInBounds(p: Part, dg: Datagram)
    requires IsSlotDatagram(p, dg)
    ensures |dg.payload| == dg.size && dg.seqNum + dg.size <= p.Len()
  {
  }

  predicate Messages(msgs: seq<seq<byte>>) {
    forall j :: 0 <= j < |msgs| ==> |msgs[j]| >= 12
  }

  /** The datagrams in the first n messages. */
  function Decoded(msgs: seq<seq<byte>>, n: nat): (dgs: seq<Datagram>)
    requires n <= |msgs| && Messages(msgs)
    ensures |dgs| == n
  {
    if n == 0 then [] else Decoded(msgs, n - 1) + [Decode(msgs[n - 1])]
  }

  // ----- sendUdp -----

  /** The offsets of the first pass from `at` on. */
  function SlotsFrom(d: pos, len: nat, at: nat): (q: seq<nat>)
    ensures forall j :: 0 <= j < |q| ==> q[j] < len
    decreases if at < len then len - at else 0
  {
    if at >= len then [] else [at] + SlotsFrom(d, len, at + d)
  }

  function Payloads(p: Part, offsets: seq<nat>): (bytes: seq<byte>)
    requires forall j :: 0 <= j < |offsets| ==> offsets[j] < p.Len()
  {
    if offsets == [] then [] else SlotDatagram(p, offsets[0]).payload + Payloads(p, offsets[1..])
  }

  lemma {:induction false} PayloadsFrom(p: Part, at: nat)
    ensures Payloads(p, SlotsFrom(p.d, p.Len(), at)) == if at < p.Len() then p.bytes[at..] else []
    decreases if at < p.Len() then p.Len() - at else 0
  {
    if at < p.Len() {
      PayloadsFrom(p, at + p.d);
      var rest := SlotsFrom(p.d, p.Len(), at + p.d);
      assert SlotsFrom(p.d, p.Len(), at) == [at] + rest;
      assert ([at] + rest)[1..] == rest;
    }
  }

  lemma {:induction false} SlotsFromIncrease(d: pos, len: nat, at: nat)
    ensures Increasing(SlotsFrom(d, len, at))
    ensures forall y :: y in SlotsFrom(d, len, at) ==> y >= at
    decreases if at < len then len - at else 0
  {
    if at < len {
      SlotsFromIncrease(d, len, at + d);
      var rest := SlotsFrom(d, len, at + d);
      assert forall j :: 0 <= j < |rest| ==> rest[j] in rest;
    }
  }

  lemma {:induction false} SlotsFromAre(d: pos, len: nat, at: nat, x: nat)
    requires Aligned(d, at)
    ensures x in SlotsFrom(d, len, at) <==> IsSlot(d, len, x) && x >= at
    decreases if at < len then len - at else 0
  {
    if at < len {
      SlotsFromAre(d, len, at + d, x);
      if IsSlot(d, len, x) && x > at { SlotsApart(d, at, x); }
    }
  }

  lemma NextOffset(d: pos, len: nat, offsets: seq<nat>, at: nat)
    requires IsSlot(d, len, at)
    ensures var next := at + SlotSize(d, len, at);
      && (Aligned(d, next) || next >= len)
      && offsets + SlotsFrom(d, len, at) == (offsets + [at]) + SlotsFrom(d, len, next)
  {
    var rest := SlotsFrom(d, len, at + d);
    assert offsets + ([at] + rest) == (offsets + [at]) + rest;
  }

  lemma {:induction false} SlotsFromCount(d: pos, len: nat, at: nat)
    ensures at < len ==> len - at <= |SlotsFrom(d, len, at)| * d < len - at + d
    ensures at >= len ==> |SlotsFrom(d, len, at)| == 0
    decreases if at < len then len - at else 0
  {
    if at < len {
      SlotsFromCount(d, len, at + d);
      var n := |SlotsFrom(d, len, at + d)|;
      assert (n + 1) * d == n * d + d;
    }
  }

  /** The first pass sends the slots in order, ceil(len / d) of them, and their payloads
      concatenate to the whole part. */
  lemma FirstPassCovers(p: Part)
    ensures var offsets := SlotsFrom(p.d, p.Len(), 0);
      && Payloads(p, offsets) == p.bytes
      && Increasing(offsets)
      && (forall x: nat :: x in offsets <==> IsSlot(p.d, p.Len(), x))
      && p.Len() <= |offsets| * p.d < p.Len() + p.d
  {
    PayloadsFrom(p, 0);
    SlotsFromCount(p.d, p.Len(), 0);
    forall x: nat ensures x in SlotsFrom(p.d, p.Len(), 0) <==> IsSlot(p.d, p.Len(), x) {
      SlotsFromAre(p.d, p.Len(), 0, x);
    }
    SlotsFromIncrease(p.d, p.Len(), 0);
  }

  /** The messages sent carry the datagrams of the slots `offsets`, in that order. */
  ghost predicate SentAre(p: Part, sent: seq<seq<byte>>, offsets: seq<nat>) {
    && |sent| == |offsets|
    && (forall j :: 0 <= j < |sent| ==> |sent[j]| == p.d + 8 >= 12)
    && (forall j :: 0 <= j < |offsets| ==> IsSlot(p.d, p.Len(), offsets[j]))
    && (forall j :: 0 <= j < |sent| ==> Decode(sent[j]) == SlotDatagram(p, offsets[j]))
  }

  lemma SentOne(p: Part, sent: seq<seq<byte>>, offsets: seq<nat>, m: seq<byte>, x: nat)
    requires SentAre(p, sent, offsets)
    requires IsSlot(p.d, p.Len(), x) && |m| == p.d + 8 >= 12 && Decode(m) == SlotDatagram(p, x)
    ensures SentAre(p, sent + [m], offsets + [x])
  {
    hide Decode, SlotDatagram, IsSlot;
  }

  /** `order` lists, in ascending order, the requests served so far. */
  predicate Serving(all: set<nat>, order: seq<nat>, requests: set<nat>) {
    && requests <= all && Increasing(order)
    && (forall x :: x in order ==> x in all && x !in requests)
    && (forall x :: x in all ==> x in order || x in requests)
    && (forall x, y :: x in order && y in requests ==> x < y)
  }

  lemma ServeLeast(all: set<nat>, order: seq<nat>, requests: set<nat>, x: nat)
    requires Serving(all, order, requests) && x in requests && forall y :: y in requests ==> x <= y
    ensures Serving(all, order + [x], requests - {x})
  {
    IncreasingAppend(order, x);
    assert forall y :: y in order + [x] <==> y in order || y == x;
  }

  /** What has been requested once the handler has made its first n inserts. */
  function Requested(start: set<nat>, inserts: seq<set<nat>>, n: nat): (all: set<nat>) {
    if n == 0 then start
    else Requested(start, inserts, n - 1) + if n <= |inserts| then inserts[n - 1] else {}
  }

  /** Each insert lies above everything requested before it. */
  predicate Ascending(start: set<nat>, inserts: seq<set<nat>>) {
    forall j, x, y :: 0 <= j < |inserts| && x in inserts[j] && y in Requested(start, inserts, j) ==> y < x
  }

  lemma InsertsAreLater(start: set<nat>, inserts: seq<set<nat>>, j: nat)
    requires Ascending(start, inserts)
    ensures Requested(start, inserts, j + 1)
         == Requested(start, inserts, j) + if j < |inserts| then inserts[j] else {}
    ensures j < |inserts| ==> forall x, y :: x in inserts[j] && y in Requested(start, inserts, j) ==> y < x
  {
  }

  lemma {:induction false} RequestedSlots(p: Part, start: set<nat>, inserts: seq<set<nat>>, n: nat)
    requires forall x :: x in start ==> IsSlot(p.d, p.Len(), x)
    requires forall j, x :: 0 <= j < |inserts| && x in inserts[j] ==> IsSlot(p.d, p.Len(), x)
    ensures forall x :: x in Requested(start, inserts, n) ==> IsSlot(p.d, p.Len(), x)
  {
    if n > 0 { RequestedSlots(p, start, inserts, n - 1); }
  }

  lemma ServingStarts(p: Part, start: set<nat>, inserts: seq<set<nat>>)
    ensures Serving(Requested(start, inserts, 0), [], start) && SentAre(p, [], [])
  {
  }

  lemma ServingEnds(all: set<nat>, order: seq<nat>)
    requires Serving(all, order, {})
    ensures Increasing(order) && forall x :: x in order <==> x in all
  {
  }

  lemma ServingIsRequested(all: set<nat>, order: seq<nat>, requests: set<nat>)
    requires Serving(all, order, requests)
    ensures requests <= all
  {
  }

  lemma ServingMore(all: set<nat>, order: seq<nat>, requests: set<nat>, more: set<nat>)
    requires Serving(all, order, requests) && forall x, y :: x in more && y in all ==> y < x
    ensures Serving(all + more, order, requests + more)
  {
  }

  lemma SliceOfSlice(s: seq<byte>, start: nat, len: nat, at: nat, n: nat)
    requires at + n <= len && start + len <= |s|
    ensures s[start..start + len][at..at + n] == s[start + at..start + at + n]
  {
    var whole := s[start..start + len];
    var a, b := whole[at..at + n], s[start + at..start + at + n];
    forall j | 0 <= j < n ensures a[j] == b[j] {
      assert a[j] == whole[at + j];
    }
  }

  class PartSender {
    ghost const part: Part     // the part of the file that starts at exactStart
    const dgramSize: nat
    const splitSize: nat
    const exactStart: nat
    const file: seq<byte>
    const msg: array<byte>     // one buffer, reused for every datagram
    var sendPtr: nat
    var missedSeqSender: set<nat>

    constructor (ghost part: Part, dgramSize: nat, splitSize: nat, exactStart: nat, file: seq<byte>, msg: array<byte>)
      requires Parameters(part) && part.d == dgramSize && part.Len() == splitSize
      requires exactStart + splitSize <= |file| && part.bytes == file[exactStart..exactStart + splitSize]
      requires msg.Length == dgramSize + 8
      ensures this.part == part && this.file == file && this.msg == msg
      ensures Ready() && sendPtr == 0 && missedSeqSender == {}
    {
      this.part, this.dgramSize, this.splitSize, this.exactStart := part, dgramSize, splitSize, exactStart;
      this.file, this.msg := file, msg;
      sendPtr, missedSeqSender := 0, {};
    }

    ghost predicate Ready() {
      && Parameters(part) && part.d == dgramSize && part.Len() == splitSize
      && exactStart + splitSize <= |file| && part.bytes == file[exactStart..exactStart + splitSize]
      && msg.Length == dgramSize + 8
    }

    /** The body both loops share: fill the message for sendPtr and send all of it. */
    method SendOne() returns (sent: seq<byte>, sendSize: nat)
      requires Ready() && IsSlot(part.d, part.Len(), sendPtr)
      modifies msg
      ensures |sent| == part.d + 8 && Decode(sent) == SlotDatagram(part, sendPtr)
      ensures sendSize == SlotSize(part.d, part.Len(), sendPtr)
    {
      hide Encode, Decode, BigEndian;
      if splitSize - sendPtr < dgramSize {
        sendSize := splitSize - sendPtr;
      } else {
        sendSize := dgramSize;
      }
      var from := exactStart + sendPtr;
      SliceOfSlice(file, exactStart, splitSize, sendPtr, sendSize);
      FillMessage(msg, sendPtr, file[from..from + sendSize]);
      sent := msg[..];
    }

    method FirstPass() returns (sent: seq<seq<byte>>)
      requires Ready() && sendPtr == 0
      modifies this`sendPtr, msg
      ensures SentAre(part, sent, SlotsFrom(part.d, part.Len(), 0))
      ensures sendPtr >= part.Len()
    {
      sent := [];
      ghost var offsets: seq<nat> := [];
      while sendPtr < splitSize
        invariant Aligned(part.d, sendPtr) || sendPtr >= part.Len()
        invariant SentAre(part, sent, offsets)
        invariant offsets + SlotsFrom(part.d, part.Len(), sendPtr) == SlotsFrom(part.d, part.Len(), 0)
        decreases splitSize - sendPtr
      {
        hide Decode, SlotDatagram, SentAre, SlotsFrom, Aligned;
        NextOffset(part.d, part.Len(), offsets, sendPtr);
        var m, sendSize := SendOne();
        SentOne(part, sent, offsets, m, sendPtr);
        sent := sent + [m];
        offsets := offsets + [sendPtr];
        sendPtr := sendPtr + sendSize;
      }
    }

    /** One round of the resend loop: the unlocked read of begin(), the send, what the handler
        inserts meanwhile, and the locked erase of begin(). */
    method ServeOne(inserted: set<nat>, ghost all: set<nat>, ghost order: seq<nat>)
      returns (m: seq<byte>, ghost served: nat)
      requires Ready() && missedSeqSender != {} && Serving(all, order, missedSeqSender)
      requires forall x :: x in missedSeqSender ==> IsSlot(part.d, part.Len(), x)
      requires forall x, y :: x in inserted && y in all ==> y < x
      modifies this, msg
      ensures served in old(missedSeqSender) && missedSeqSender == old(missedSeqSender) + inserted - {served}
      ensures Serving(all + inserted, order + [served], missedSeqSender)
      ensures IsSlot(part.d, part.Len(), served) && |m| == part.d + 8 >= 12 && Decode(m) == SlotDatagram(part, served)
      ensures inserted == {} ==> |missedSeqSender| < |old(missedSeqSender)|
    {
      hide Decode, SlotDatagram, IsSlot;
      var begin := LeastOf(missedSeqSender);
      sendPtr, served := begin, begin;
      var sendSize;
      m, sendSize := SendOne();
      ServingMore(all, order, missedSeqSender, inserted);
      missedSeqSender := missedSeqSender + inserted;
      var erased := LeastOf(missedSeqSender);
      assert erased == begin;
      ServeLeast(all + inserted, order, missedSeqSender, erased);
      missedSeqSender := missedSeqSender - {erased};
    }

    /** The inner resend loop, when the handler inserts the NACKs `inserts[j]` during round j. As
        those come in increasing order, each round erases what it sent: every request that is in
        the set at the start or comes in while the loop runs is sent, each once and in ascending
        order. */
    method ServeRequests(inserts: seq<set<nat>>) returns (sent: seq<seq<byte>>, ghost order: seq<nat>)
      requires Ready() && Ascending(missedSeqSender, inserts)
      requires forall x :: x in missedSeqSender ==> IsSlot(part.d, part.Len(), x)
      requires forall j, x :: 0 <= j < |inserts| && x in inserts[j] ==> IsSlot(part.d, part.Len(), x)
      modifies this, msg
      ensures missedSeqSender == {}
      ensures SentAre(part, sent, order) && Increasing(order)
      ensures forall x :: x in order <==> x in Requested(old(missedSeqSender), inserts, |order|)
    {
      hide Decode, SlotDatagram, SentAre, IsSlot, Ascending, Ready, Serving, Requested, Increasing;
      sent, order := [], [];
      ghost var start := missedSeqSender;
      var round := 0;
      ServingStarts(part, start, inserts);
      while missedSeqSender != {}
        invariant SentAre(part, sent, order) && round == |order|
        invariant Serving(Requested(start, inserts, round), order, missedSeqSender)
        decreases if round < |inserts| then |inserts| - round else 0, |missedSeqSender|
      {
        hide Decode, SlotDatagram, SentAre, IsSlot, Ascending, Ready, Serving, Requested;
        ghost var all := Requested(start, inserts, round);
        var inserted := if round < |inserts| then inserts[round] else {};
        RequestedSlots(part, start, inserts, round);
        ServingIsRequested(all, order, missedSeqSender);
        InsertsAreLater(start, inserts, round);
        var m, served := ServeOne(inserted, all, order);
        SentOne(part, sent, order, m, served);
        sent := sent + [m];
        order := order + [served];
        round := round + 1;
      }
      ServingEnds(Requested(start, inserts, round), order);
    }
  }

  /** *begin() of the ordered set. */
  method LeastOf(s: set<nat>) returns (m: nat)
    requires s != {}
    ensures m in s && forall x :: x in s ==> m <= x
  {
    ghost var least := Min(s);
    m :| m in s && forall x :: x in s ==> m <= x;
  }
}
