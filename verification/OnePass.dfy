// The earlier server: one pass, gaps recorded in one set shared by all parts under nackLock,
// and a receive loop that ends at the high-water mark.
module OnePass {
  import opened Bytes
  import opened Slots
  import opened Wire

  datatype Miss = Miss(idx: nat, seqNum: nat)

  /** The stride of the gap loop: the size of the datagram that revealed the gap as written,
      DGRAM_SIZE when repaired. */
  datatype Stride = ByArrival | ByDatagramSize

  datatype Params = Params(d: pos, lens: seq<nat>, stride: Stride)

  datatype Pc = Waiting | Filling(seqNum: nat, size: nat)

  /** `log` lists the offsets copied, `openers` those that revealed a gap. */
  datatype Thread = Thread(expected: nat, pc: Pc, log: seq<nat>, openers: set<nat>)

  /** missedDataSet and missedDataPtr are shared; `strays` counts the erases that found nothing. */
  datatype Server = Server(threads: seq<Thread>, missedDataSet: set<Miss>, missedDataPtr: int, strays: nat)

  datatype Step = Arrive(i: nat, s: nat) | Fill(i: nat) | Finish(i: nat)

  function Boot(c: Params): Server {
    Server(seq(|c.lens|, _ => Thread(0, Waiting, [], {})), {}, 0, 0)
  }

  predicate CanStep(c: Params, v: Server, step: Step) {
    step.i < |c.lens| == |v.threads| &&
    var t := v.threads[step.i];
    match step
    case Arrive(i, s) => t.pc == Waiting && t.expected < c.lens[i] && IsSlot(c.d, c.lens[i], s)
    case Fill(i) => t.pc.Filling? && t.expected < t.pc.seqNum
    case Finish(i) => t.pc.Filling? && t.expected >= t.pc.seqNum
  }

  function StrideOf(c: Params, size: nat): nat {
    if c.stride == ByArrival then size else c.d
  }

  function Next(c: Params, v: Server, step: Step): Server
    requires CanStep(c, v, step)
  {
    var i := step.i;
    var t := v.threads[i];
    match step
    case Arrive(_, s) =>
      var size := SlotSize(c.d, c.lens[i], s);
      if t.expected < s then
        v.(threads := v.threads[i := t.(pc := Filling(s, size), openers := t.openers + {s})])
      else if t.expected == s then
        v.(threads := v.threads[i := t.(expected := s + size, log := t.log + [s])])
      else
        v.(threads := v.threads[i := t.(log := t.log + [s])],
           missedDataSet := v.missedDataSet - {Miss(i, s)},
           missedDataPtr := v.missedDataPtr - 1,
           strays := v.strays + if Miss(i, s) in v.missedDataSet then 0 else 1)
    case Fill(_) =>
      v.(threads := v.threads[i := t.(expected := t.expected + StrideOf(c, t.pc.size))],
         missedDataSet := v.missedDataSet + {Miss(i, t.expected)},
         missedDataPtr := v.missedDataPtr + 1)
    case Finish(_) =>
      v.(threads := v.threads[i := t.(expected := t.expected + t.pc.size, pc := Waiting, log := t.log + [t.pc.seqNum])])
  }

  ghost predicate Run(c: Params, trace: seq<Server>, steps: seq<Step>) {
    && |trace| == |steps| + 1
    && trace[0] == Boot(c)
    && forall j :: 0 <= j < |steps| ==> Follows(c, trace[j], steps[j], trace[j + 1])
  }

  ghost predicate Follows(c: Params, v: Server, step: Step, v': Server) {
    CanStep(c, v, step) && v' == Next(c, v, step)
  }

  // ----- invariant -----

  /** A gap was revealed by the short final datagram, and the stride follows the arrival. */
  ghost predicate ShortGap(c: Params, i: nat, t: Thread)
    requires i < |c.lens|
  {
    c.stride == ByArrival && exists o :: o in t.openers && o < c.lens[i] && SlotSize(c.d, c.lens[i], o) < c.d
  }

  predicate Shape(c: Params, i: nat, t: Thread)
    requires i < |c.lens|
  {
    && SlotLog(c.d, c.lens[i], t.log)
    && (forall x :: x in t.log ==> x < t.expected)
    && (forall o :: o in t.openers ==> IsSlot(c.d, c.lens[i], o) && o > 0)
    && (t.pc.Filling? ==>
          && IsSlot(c.d, c.lens[i], t.pc.seqNum) && t.pc.size == SlotSize(c.d, c.lens[i], t.pc.seqNum)
          && t.pc.seqNum in t.openers && (forall x :: x in t.log ==> x < t.pc.seqNum))
  }

  /** The set restricted to part i: the slots below the mark that have not arrived. */
  ghost predicate Account(c: Params, i: nat, t: Thread, missed: set<Miss>)
    requires i < |c.lens|
  {
    && (Aligned(c.d, t.expected) || t.expected >= c.lens[i])
    && (t.pc.Filling? ==> t.expected <= t.pc.seqNum)
    && forall x: nat :: Miss(i, x) in missed <==> IsSlot(c.d, c.lens[i], x) && x < t.expected && x !in t.log
  }

  ghost predicate Spoiled(c: Params, i: nat, missed: set<Miss>)
    requires i < |c.lens|
  {
    exists x: nat :: Miss(i, x) in missed && !IsSlot(c.d, c.lens[i], x)
  }

  /** After a short gap has been filled the set holds an offset that is no slot. */
  ghost predicate Spoiling(c: Params, i: nat, t: Thread, missed: set<Miss>)
    requires i < |c.lens|
  {
    || Spoiled(c, i, missed)
    || (t.pc.Filling? && t.pc.size < c.d && t.expected < t.pc.seqNum &&
          (!Aligned(c.d, t.expected) || t.expected + t.pc.size < t.pc.seqNum))
  }

  ghost predicate ThreadInv(c: Params, v: Server, i: nat)
    requires i < |c.lens| == |v.threads|
  {
    var t := v.threads[i];
    && Shape(c, i, t)
    && (forall x: nat :: Miss(i, x) in v.missedDataSet ==> x < t.expected)
    && (if ShortGap(c, i, t) then
          Spoiling(c, i, t, v.missedDataSet) && (t.pc == Waiting ==> t.expected >= c.lens[i])
        else Account(c, i, t, v.missedDataSet))
    && (t.pc == Waiting ==> (t.expected >= c.lens[i] <==> HasFinal(c, i, t)))
    && (t.pc.Filling? ==> !HasFinal(c, i, t) && (ShortGap(c, i, t) ==> t.pc.size < c.d))
  }

  ghost predicate HasFinal(c: Params, i: nat, t: Thread)
    requires i < |c.lens|
  {
    c.lens[i] == 0 || exists f :: f in t.log && f < c.lens[i] <= f + c.d
  }

  ghost predicate CountInv(v: Server) {
    && v.missedDataPtr == |v.missedDataSet| - v.strays
    && (v.strays == 0 <==> forall i: nat :: i < |v.threads| ==> Distinct(v.threads[i].log))
    && (forall m :: m in v.missedDataSet ==> m.idx < |v.threads|)
  }

  ghost predicate Inv(c: Params, v: Server) {
    |v.threads| == |c.lens| && CountInv(v) && forall i: nat :: i < |c.lens| ==> ThreadInv(c, v, i)
  }

  lemma BootInv(c: Params)
    ensures Inv(c, Boot(c))
  {
    var v := Boot(c);
    forall i: nat | i < |c.lens| ensures ThreadInv(c, v, i) {
      assert v.threads[i] == Thread(0, Waiting, [], {});
    }
  }

  /** A step of part i leaves every other part's thread and misses alone. */
  lemma OthersUntouched(c: Params, v: Server, step: Step, j: nat)
    requires |v.threads| == |c.lens| && CanStep(c, v, step) && j < |c.lens| && j != step.i
    requires ThreadInv(c, v, j)
    ensures ThreadInv(c, Next(c, v, step), j)
  {
    var v' := Next(c, v, step);
    hide Shape, HasFinal, ShortGap, IsSlot, SlotSize;
    assert v'.threads[j] == v.threads[j];
    forall x: nat ensures Miss(j, x) in v'.missedDataSet <==> Miss(j, x) in v.missedDataSet {
    }
  }

  lemma FinalIs(c: Params, i: nat, x: nat, y: nat)
    requires i < |c.lens| && IsSlot(c.d, c.lens[i], x) && IsSlot(c.d, c.lens[i], y) && x < y
    ensures x + c.d <= y
  {
    SlotsApart(c.d, x, y);
  }

  lemma DistinctAppend(log: seq<nat>, x: nat)
    ensures Distinct(log + [x]) <==> Distinct(log) && x !in log
  {
    var log' := log + [x];
    if Distinct(log') {
      forall i, j | 0 <= i < j < |log| ensures log[i] != log[j] {
        assert log'[i] != log'[j];
      }
      forall i | 0 <= i < |log| ensures log[i] != x {
        assert log'[i] != log'[|log|];
      }
    }
  }

  lemma FinalAppend(c: Params, i: nat, t: Thread, t': Thread, s: nat)
    requires i < |c.lens| && t'.log == t.log + [s]
    ensures HasFinal(c, i, t') <==> HasFinal(c, i, t) || s < c.lens[i] <= s + c.d
  {
    if HasFinal(c, i, t) && c.lens[i] > 0 {
      var f :| f in t.log && f < c.lens[i] <= f + c.d;
      assert f in t'.log;
    }
    if s < c.lens[i] <= s + c.d {
      assert s in t'.log;
    }
  }

  lemma ArriveGap(c: Params, v: Server, i: nat, s: nat)
    requires Inv(c, v) && CanStep(c, v, Arrive(i, s)) && v.threads[i].expected < s
    ensures ThreadInv(c, Next(c, v, Arrive(i, s)), i)
  {
    assert ThreadInv(c, v, i);
    var t, t' := v.threads[i], Next(c, v, Arrive(i, s)).threads[i];
    FinalIs(c, i, t.expected, s);
    assert HasFinal(c, i, t') == HasFinal(c, i, t);
    if ShortGap(c, i, t') {
      assert t'.pc.size < c.d;
    } else {
      assert Account(c, i, t', v.missedDataSet);
    }
  }

  lemma ArriveInOrder(c: Params, v: Server, i: nat, s: nat)
    requires Inv(c, v) && CanStep(c, v, Arrive(i, s)) && v.threads[i].expected == s
    ensures ThreadInv(c, Next(c, v, Arrive(i, s)), i)
  {
    assert ThreadInv(c, v, i);
    var t, t' := v.threads[i], Next(c, v, Arrive(i, s)).threads[i];
    FinalAppend(c, i, t, t', s);
    assert !ShortGap(c, i, t');
    forall x: nat ensures Miss(i, x) in v.missedDataSet
      <==> IsSlot(c.d, c.lens[i], x) && x < t'.expected && x !in t'.log
    {
      if IsSlot(c.d, c.lens[i], x) && s < x { FinalIs(c, i, s, x); }
    }
  }

  lemma ArriveLate(c: Params, v: Server, i: nat, s: nat)
    requires Inv(c, v) && CanStep(c, v, Arrive(i, s)) && v.threads[i].expected > s
    ensures ThreadInv(c, Next(c, v, Arrive(i, s)), i)
  {
    assert ThreadInv(c, v, i);
    var v' := Next(c, v, Arrive(i, s));
    var t, t' := v.threads[i], v'.threads[i];
    FinalIs(c, i, s, t.expected);
    FinalAppend(c, i, t, t', s);
    assert !ShortGap(c, i, t');
    assert Account(c, i, t', v'.missedDataSet);
  }

  lemma FillOwn(c: Params, v: Server, i: nat)
    requires Inv(c, v) && CanStep(c, v, Fill(i))
    ensures ThreadInv(c, Next(c, v, Fill(i)), i)
  {
    assert ThreadInv(c, v, i);
    var v' := Next(c, v, Fill(i));
    var t, t' := v.threads[i], v'.threads[i];
    assert ShortGap(c, i, t') == ShortGap(c, i, t) && HasFinal(c, i, t') == HasFinal(c, i, t);
    if ShortGap(c, i, t) {
      FillShort(c, v, i);
    } else {
      assert t.pc.seqNum in t.openers;
      FillFull(c, v, i);
    }
  }

  lemma FillShort(c: Params, v: Server, i: nat)
    requires Inv(c, v) && CanStep(c, v, Fill(i)) && ShortGap(c, i, v.threads[i])
    ensures var v' := Next(c, v, Fill(i)); Spoiling(c, i, v'.threads[i], v'.missedDataSet)
  {
    assert ThreadInv(c, v, i);
    var v', t := Next(c, v, Fill(i)), v.threads[i];
    assert t.pc.size > 0;
    if Spoiled(c, i, v.missedDataSet) {
      var x: nat :| Miss(i, x) in v.missedDataSet && !IsSlot(c.d, c.lens[i], x);
      assert Miss(i, x) in v'.missedDataSet;
    } else if !Aligned(c.d, t.expected) {
      assert Miss(i, t.expected) in v'.missedDataSet;
    } else if Aligned(c.d, t.expected + t.pc.size) {
      SlotsApart(c.d, t.expected, t.expected + t.pc.size);
      assert false;
    }
  }

  lemma FillFull(c: Params, v: Server, i: nat)
    requires Inv(c, v) && CanStep(c, v, Fill(i)) && !ShortGap(c, i, v.threads[i])
    ensures var v' := Next(c, v, Fill(i)); Account(c, i, v'.threads[i], v'.missedDataSet)
  {
    assert ThreadInv(c, v, i);
    var v' := Next(c, v, Fill(i));
    var t, t' := v.threads[i], v'.threads[i];
    var e, s := t.expected, t.pc.seqNum;
    assert StrideOf(c, t.pc.size) == c.d;
    FinalIs(c, i, e, s);
    forall x: nat ensures Miss(i, x) in v'.missedDataSet
      <==> IsSlot(c.d, c.lens[i], x) && x < t'.expected && x !in t'.log
    {
      if IsSlot(c.d, c.lens[i], x) && e < x { FinalIs(c, i, e, x); }
    }
  }

  lemma FinishOwn(c: Params, v: Server, i: nat)
    requires Inv(c, v) && CanStep(c, v, Finish(i))
    ensures ThreadInv(c, Next(c, v, Finish(i)), i)
  {
    assert ThreadInv(c, v, i);
    var v' := Next(c, v, Finish(i));
    var t, t' := v.threads[i], v'.threads[i];
    var s := t.pc.seqNum;
    FinalAppend(c, i, t, t', s);
    assert ShortGap(c, i, t') == ShortGap(c, i, t);
    if !ShortGap(c, i, t) {
      forall x: nat ensures Miss(i, x) in v'.missedDataSet
        <==> IsSlot(c.d, c.lens[i], x) && x < t'.expected && x !in t'.log
      {
        if IsSlot(c.d, c.lens[i], x) && s < x { FinalIs(c, i, s, x); }
      }
    }
  }

  lemma CountKeeps(c: Params, v: Server, step: Step)
    requires Inv(c, v) && CanStep(c, v, step)
    ensures CountInv(Next(c, v, step))
  {
    var i, v' := step.i, Next(c, v, step);
    assert ThreadInv(c, v, i);
    var t, t' := v.threads[i], v'.threads[i];
    if t'.log != t.log {
      var s := t'.log[|t.log|];
      DistinctAppend(t.log, s);
      if step.Arrive? && t.expected > s {
        assert Miss(i, s) in v.missedDataSet <==> s !in t.log;
      } else {
        assert s !in t.log;
      }
    }
    hide Shape, Account, ShortGap, Spoiling, HasFinal;
    forall j: nat | j < |v.threads| && j != i ensures v'.threads[j] == v.threads[j] {
    }
  }

  lemma StepKeeps(c: Params, v: Server, step: Step)
    requires Inv(c, v) && CanStep(c, v, step)
    ensures Inv(c, Next(c, v, step))
  {
    hide Next, CanStep, CountInv, ThreadInv;
    CountKeeps(c, v, step);
    SameThreads(c, v, step);
    forall j: nat | j < |c.lens| ensures ThreadInv(c, Next(c, v, step), j) {
      if j != step.i {
        OthersUntouched(c, v, step, j);
      } else {
        OwnKeeps(c, v, step);
      }
    }
  }

  lemma SameThreads(c: Params, v: Server, step: Step)
    requires |v.threads| == |c.lens| && CanStep(c, v, step)
    ensures |Next(c, v, step).threads| == |c.lens| && step.i < |c.lens|
  {
  }

  lemma OwnKeeps(c: Params, v: Server, step: Step)
    requires Inv(c, v) && CanStep(c, v, step)
    ensures ThreadInv(c, Next(c, v, step), step.i)
  {
    hide ThreadInv, CountInv, Next;
    match step
    case Arrive(i, s) =>
      if v.threads[i].expected < s { ArriveGap(c, v, i, s); }
      else if v.threads[i].expected == s { ArriveInOrder(c, v, i, s); }
      else { ArriveLate(c, v, i, s); }
    case Fill(i) => FillOwn(c, v, i);
    case Finish(i) => FinishOwn(c, v, i);
  }

  lemma {:induction false} RunKeeps(c: Params, trace: seq<Server>, steps: seq<Step>)
    requires Run(c, trace, steps)
    ensures Inv(c, trace[|steps|])
  {
    if steps == [] {
      BootInv(c);
    } else {
      var n := |steps| - 1;
      RunKeeps(c, trace[..n + 1], steps[..n]);
      assert Follows(c, trace[n], steps[n], trace[n + 1]);
      hide Inv, Next;
      StepKeeps(c, trace[n], steps[n]);
    }
  }

  // ----- the theorems -----

  /** The set, restricted to part i, is exactly the slots that never arrived. */
  ghost predicate ExactReport(c: Params, v: Server, i: nat)
    requires i < |c.lens| == |v.threads|
  {
    forall x: nat :: Miss(i, x) in v.missedDataSet <==> IsSlot(c.d, c.lens[i], x) && x !in v.threads[i].log
  }

  /** In every lock-ordered interleaving: the loop of part i is over exactly when its final slot
      has arrived; what it then reports is exact if and only if, with the stride as written, no
      gap was revealed by the short final datagram; with the repaired stride it always is. */
  lemma HighWaterExit(c: Params, trace: seq<Server>, steps: seq<Step>, i: nat)
    requires Run(c, trace, steps) && i < |c.lens|
    requires |trace[|steps|].threads| == |c.lens| ==> trace[|steps|].threads[i].pc == Waiting
    ensures var v := trace[|steps|];
      && |v.threads| == |c.lens|
      && (v.threads[i].expected >= c.lens[i] <==> HasFinal(c, i, v.threads[i]))
      && (HasFinal(c, i, v.threads[i]) ==> (ExactReport(c, v, i) <==> !ShortGap(c, i, v.threads[i])))
      && (HasFinal(c, i, v.threads[i]) && c.stride == ByDatagramSize ==> ExactReport(c, v, i))
  {
    RunKeeps(c, trace, steps);
    assert ThreadInv(c, trace[|steps|], i);
  }

  /** missedDataPtr is the size of the shared set less the repeats; so it equals it exactly when
      no datagram of any part was received twice. */
  lemma CounterIsSetSize(c: Params, trace: seq<Server>, steps: seq<Step>)
    requires Run(c, trace, steps)
    ensures var v := trace[|steps|];
      && v.missedDataPtr <= |v.missedDataSet|
      && (v.missedDataPtr == |v.missedDataSet| <==> forall i: nat :: i < |v.threads| ==> Distinct(v.threads[i].log))
  {
    RunKeeps(c, trace, steps);
  }

  /** The loop of part i is over. */
  predicate Over(c: Params, v: Server, i: nat) {
    i < |c.lens| == |v.threads| && v.threads[i].pc == Waiting && v.threads[i].expected >= c.lens[i]
  }

  lemma OverStep(c: Params, v: Server, step: Step, i: nat)
    requires Over(c, v, i) && CanStep(c, v, step)
    ensures var v' := Next(c, v, step);
      && step.i != i && Over(c, v', i) && v'.threads[i] == v.threads[i]
      && forall x: nat :: Miss(i, x) in v'.missedDataSet <==> Miss(i, x) in v.missedDataSet
  {
  }

  /** Whatever the other parts do, what a part reports stays as it was when its loop ended. */
  lemma {:induction false} ReportIsFinal(c: Params, trace: seq<Server>, steps: seq<Step>, i: nat, ended: nat)
    requires Run(c, trace, steps) && ended <= |steps| && Over(c, trace[ended], i)
    ensures var v := trace[|steps|];
      && Over(c, v, i) && v.threads[i] == trace[ended].threads[i]
      && (forall x: nat :: Miss(i, x) in v.missedDataSet <==> Miss(i, x) in trace[ended].missedDataSet)
      && forall j :: ended <= j < |steps| ==> steps[j].i != i
    decreases |steps|
  {
    if ended < |steps| {
      var n := |steps| - 1;
      ReportIsFinal(c, trace[..n + 1], steps[..n], i, ended);
      assert Follows(c, trace[n], steps[n], trace[n + 1]);
      hide Next, CanStep;
      OverStep(c, trace[n], steps[n], i);
    }
  }

  // ----- receiveUdp of the earlier server -----

  /** The rest of an iteration of part i's loop when no other part runs. */
  ghost function Settle(c: Params, v: Server, i: nat): (v': Server)
    requires i < |c.lens| == |v.threads|
    requires v.threads[i].pc.Filling? ==> v.threads[i].pc.size > 0
    decreases if v.threads[i].pc.Filling? && v.threads[i].expected < v.threads[i].pc.seqNum
              then v.threads[i].pc.seqNum - v.threads[i].expected else 0
  {
    var t := v.threads[i];
    if !t.pc.Filling? then v
    else if t.expected < t.pc.seqNum then Settle(c, Next(c, v, Fill(i)), i)
    else Next(c, v, Finish(i))
  }

  /** From e on, in strides of w, the offsets below s: as many as it takes to reach s. */
  predicate Noted(e: nat, s: nat, w: pos, x: nat) {
    e <= x < s && (x - e) % w == 0
  }

  predicate Reached(e: nat, s: nat, w: pos, n: nat) {
    e + n * w >= s && (n > 0 ==> e + (n - 1) * w < s)
  }

  lemma NotedNext(e: nat, s: nat, w: pos, x: nat)
    requires e < s
    ensures Noted(e, s, w, x) <==> x == e || Noted(e + w, s, w, x)
  {
    if e <= x { AlignedIsMultiple(w, x - e); }
    if e + w <= x { AlignedIsMultiple(w, x - e - w); }
  }

  /** What the gap loop leaves behind, stride by stride from the mark up to the datagram at s that
      revealed the gap: the stride is that datagram's size as written, the datagram size when
      repaired. Each offset on the way is noted and counted once; the mark stops at the first of them
      not below s, and moves on by the size of the datagram. */
  lemma {:induction false} GapNotes(c: Params, v: Server, i: nat, w: pos) returns (n: nat)
    requires i < |c.lens| == |v.threads| && v.threads[i].pc.Filling? && v.threads[i].pc.size > 0
    requires w == if c.stride == ByArrival then v.threads[i].pc.size else c.d
    ensures var t, v' := v.threads[i], Settle(c, v, i);
      && Reached(t.expected, t.pc.seqNum, w, n)
      && (forall m :: m in v'.missedDataSet
            <==> m in v.missedDataSet || (m.idx == i && Noted(t.expected, t.pc.seqNum, w, m.seqNum)))
      && v'.missedDataPtr == v.missedDataPtr + n && v'.strays == v.strays
      && v'.threads == v.threads[
           i := Thread(t.expected + n * w + t.pc.size, Waiting, t.log + [t.pc.seqNum], t.openers)]
    decreases if v.threads[i].expected < v.threads[i].pc.seqNum
              then v.threads[i].pc.seqNum - v.threads[i].expected else 0
  {
    var e, s := v.threads[i].expected, v.threads[i].pc.seqNum;
    if e < s {
      var v1 := Next(c, v, Fill(i));
      var n1 := GapNotes(c, v1, i, w);
      n := n1 + 1;
      Strides(e, w, n1);
      hide Noted;
      forall m: Miss ensures Noted(e, s, w, m.seqNum) <==> m.seqNum == e || Noted(e + w, s, w, m.seqNum) {
        NotedNext(e, s, w, m.seqNum);
      }
    } else {
      n := 0;
    }
  }

  lemma Strides(e: nat, w: nat, n: nat)
    ensures e + (n + 1) * w == (e + w) + n * w
    ensures n > 0 ==> e + n * w == (e + w) + (n - 1) * w
  {
  }

  class OnePassServer {
    const c: Params
    const exactLocation: seq<nat>   // where each part begins in the file
    const file: array<byte>
    var expectedSeqNum: seq<nat>
    var log: seq<seq<nat>>
    var missedDataSet: set<Miss>
    var missedDataPtr: int
    ghost var openers: seq<set<nat>>
    ghost var strays: nat

    ghost predicate Shaped()
      reads this
    {
      |expectedSeqNum| == |log| == |openers| == |exactLocation| == |c.lens|
    }

    /** The server between two loop iterations. */
    ghost function Model(): Server
      requires Shaped()
      reads this
    {
      Server(seq(|c.lens|, j requires 0 <= j < |c.lens| && Shaped() reads this =>
               Thread(expectedSeqNum[j], Waiting, log[j], openers[j])),
             missedDataSet, missedDataPtr, strays)
    }

    /** The server while part i handles a datagram that revealed a gap. */
    ghost function InGap(i: nat, seqNum: nat, size: nat): Server
      requires Shaped() && i < |c.lens|
      reads this
    {
      Model().(threads := Model().threads[
        i := Thread(expectedSeqNum[i], Filling(seqNum, size), log[i], openers[i])])
    }

    /** The gap loop, one locked insertion at a time. */
    method FillGap(i: nat, seqNum: nat, recvDataSize: nat, ghost v: Server)
      requires Shaped() && i < |c.lens| && recvDataSize > 0
      requires v == InGap(i, seqNum, recvDataSize)
      modifies this`expectedSeqNum, this`missedDataSet, this`missedDataPtr
      ensures Shaped() && expectedSeqNum[i] >= seqNum
      ensures forall j :: 0 <= j < |c.lens| && j != i ==> expectedSeqNum[j] == old(expectedSeqNum[j])
      ensures Settle(c, v, i) == Next(c, v.(
        threads := v.threads[i := v.threads[i].(expected := expectedSeqNum[i])],
        missedDataSet := missedDataSet, missedDataPtr := missedDataPtr), Finish(i))
      ensures var w: pos, e := if c.stride == ByArrival then recvDataSize else c.d, old(expectedSeqNum[i]);
        && (forall m :: m in missedDataSet
              <==> m in old(missedDataSet) || (m.idx == i && Noted(e, seqNum, w, m.seqNum)))
        && old(missedDataPtr) <= missedDataPtr && Reached(e, seqNum, w, missedDataPtr - old(missedDataPtr))
        && expectedSeqNum[i] == e + (missedDataPtr - old(missedDataPtr)) * w
    {
      hide Noted, Reached;
      ghost var n := GapNotes(c, v, i, if c.stride == ByArrival then recvDataSize else c.d);
      ghost var w := v;
      while expectedSeqNum[i] < seqNum
        invariant Shaped()
        invariant forall j :: 0 <= j < |c.lens| && j != i ==> expectedSeqNum[j] == old(expectedSeqNum[j])
        invariant w == v.(threads := v.threads[i := v.threads[i].(expected := expectedSeqNum[i])],
                          missedDataSet := missedDataSet, missedDataPtr := missedDataPtr)
        invariant Settle(c, w, i) == Settle(c, v, i)
        decreases seqNum - expectedSeqNum[i]
      {
        w := Next(c, w, Fill(i));
        missedDataSet := missedDataSet + {Miss(i, expectedSeqNum[i])};
        expectedSeqNum := expectedSeqNum[i := expectedSeqNum[i] + StrideOf(c, recvDataSize)];
        missedDataPtr := missedDataPtr + 1;
      }
      assert n == missedDataPtr - old(missedDataPtr);
      assert Settle(c, v, i).threads[i].expected == expectedSeqNum[i] + recvDataSize;
    }

    /** The datagram is all of one slot of part i, and the slot lies in the file. */
    predicate Fits(dg: Datagram, i: nat)
      requires i < |c.lens| == |exactLocation|
    {
      && IsSlot(c.d, c.lens[i], dg.seqNum)
      && dg.size == |dg.payload| == SlotSize(c.d, c.lens[i], dg.seqNum)
      && exactLocation[i] + dg.seqNum + dg.size <= file.Length
    }

    /** One iteration of part i's receive loop for the message that recvfrom returned. */
    method Receive(i: nat, msg: seq<byte>)
      requires Shaped() && i < |c.lens| && expectedSeqNum[i] < c.lens[i]
      requires |msg| >= 12 && Fits(Decode(msg), i)
      modifies this, file
      ensures Shaped() && CanStep(c, old(Model()), Arrive(i, Decode(msg).seqNum))
      ensures Model() == Settle(c, Next(c, old(Model()), Arrive(i, Decode(msg).seqNum)), i)
      ensures file[..] == Overwrite(old(file[..]), exactLocation[i] + Decode(msg).seqNum, Decode(msg).payload)
    {
      hide Decode;
      var s, recvDataSize := Decode(msg).seqNum, Decode(msg).size;
      NoteArrival(i, s, recvDataSize);
      Memcpy(file, exactLocation[i] + s, Decode(msg).payload);
    }

    /** The part of the iteration that keeps account of the gaps. */
    method NoteArrival(i: nat, s: nat, recvDataSize: nat)
      requires Shaped() && i < |c.lens| && expectedSeqNum[i] < c.lens[i]
      requires IsSlot(c.d, c.lens[i], s) && recvDataSize == SlotSize(c.d, c.lens[i], s)
      modifies this
      ensures Shaped() && CanStep(c, old(Model()), Arrive(i, s))
      ensures Model() == Settle(c, Next(c, old(Model()), Arrive(i, s)), i)
    {
      ghost var before := Model();
      if expectedSeqNum[i] < s {
        openers := openers[i := openers[i] + {s}];
        ghost var v := Next(c, before, Arrive(i, s));
        assert v == InGap(i, s, recvDataSize);
        FillGap(i, s, recvDataSize, v);
        expectedSeqNum := expectedSeqNum[i := expectedSeqNum[i] + recvDataSize];
      } else if expectedSeqNum[i] == s {
        expectedSeqNum := expectedSeqNum[i := expectedSeqNum[i] + recvDataSize];
      } else {
        strays := strays + if Miss(i, s) in missedDataSet then 0 else 1;
        missedDataSet := missedDataSet - {Miss(i, s)};
        missedDataPtr := missedDataPtr - 1;
      }
      log := log[i := log[i] + [s]];
      assert Model().threads == Settle(c, Next(c, before, Arrive(i, s)), i).threads;
    }
  }
}
