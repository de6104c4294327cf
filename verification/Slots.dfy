// Slot arithmetic: a part of `len` bytes is cut at the multiples of the datagram size `d`.
module Slots {
  /** Sizes of datagrams. */
  type pos = x: nat | x > 0 witness 1

  /** x is a multiple of d; counted down so that proofs follow the stride of the loops. */
  predicate Aligned(d: pos, x: nat) {
    x == 0 || (x >= d && Aligned(d, x - d))
  }

  predicate IsSlot(d: pos, len: nat, s: nat) {
    s < len && Aligned(d, s)
  }

  /** The payload size of the datagram at offset s: short only for the last slot. */
  function SlotSize(d: pos, len: nat, s: nat): (size: nat)
    requires s < len
    ensures size > 0
  {
    if len - s < d then len - s else d
  }

  lemma {:induction false} AlignedIsMultiple(d: pos, x: nat)
    ensures Aligned(d, x) <==> x % d == 0
  {
    if x >= d {
      AlignedIsMultiple(d, x - d);
      var q, r := (x - d) / d, (x - d) % d;
      assert x == d * (q + 1) + r;
      Remainder(d, q + 1, r, x);
    }
  }

  lemma Remainder(d: nat, q: nat, r: nat, x: nat)
    requires r < d && x == d * q + r
    ensures x % d == r
  {
    var q', r' := x / d, x % d;
    assert x == d * q' + r';
    QuotientUnique(d, q, r, q', r');
    QuotientUnique(d, q', r', q, r);
  }

  lemma QuotientUnique(d: nat, q: nat, r: nat, q': nat, r': nat)
    requires r < d && r' < d && d * q + r == d * q' + r'
    ensures q <= q'
  {
    if q > q' {
      StepDown(d, q, q');
      assert false;
    }
  }

  lemma StepDown(d: nat, q: nat, p: nat)
    requires q > p
    ensures d * q >= d * p + d
  {
    var t := q - p - 1;
    assert d * q == d * (p + 1) + d * t;
    assert d * t >= 0;
  }

  lemma {:induction false} SlotsApart(d: pos, a: nat, b: nat)
    requires Aligned(d, a) && Aligned(d, b) && a < b
    ensures a + d <= b
  {
    if a > 0 {
      SlotsApart(d, a - d, b - d);
    }
  }

  /** The slot that byte y of a part lies in. */
  lemma {:induction false} SlotOf(d: pos, len: nat, y: nat) returns (x: nat)
    requires y < len
    ensures IsSlot(d, len, x) && x <= y < x + SlotSize(d, len, x)
  {
    if y < d {
      x := 0;
    } else {
      x := SlotOf(d, len - d, y - d);
      x := x + d;
    }
  }

  ghost predicate AllIn(d: pos, len: nat, log: seq<nat>) {
    forall s :: IsSlot(d, len, s) ==> s in log
  }

  predicate SlotLog(d: pos, len: nat, log: seq<nat>) {
    forall j :: 0 <= j < |log| ==> IsSlot(d, len, log[j])
  }

  predicate Distinct(log: seq<nat>) {
    forall i, j :: 0 <= i < j < |log| ==> log[i] != log[j]
  }

  /** What recvSize counts: every arrival, repeated or not. */
  function SumSizes(d: pos, len: nat, log: seq<nat>): (sum: nat)
    requires SlotLog(d, len, log)
  {
    if log == [] then 0
    else SumSizes(d, len, log[..|log| - 1]) + SlotSize(d, len, log[|log| - 1])
  }

  /** The part of that sum which is due to offsets that had arrived before. */
  function RepeatedBytes(d: pos, len: nat, log: seq<nat>): (sum: nat)
    requires SlotLog(d, len, log)
  {
    if log == [] then 0
    else
      var before, last := log[..|log| - 1], log[|log| - 1];
      RepeatedBytes(d, len, before) + if last in before then SlotSize(d, len, last) else 0
  }

  /** The bytes of the slots from `at` on whose offset is in the log. */
  function BytesIn(d: pos, len: nat, log: seq<nat>, at: nat): (sum: nat)
    decreases if at < len then len - at else 0
  {
    if at >= len then 0
    else (if at in log then SlotSize(d, len, at) else 0) + BytesIn(d, len, log, at + d)
  }

  function Remaining(len: nat, at: nat): nat {
    if at < len then len - at else 0
  }

  lemma {:induction false} BytesInAppend(d: pos, len: nat, log: seq<nat>, x: nat, at: nat)
    requires IsSlot(d, len, x) && Aligned(d, at)
    ensures BytesIn(d, len, log + [x], at)
         == BytesIn(d, len, log, at) + if x in log || x < at then 0 else SlotSize(d, len, x)
    decreases Remaining(len, at)
  {
    if at < len {
      if at < x { SlotsApart(d, at, x); }
      BytesInAppend(d, len, log, x, at + d);
    }
  }

  lemma {:induction false} BytesInNone(d: pos, len: nat, at: nat)
    ensures BytesIn(d, len, [], at) == 0
    decreases Remaining(len, at)
  {
    if at < len { BytesInNone(d, len, at + d); }
  }

  lemma {:induction false} SumSplits(d: pos, len: nat, log: seq<nat>)
    requires SlotLog(d, len, log)
    ensures SumSizes(d, len, log) == BytesIn(d, len, log, 0) + RepeatedBytes(d, len, log)
  {
    if log == [] {
      BytesInNone(d, len, 0);
    } else {
      var before, last := log[..|log| - 1], log[|log| - 1];
      SumSplits(d, len, before);
      BytesInAppend(d, len, before, last, 0);
      assert log == before + [last];
    }
  }

  lemma {:induction false} MissingCosts(d: pos, len: nat, log: seq<nat>, x: nat, at: nat)
    requires Aligned(d, at) && (x < len ==> Aligned(d, x) && at <= x && x !in log)
    ensures BytesIn(d, len, log, at) + (if x < len then SlotSize(d, len, x) else 0) <= Remaining(len, at)
    decreases Remaining(len, at)
  {
    if at < len {
      if at < x < len {
        SlotsApart(d, at, x);
        MissingCosts(d, len, log, x, at + d);
      } else {
        MissingCosts(d, len, log, len, at + d);
      }
    }
  }

  lemma {:induction false} AllInIsFull(d: pos, len: nat, log: seq<nat>, at: nat)
    requires Aligned(d, at) && AllIn(d, len, log)
    ensures BytesIn(d, len, log, at) == Remaining(len, at)
    decreases Remaining(len, at)
  {
    if at < len {
      assert IsSlot(d, len, at);
      AllInIsFull(d, len, log, at + d);
    }
  }

  /** The bytes received never exceed the part, and reach it exactly when every slot is in. */
  lemma BytesInFullIff(d: pos, len: nat, log: seq<nat>)
    ensures BytesIn(d, len, log, 0) <= len
    ensures BytesIn(d, len, log, 0) == len <==> AllIn(d, len, log)
  {
    MissingCosts(d, len, log, len, 0);
    if AllIn(d, len, log) {
      AllInIsFull(d, len, log, 0);
    } else {
      var x :| IsSlot(d, len, x) && x !in log;
      MissingCosts(d, len, log, x, 0);
    }
  }

  lemma {:induction false} DistinctRepeatsNothing(d: pos, len: nat, log: seq<nat>)
    requires SlotLog(d, len, log) && Distinct(log)
    ensures RepeatedBytes(d, len, log) == 0
  {
    if log != [] {
      DistinctRepeatsNothing(d, len, log[..|log| - 1]);
    }
  }

  lemma {:induction false} RepeatsOfFullSlots(d: pos, len: nat, log: seq<nat>)
    requires SlotLog(d, len, log)
    requires forall j :: 0 <= j < |log| ==> SlotSize(d, len, log[j]) == d
    ensures RepeatedBytes(d, len, log) == 0 || RepeatedBytes(d, len, log) >= d
  {
    if log != [] {
      RepeatsOfFullSlots(d, len, log[..|log| - 1]);
    }
  }

  /** Two short slots of one part are the same slot. */
  lemma OneShortSlot(d: pos, len: nat, x: nat, y: nat)
    requires IsSlot(d, len, x) && IsSlot(d, len, y)
    requires SlotSize(d, len, x) < d && SlotSize(d, len, y) < d
    ensures x == y
  {
    if x < y { SlotsApart(d, x, y); }
    if y < x { SlotsApart(d, y, x); }
  }

  /** When the receive loop `while (recvSize < splitSize)` stops after the arrivals `log`, the
      part is complete if and only if the repeated bytes it counted are fewer than the bytes of
      the datagram it stopped on. */
  lemma StoppedCompleteIff(d: pos, len: nat, log: seq<nat>)
    requires SlotLog(d, len, log) && log != []
    requires SumSizes(d, len, log[..|log| - 1]) < len <= SumSizes(d, len, log)
    ensures AllIn(d, len, log) <==> RepeatedBytes(d, len, log) < SlotSize(d, len, log[|log| - 1])
  {
    var last := log[|log| - 1];
    SumSplits(d, len, log);
    BytesInFullIff(d, len, log);
    if RepeatedBytes(d, len, log) < SlotSize(d, len, last) && !AllIn(d, len, log) {
      var x :| IsSlot(d, len, x) && x !in log;
      MissingCosts(d, len, log, x, 0);
      assert SlotSize(d, len, x) < d;
      forall j | 0 <= j < |log| ensures SlotSize(d, len, log[j]) == d {
        if SlotSize(d, len, log[j]) < d { OneShortSlot(d, len, x, log[j]); }
      }
      RepeatsOfFullSlots(d, len, log);
      assert false;
    }
  }

  /** In particular, without repeats it stops complete and with recvSize equal to the part. */
  lemma StoppedWithoutRepeats(d: pos, len: nat, log: seq<nat>)
    requires SlotLog(d, len, log) && Distinct(log)
    ensures SumSizes(d, len, log) <= len
    ensures SumSizes(d, len, log) == len <==> AllIn(d, len, log)
  {
    DistinctRepeatsNothing(d, len, log);
    SumSplits(d, len, log);
    BytesInFullIff(d, len, log);
  }
}
