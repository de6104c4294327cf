// doneReceiveCount++ and totalRecvSize += recvSize are plain C++ increments: each is a load and a
// later store, and two threads can interleave between them.
module RacyCounters {
  datatype Phase = Before | Loaded(v: nat) | After

  /** A shared counter and, for each thread, how far its one increment has got. `lost` records
      whether some store overwrote a value other than the one its thread had loaded. */
  datatype Counter = Counter(value: nat, threads: seq<Phase>, lost: bool)

  datatype Access = Load(i: nat) | Store(i: nat)

  predicate CanAccess(c: Counter, a: Access) {
    a.i < |c.threads| && if a.Load? then c.threads[a.i] == Before else c.threads[a.i].Loaded?
  }

  function Accessed(ws: seq<nat>, c: Counter, a: Access): Counter
    requires CanAccess(c, a) && |ws| == |c.threads|
  {
    if a.Load? then c.(threads := c.threads[a.i := Loaded(c.value)])
    else
      var v := c.threads[a.i].v;
      Counter(v + ws[a.i], c.threads[a.i := After], c.lost || c.value != v)
  }

  /** The sum of the weights that the mask picks out. */
  function Sum(ws: seq<nat>, mask: seq<bool>): (sum: nat)
    requires |ws| == |mask|
  {
    if ws == [] then 0
    else Sum(ws[..|ws| - 1], mask[..|ws| - 1]) + if mask[|ws| - 1] then ws[|ws| - 1] else 0
  }

  lemma {:induction false} SumUpdate(ws: seq<nat>, mask: seq<bool>, i: nat)
    requires |ws| == |mask| && i < |ws| && !mask[i]
    ensures Sum(ws, mask[i := true]) == Sum(ws, mask) + ws[i]
  {
    var n := |ws| - 1;
    if i < n {
      SumUpdate(ws[..n], mask[..n], i);
      assert mask[i := true][..n] == mask[..n][i := true];
    } else {
      assert mask[i := true][..n] == mask[..n];
    }
  }

  lemma {:induction false} SumGrows(ws: seq<nat>, mask: seq<bool>, mask': seq<bool>)
    requires |ws| == |mask| == |mask'| && forall i :: 0 <= i < |ws| && mask[i] ==> mask'[i]
    ensures Sum(ws, mask) <= Sum(ws, mask')
  {
    if ws != [] {
      SumGrows(ws[..|ws| - 1], mask[..|ws| - 1], mask'[..|ws| - 1]);
    }
  }

  lemma {:induction false} SumOfNone(ws: seq<nat>, mask: seq<bool>)
    requires |ws| == |mask| && true !in mask
    ensures Sum(ws, mask) == 0
  {
    if ws != [] {
      SumOfNone(ws[..|ws| - 1], mask[..|ws| - 1]);
    }
  }

  function Finished(threads: seq<Phase>): (mask: seq<bool>)
    ensures |mask| == |threads| && forall i :: 0 <= i < |mask| ==> mask[i] == (threads[i] == After)
  {
    seq(|threads|, i requires 0 <= i < |threads| => threads[i] == After)
  }

  /** What the counter should hold: the increments of the threads that are done with it. */
  function Due(ws: seq<nat>, threads: seq<Phase>): nat
    requires |ws| == |threads|
  {
    Sum(ws, Finished(threads))
  }

  lemma DueUpdate(ws: seq<nat>, threads: seq<Phase>, i: nat, phase: Phase)
    requires |ws| == |threads| && i < |ws| && threads[i] != After
    ensures Due(ws, threads[i := phase]) == Due(ws, threads) + if phase == After then ws[i] else 0
  {
    if phase == After {
      SumUpdate(ws, Finished(threads), i);
      assert Finished(threads[i := phase]) == Finished(threads)[i := true];
    } else {
      assert Finished(threads[i := phase]) == Finished(threads);
    }
  }

  predicate Positive(ws: seq<nat>) {
    forall i :: 0 <= i < |ws| ==> ws[i] > 0
  }

  predicate CounterInv(ws: seq<nat>, c: Counter) {
    && |ws| == |c.threads|
    && var due := Due(ws, c.threads);
      && c.value <= due
      && (!c.lost ==> c.value == due)
      && (c.lost && Positive(ws) ==> c.value < due)
      && (forall i :: 0 <= i < |c.threads| && c.threads[i].Loaded? ==> c.threads[i].v <= due)
      && (forall i :: 0 <= i < |c.threads| && c.threads[i].Loaded? && Positive(ws) ==>
            c.threads[i].v < due || c.value == due)
  }

  /** The counter never runs ahead of the increments that are due and, if all of them are
      positive, falls behind for good at the first lost update. */
  lemma AccessKeeps(ws: seq<nat>, c: Counter, a: Access)
    requires CounterInv(ws, c) && CanAccess(c, a)
    ensures CounterInv(ws, Accessed(ws, c, a))
  {
    hide Due;
    DueUpdate(ws, c.threads, a.i, Accessed(ws, c, a).threads[a.i]);
  }

  // ----- which increments a value is made of -----

  /** v is the sum of the increments of some threads that are done with the counter, thread `last`
      among them if there is one. */
  ghost predicate MadeOf(ws: seq<nat>, threads: seq<Phase>, last: int, v: nat)
    requires |ws| == |threads|
  {
    exists mask: seq<bool> :: Picks(ws, threads, last, v, mask)
  }

  predicate Picks(ws: seq<nat>, threads: seq<Phase>, last: int, v: nat, mask: seq<bool>)
    requires |ws| == |threads|
  {
    && |mask| == |ws| && v == Sum(ws, mask)
    && (forall i :: 0 <= i < |mask| && mask[i] ==> threads[i] == After)
    && (0 <= last < |ws| ==> mask[last])
  }

  /** `stores` lists the threads that have stored, in order. */
  ghost predicate Explained(ws: seq<nat>, c: Counter, stores: seq<nat>) {
    && |ws| == |c.threads|
    && (forall i: nat :: i in stores <==> i < |c.threads| && c.threads[i] == After)
    && MadeOf(ws, c.threads, Last(stores), c.value)
    && forall i :: 0 <= i < |c.threads| && c.threads[i].Loaded? ==> MadeOf(ws, c.threads, -1, c.threads[i].v)
  }

  function Last(stores: seq<nat>): (last: int)
    ensures stores != [] ==> last in stores
  {
    if stores == [] then -1 else stores[|stores| - 1]
  }

  lemma StillMadeOf(ws: seq<nat>, threads: seq<Phase>, i: nat, phase: Phase, last: int, last': int, v: nat)
    requires |ws| == |threads| && i < |ws| && threads[i] != After && MadeOf(ws, threads, last, v)
    requires last' == last || last' == -1
    ensures MadeOf(ws, threads[i := phase], last', v)
  {
    var mask :| Picks(ws, threads, last, v, mask);
    assert Picks(ws, threads[i := phase], last', v, mask);
  }

  lemma StoredOnTop(ws: seq<nat>, threads: seq<Phase>, i: nat, v: nat)
    requires |ws| == |threads| && i < |ws| && threads[i] != After && MadeOf(ws, threads, -1, v)
    ensures MadeOf(ws, threads[i := After], i, v + ws[i])
  {
    var mask :| Picks(ws, threads, -1, v, mask);
    SumUpdate(ws, mask, i);
    assert Picks(ws, threads[i := After], i, v + ws[i], mask[i := true]);
  }

  lemma AccessExplained(ws: seq<nat>, c: Counter, a: Access, stores: seq<nat>)
    requires Explained(ws, c, stores) && CanAccess(c, a)
    ensures Explained(ws, Accessed(ws, c, a), if a.Store? then stores + [a.i] else stores)
  {
    hide MadeOf;
    var c' := Accessed(ws, c, a);
    var phase := c'.threads[a.i];
    StillMadeOf(ws, c.threads, a.i, phase, Last(stores), Last(stores), c.value);
    StillMadeOf(ws, c.threads, a.i, phase, Last(stores), -1, c.value);
    if a.Store? { StoredOnTop(ws, c.threads, a.i, c.threads[a.i].v); }
    forall j | 0 <= j < |c'.threads| && c'.threads[j].Loaded? ensures MadeOf(ws, c'.threads, -1, c'.threads[j].v) {
      if j != a.i { StillMadeOf(ws, c.threads, a.i, phase, -1, -1, c.threads[j].v); }
    }
  }

  // ----- the receiving threads of the server -----

  /** Thread i adds its recvSize, then increments the done counter, then waits for all parts. */
  datatype Threads = Threads(total: Counter, done: Counter, sending: set<nat>)

  datatype ThreadStep = AddSize(a: Access) | CountDone(a: Access) | PassBarrier(i: nat)

  function Ones(k: nat): (ws: seq<nat>)
    ensures |ws| == k && Positive(ws) && forall i :: 0 <= i < k ==> ws[i] == 1
  {
    if k == 0 then [] else Ones(k - 1) + [1]
  }

  function AllBefore(k: nat): (threads: seq<Phase>)
    ensures |threads| == k && forall i :: 0 <= i < k ==> threads[i] == Before
  {
    if k == 0 then [] else AllBefore(k - 1) + [Before]
  }

  function Launch(k: nat): Threads {
    Threads(Counter(0, AllBefore(k), false), Counter(0, AllBefore(k), false), {})
  }

  predicate CanStep(k: nat, t: Threads, step: ThreadStep)
    requires |t.total.threads| == |t.done.threads| == k
  {
    match step
    case AddSize(a) => CanAccess(t.total, a)
    case CountDone(a) => CanAccess(t.done, a) && t.total.threads[a.i] == After
    case PassBarrier(i) => i < k && t.done.threads[i] == After && t.done.value == k
  }

  function Stepped(ws: seq<nat>, t: Threads, step: ThreadStep): Threads
    requires |t.total.threads| == |t.done.threads| == |ws| && CanStep(|ws|, t, step)
  {
    match step
    case AddSize(a) => t.(total := Accessed(ws, t.total, a))
    case CountDone(a) => t.(done := Accessed(Ones(|ws|), t.done, a))
    case PassBarrier(i) => t.(sending := t.sending + {i})
  }

  predicate AllDone(t: Threads) {
    && (forall i :: 0 <= i < |t.done.threads| ==> t.done.threads[i] == After)
    && (forall i :: 0 <= i < |t.total.threads| ==> t.total.threads[i] == After)
  }

  predicate ThreadsInv(ws: seq<nat>, t: Threads) {
    && CounterInv(ws, t.total) && CounterInv(Ones(|ws|), t.done)
    && (forall i :: 0 <= i < |ws| && t.done.threads[i] != Before ==> t.total.threads[i] == After)
    && (t.sending != {} ==> AllDone(t))
  }

  lemma {:induction false} SumOfOnes(mask: seq<bool>)
    ensures Sum(Ones(|mask|), mask) <= |mask|
    ensures Sum(Ones(|mask|), mask) == |mask| <==> false !in mask
    ensures Sum(Ones(|mask|), mask) == 0 <==> true !in mask
  {
    if mask != [] {
      var n := |mask| - 1;
      SumOfOnes(mask[..n]);
      assert Ones(|mask|)[..n] == Ones(n);
      assert mask == mask[..n] + [mask[n]];
    }
  }

  /** The value k can only be read once every thread has stored its increment. */
  lemma FullCountMeansAll(ws: seq<nat>, t: Threads)
    requires ThreadsInv(ws, t)
    ensures t.done.value == |ws| <==> AllDone(t) && !t.done.lost
  {
    var mask := Finished(t.done.threads);
    SumOfOnes(mask);
    if false in mask {
      var i :| 0 <= i < |mask| && !mask[i];
    }
  }

  lemma ThreadStepKeeps(ws: seq<nat>, t: Threads, step: ThreadStep)
    requires ThreadsInv(ws, t) && CanStep(|ws|, t, step)
    ensures ThreadsInv(ws, Stepped(ws, t, step))
  {
    match step
    case AddSize(a) => AccessKeeps(ws, t.total, a);
    case CountDone(a) => AccessKeeps(Ones(|ws|), t.done, a);
    case PassBarrier(i) => FullCountMeansAll(ws, t);
  }

  predicate Interleaving(ws: seq<nat>, trace: seq<Threads>, steps: seq<ThreadStep>) {
    && |trace| == |steps| + 1
    && trace[0] == Launch(|ws|)
    && (forall j :: 0 <= j < |trace| ==> |trace[j].total.threads| == |trace[j].done.threads| == |ws|)
    && (forall j :: 0 <= j < |steps| ==> CanStep(|ws|, trace[j], steps[j]))
    && (forall j :: 0 <= j < |steps| ==> trace[j + 1] == Stepped(ws, trace[j], steps[j]))
  }

  lemma NothingDue(ws: seq<nat>)
    ensures Due(ws, AllBefore(|ws|)) == 0
  {
    SumOfNone(ws, Finished(AllBefore(|ws|)));
  }

  lemma {:induction false} InterleavingKeeps(ws: seq<nat>, trace: seq<Threads>, steps: seq<ThreadStep>)
    requires Interleaving(ws, trace, steps)
    ensures ThreadsInv(ws, trace[|steps|])
  {
    if steps == [] {
      NothingDue(ws);
      NothingDue(Ones(|ws|));
    } else {
      var n := |steps| - 1;
      InterleavingKeeps(ws, trace[..n + 1], steps[..n]);
      ThreadStepKeeps(ws, trace[n], steps[n]);
    }
  }

  /** In every interleaving of plain increments: no thread starts sending before all have
      finished receiving, lost updates or not; when all have, the wait ends exactly if no
      doneReceiveCount++ was lost; and totalRecvSize never exceeds the sum of the sizes added,
      equals it if no addition was lost, and (no part being empty) falls short of it if one was. */
  lemma PlainIncrements(ws: seq<nat>, trace: seq<Threads>, steps: seq<ThreadStep>)
    requires Interleaving(ws, trace, steps)
    ensures var t := trace[|steps|];
      && (t.sending != {} ==> AllDone(t))
      && (AllDone(t) ==> (t.done.value == |ws| <==> !t.done.lost))
      && t.total.value <= Due(ws, t.total.threads)
      && (!t.total.lost ==> t.total.value == Due(ws, t.total.threads))
      && (t.total.lost && Positive(ws) ==> t.total.value < Due(ws, t.total.threads))
  {
    InterleavingKeeps(ws, trace, steps);
    FullCountMeansAll(ws, trace[|steps|]);
  }

  // ----- what a counter can hold -----

  predicate Sized(ws: seq<nat>, t: Threads) {
    |t.total.threads| == |t.done.threads| == |ws|
  }

  datatype Which = Total | Done

  function CounterOf(which: Which, t: Threads): Counter {
    if which == Total then t.total else t.done
  }

  function WeightsOf(which: Which, ws: seq<nat>): (weights: seq<nat>)
    ensures |weights| == |ws|
  {
    if which == Total then ws else Ones(|ws|)
  }

  function AccessTo(which: Which, a: Access): ThreadStep {
    if which == Total then AddSize(a) else CountDone(a)
  }

  function StoreOf(which: Which, step: ThreadStep): (stores: seq<nat>) {
    match step
    case AddSize(Store(i)) => if which == Total then [i] else []
    case CountDone(Store(i)) => if which == Done then [i] else []
    case _ => []
  }

  /** The threads that have stored to the counter, in the order of their stores. */
  function StoresTo(which: Which, steps: seq<ThreadStep>): (stores: seq<nat>) {
    if steps == [] then [] else StoresTo(which, steps[..|steps| - 1]) + StoreOf(which, steps[|steps| - 1])
  }

  lemma StepExplained(ws: seq<nat>, t: Threads, step: ThreadStep, which: Which, stores: seq<nat>)
    requires Sized(ws, t) && CanStep(|ws|, t, step)
    requires Explained(WeightsOf(which, ws), CounterOf(which, t), stores)
    ensures Explained(WeightsOf(which, ws), CounterOf(which, Stepped(ws, t, step)), stores + StoreOf(which, step))
  {
    hide Explained;
    if step.PassBarrier? || step != AccessTo(which, step.a) {
      assert stores + StoreOf(which, step) == stores;
    } else {
      AccessExplained(WeightsOf(which, ws), CounterOf(which, t), step.a, stores);
      assert step.a.Load? ==> stores + StoreOf(which, step) == stores;
    }
  }

  lemma {:induction false} InterleavingExplained(ws: seq<nat>, trace: seq<Threads>, steps: seq<ThreadStep>,
                                                 which: Which)
    requires Interleaving(ws, trace, steps)
    ensures Explained(WeightsOf(which, ws), CounterOf(which, trace[|steps|]), StoresTo(which, steps))
  {
    if steps == [] {
      var weights, none := WeightsOf(which, ws), seq(|ws|, _ => false);
      SumOfNone(weights, none);
      assert Picks(weights, AllBefore(|ws|), -1, 0, none);
    } else {
      hide Explained, Stepped, CanStep;
      var n := |steps| - 1;
      InterleavingExplained(ws, trace[..n + 1], steps[..n], which);
      StepExplained(ws, trace[n], steps[n], which, StoresTo(which, steps[..n]));
    }
  }

  lemma PickedIsPart(ws: seq<nat>, mask: seq<bool>, i: nat)
    requires |ws| == |mask| && i < |ws| && mask[i]
    ensures Sum(ws, mask) >= ws[i]
  {
    assert mask[i := false][i := true] == mask;
    SumUpdate(ws, mask[i := false], i);
  }

  /** In every interleaving each counter holds the sum of the increments of some threads that have
      stored, the last one to store among them: so at least that thread's, and nothing only as long
      as no one has stored anything positive. */
  lemma HoldsLastStore(ws: seq<nat>, trace: seq<Threads>, steps: seq<ThreadStep>, which: Which)
    requires Interleaving(ws, trace, steps)
    ensures var c, stores, weights := CounterOf(which, trace[|steps|]), StoresTo(which, steps), WeightsOf(which, ws);
      && (forall i: nat :: i in stores <==> i < |ws| && c.threads[i] == After)
      && MadeOf(weights, c.threads, Last(stores), c.value)
      && (stores == [] ==> c.value == 0)
      && (stores != [] ==> c.value >= weights[Last(stores)])
  {
    InterleavingExplained(ws, trace, steps, which);
    var c, stores, weights := CounterOf(which, trace[|steps|]), StoresTo(which, steps), WeightsOf(which, ws);
    var mask :| Picks(weights, c.threads, Last(stores), c.value, mask);
    if stores == [] {
      SumOfNone(weights, mask);
    } else {
      PickedIsPart(weights, mask, Last(stores));
    }
  }

  // ----- schedules -----

  ghost predicate Ends(ws: seq<nat>, trace: seq<Threads>, steps: seq<ThreadStep>, t: Threads) {
    Interleaving(ws, trace, steps) && trace[|steps|] == t
  }

  ghost predicate Reaches(ws: seq<nat>, t: Threads) {
    exists trace, steps :: Ends(ws, trace, steps, t)
  }

  lemma Launched(ws: seq<nat>)
    ensures Reaches(ws, Launch(|ws|))
  {
    assert Ends(ws, [Launch(|ws|)], [], Launch(|ws|));
  }

  lemma Extend(ws: seq<nat>, t: Threads, step: ThreadStep) returns (t': Threads)
    requires Reaches(ws, t) && Sized(ws, t) && CanStep(|ws|, t, step)
    ensures t' == Stepped(ws, t, step) && Reaches(ws, t') && Sized(ws, t')
  {
    t' := Stepped(ws, t, step);
    var trace, steps :| Ends(ws, trace, steps, t);
    var trace', steps' := trace + [t'], steps + [step];
    assert Ends(ws, trace', steps', t') by {
      hide CanStep, Stepped;
      forall j | 0 <= j < |steps'|
        ensures CanStep(|ws|, trace'[j], steps'[j]) && trace'[j + 1] == Stepped(ws, trace'[j], steps'[j])
      {
        if j < |steps| { assert trace'[j] == trace[j] && trace'[j + 1] == trace[j + 1]; }
      }
    }
  }

  /** The done counter is touched only when every size has been added. */
  predicate Ready(which: Which, t: Threads) {
    which == Done ==> forall i :: 0 <= i < |t.total.threads| ==> t.total.threads[i] == After
  }

  predicate OnlyMoves(which: Which, t: Threads, t': Threads) {
    && t'.sending == t.sending
    && (which == Total ==> t'.done == t.done)
    && (which == Done ==> t'.total == t.total)
  }

  lemma Move(ws: seq<nat>, which: Which, t: Threads, a: Access) returns (t': Threads)
    requires Reaches(ws, t) && Sized(ws, t) && Ready(which, t) && CanAccess(CounterOf(which, t), a)
    ensures Reaches(ws, t') && Sized(ws, t') && Ready(which, t') && OnlyMoves(which, t, t')
    ensures CounterOf(which, t') == Accessed(WeightsOf(which, ws), CounterOf(which, t), a)
  {
    hide Reaches;
    t' := Extend(ws, t, AccessTo(which, a));
  }

  /** Thread `first` and those whose increment is to be lost load 0. */
  lemma {:induction false} LoadEarly(ws: seq<nat>, which: Which, t: Threads, mask: seq<bool>, first: nat, i: nat)
    returns (t': Threads)
    requires Reaches(ws, t) && Sized(ws, t) && Ready(which, t) && i <= |ws| == |mask|
    requires CounterOf(which, t).value == 0
    requires forall j :: 0 <= j < |ws| ==>
      CounterOf(which, t).threads[j] == if j < i && (j == first || !mask[j]) then Loaded(0) else Before
    ensures Reaches(ws, t') && Sized(ws, t') && Ready(which, t') && OnlyMoves(which, t, t')
    ensures forall j :: 0 <= j < |ws| ==>
      CounterOf(which, t').threads[j] == if j == first || !mask[j] then Loaded(0) else Before
    decreases |ws| - i
  {
    hide Reaches;
    if i == |ws| {
      t' := t;
    } else if i == first || !mask[i] {
      var t1 := Move(ws, which, t, Load(i));
      t' := LoadEarly(ws, which, t1, mask, first, i + 1);
    } else {
      t' := LoadEarly(ws, which, t, mask, first, i + 1);
    }
  }

  /** Those whose increment is to be lost store. */
  lemma {:induction false} StoreInVain(ws: seq<nat>, which: Which, t: Threads, mask: seq<bool>, first: nat, i: nat)
    returns (t': Threads)
    requires Reaches(ws, t) && Sized(ws, t) && Ready(which, t) && i <= |ws| == |mask|
    requires forall j :: 0 <= j < |ws| ==>
      CounterOf(which, t).threads[j] ==
        if !mask[j] then (if j < i then After else Loaded(0)) else if j == first then Loaded(0) else Before
    ensures Reaches(ws, t') && Sized(ws, t') && Ready(which, t') && OnlyMoves(which, t, t')
    ensures forall j :: 0 <= j < |ws| ==>
      CounterOf(which, t').threads[j] == if !mask[j] then After else if j == first then Loaded(0) else Before
    decreases |ws| - i
  {
    hide Reaches;
    if i == |ws| {
      t' := t;
    } else if !mask[i] {
      var t1 := Move(ws, which, t, Store(i));
      t' := StoreInVain(ws, which, t1, mask, first, i + 1);
    } else {
      t' := StoreInVain(ws, which, t, mask, first, i + 1);
    }
  }

  /** Those below i that are picked, and thread `first`. */
  function PickedSoFar(mask: seq<bool>, first: nat, i: nat): (m: seq<bool>)
    ensures |m| == |mask| && forall j :: 0 <= j < |m| ==> m[j] == (mask[j] && (j == first || j < i))
  {
    seq(|mask|, j requires 0 <= j < |mask| => mask[j] && (j == first || j < i))
  }

  /** The others, one after the other, load and store. */
  lemma {:induction false} AddUp(ws: seq<nat>, which: Which, t: Threads, mask: seq<bool>, first: nat, i: nat)
    returns (t': Threads)
    requires Reaches(ws, t) && Sized(ws, t) && Ready(which, t) && i <= |ws| == |mask|
    requires first < |ws| && mask[first]
    requires forall j :: 0 <= j < |ws| ==>
      CounterOf(which, t).threads[j] == if !mask[j] || j == first || j < i then After else Before
    requires CounterOf(which, t).value == Sum(WeightsOf(which, ws), PickedSoFar(mask, first, i))
    ensures Reaches(ws, t') && Sized(ws, t') && OnlyMoves(which, t, t')
    ensures forall j :: 0 <= j < |ws| ==> CounterOf(which, t').threads[j] == After
    ensures CounterOf(which, t').value == Sum(WeightsOf(which, ws), mask)
    decreases |ws| - i
  {
    hide Reaches, Sum;
    var m := PickedSoFar(mask, first, i);
    if i == |ws| {
      assert m == mask;
      t' := t;
    } else {
      var m' := PickedSoFar(mask, first, i + 1);
      if mask[i] && i != first {
        SumUpdate(WeightsOf(which, ws), m, i);
        assert m[i := true] == m';
        var t1 := Move(ws, which, t, Load(i));
        var t2 := Move(ws, which, t1, Store(i));
        t' := AddUp(ws, which, t2, mask, first, i + 1);
      } else {
        assert m == m';
        t' := AddUp(ws, which, t, mask, first, i + 1);
      }
    }
  }

  /** A schedule after which exactly the picked increments are in the counter. */
  lemma Schedule(ws: seq<nat>, which: Which, t: Threads, mask: seq<bool>, first: nat) returns (t': Threads)
    requires Reaches(ws, t) && Sized(ws, t) && Ready(which, t) && first < |ws| == |mask| && mask[first]
    requires CounterOf(which, t) == Counter(0, AllBefore(|ws|), false)
    ensures Reaches(ws, t') && Sized(ws, t') && OnlyMoves(which, t, t')
    ensures forall j :: 0 <= j < |ws| ==> CounterOf(which, t').threads[j] == After
    ensures CounterOf(which, t').value == Sum(WeightsOf(which, ws), mask)
  {
    hide Reaches, Ready;
    t' := LoadEarly(ws, which, t, mask, first, 0);
    t' := StoreInVain(ws, which, t', mask, first, 0);
    t' := Move(ws, which, t', Store(first));
    var only := PickedSoFar(mask, first, 0);
    assert only == seq(|ws|, _ => false)[first := true];
    SumOfNone(WeightsOf(which, ws), seq(|ws|, _ => false));
    SumUpdate(WeightsOf(which, ws), seq(|ws|, _ => false), first);
    t' := AddUp(ws, which, t', mask, first, 0);
  }

  /** v is the sum of one or more of the weights. */
  ghost predicate IsSum(ws: seq<nat>, v: nat) {
    exists mask: seq<bool> :: |mask| == |ws| && true in mask && v == Sum(ws, mask)
  }

  lemma IsSumOfOnes(k: nat, n: nat)
    ensures IsSum(Ones(k), n) <==> 1 <= n <= k
  {
    if 1 <= n <= k {
      var mask := seq(k, i => i < n);
      FirstOnes(k, n);
      assert mask[0] && true in mask;
    }
    if IsSum(Ones(k), n) {
      var mask: seq<bool> :| |mask| == k && true in mask && n == Sum(Ones(k), mask);
      SumOfOnes(mask);
    }
  }

  lemma {:induction false} FirstOnes(k: nat, n: nat)
    requires n <= k
    ensures Sum(Ones(k), seq(k, i => i < n)) == n
  {
    if n == k {
      SumOfOnes(seq(k, i => i < n));
    } else {
      FirstOnes(k - 1, n);
      assert seq(k, i => i < n)[..k - 1] == seq(k - 1, i => i < n);
      assert Ones(k)[..k - 1] == Ones(k - 1);
    }
  }

  ghost predicate EndsWith(ws: seq<nat>, total: nat, done: nat, t: Threads) {
    Reaches(ws, t) && Sized(ws, t) && AllDone(t) && t.total.value == total && t.done.value == done
  }

  lemma EndValues(ws: seq<nat>, t: Threads, which: Which)
    requires |ws| > 0 && Reaches(ws, t) && Sized(ws, t) && AllDone(t)
    ensures IsSum(WeightsOf(which, ws), CounterOf(which, t).value)
  {
    var trace, steps :| Ends(ws, trace, steps, t);
    HoldsLastStore(ws, trace, steps, which);
    var stores := StoresTo(which, steps);
    assert CounterOf(which, t).threads[0] == After;
    assert (0 as nat) in stores;
    var mask :| Picks(WeightsOf(which, ws), CounterOf(which, t).threads, Last(stores), CounterOf(which, t).value, mask);
    assert mask[Last(stores)] && true in mask;
  }

  lemma SomePicked(mask: seq<bool>) returns (first: nat)
    requires true in mask
    ensures first < |mask| && mask[first]
  {
    first :| first < |mask| && mask[first];
  }

  /** What the two counters can hold when every thread has made both its increments: totalRecvSize
      the sum of any of the parts, one at least, and doneReceiveCount any number from 1 to k; all
      these combinations, and no others. */
  lemma EndValuesIff(ws: seq<nat>, total: nat, done: nat)
    requires |ws| > 0
    ensures (exists t :: EndsWith(ws, total, done, t)) <==> IsSum(ws, total) && 1 <= done <= |ws|
  {
    hide Reaches;
    IsSumOfOnes(|ws|, done);
    forall t | EndsWith(ws, total, done, t) ensures IsSum(ws, total) && IsSum(Ones(|ws|), done) {
      EndValues(ws, t, Total);
      EndValues(ws, t, Done);
    }
    if IsSum(ws, total) && 1 <= done <= |ws| {
      var mask: seq<bool> :| |mask| == |ws| && true in mask && total == Sum(ws, mask);
      var mask': seq<bool> :| |mask'| == |ws| && true in mask' && done == Sum(Ones(|ws|), mask');
      var first := SomePicked(mask);
      var first' := SomePicked(mask');
      Launched(ws);
      var t := Schedule(ws, Total, Launch(|ws|), mask, first);
      t := Schedule(ws, Done, t, mask', first');
      assert EndsWith(ws, total, done, t);
    }
  }

  // ----- the wait -----

  /** Exactly the threads that passed the wait are sending. */
  lemma {:induction false} SendingIsPassed(ws: seq<nat>, trace: seq<Threads>, steps: seq<ThreadStep>, i: nat)
    requires Interleaving(ws, trace, steps)
    ensures i in trace[|steps|].sending <==> PassBarrier(i) in steps
  {
    if steps != [] {
      var n := |steps| - 1;
      SendingIsPassed(ws, trace[..n + 1], steps[..n], i);
      assert steps == steps[..n] + [steps[n]];
    }
  }

  /** When all threads have made their increments and the done counter lost none, all can pass. */
  lemma {:induction false} AllPass(ws: seq<nat>, t: Threads, n: nat) returns (t': Threads)
    requires Reaches(ws, t) && Sized(ws, t) && AllDone(t) && !t.done.lost && n <= |ws|
    ensures Reaches(ws, t') && t' == t.(sending := t'.sending)
    ensures forall i: nat :: i in t'.sending <==> i in t.sending || i < n
  {
    if n == 0 {
      t' := t;
    } else {
      var t1 := AllPass(ws, t, n - 1);
      CountsAll(ws, t);
      hide Reaches;
      t' := Extend(ws, t1, PassBarrier(n - 1));
    }
  }

  lemma CountsAll(ws: seq<nat>, t: Threads)
    requires Reaches(ws, t)
    ensures t.done.value == |ws| <==> AllDone(t) && !t.done.lost
  {
    var trace, steps :| Ends(ws, trace, steps, t);
    InterleavingKeeps(ws, trace, steps);
    FullCountMeansAll(ws, t);
  }

  /** Every thread has stored both its increments, yet none can pass the wait. */
  ghost predicate Stuck(t: Threads) {
    && |t.total.threads| == |t.done.threads| && AllDone(t)
    && forall step :: !CanStep(|t.done.threads|, t, step)
  }

  lemma StuckIff(ws: seq<nat>, t: Threads)
    requires |ws| > 0 && Sized(ws, t) && AllDone(t)
    ensures Stuck(t) <==> t.done.value != |ws|
  {
    if t.done.value == |ws| { assert CanStep(|ws|, t, PassBarrier(0)); }
  }

  lemma OneIsSum(ws: seq<nat>)
    requires |ws| > 0
    ensures IsSum(ws, ws[0]) && (|ws| >= 2 && Positive(ws) ==> ws[0] < Sum(ws, seq(|ws|, _ => true)))
    ensures forall v :: |ws| == 1 && IsSum(ws, v) ==> v == ws[0]
  {
    var none := seq(|ws|, _ => false);
    SumOfNone(ws, none);
    SumUpdate(ws, none, 0);
    assert none[0 := true][0];
    if |ws| >= 2 {
      SumUpdate(ws, none[0 := true], 1);
      SumGrows(ws, none[0 := true][1 := true], seq(|ws|, _ => true));
    }
  }

  lemma ReachedIsSized(ws: seq<nat>, t: Threads)
    requires Reaches(ws, t)
    ensures Sized(ws, t)
  {
  }

  /** The wait can hang exactly when there are two threads or more: two of them load the same
      value, and when all have finished no one can move. */
  lemma BarrierHangsIff(ws: seq<nat>)
    requires |ws| > 0
    ensures (exists t :: Reaches(ws, t) && Stuck(t)) <==> |ws| >= 2
  {
    hide Reaches, Stuck, IsSum;
    OneIsSum(ws);
    if |ws| >= 2 {
      EndValuesIff(ws, ws[0], 1);
      var t :| EndsWith(ws, ws[0], 1, t);
      StuckIff(ws, t);
    } else {
      forall t | Reaches(ws, t) && AllDone(t) ensures !Stuck(t) {
        ReachedIsSized(ws, t);
        EndValuesIff(ws, t.total.value, t.done.value);
        assert EndsWith(ws, t.total.value, t.done.value, t);
        StuckIff(ws, t);
      }
      forall t | Reaches(ws, t) && Stuck(t) ensures AllDone(t) {
        StuckIsDone(t);
      }
    }
  }

  lemma StuckIsDone(t: Threads)
    requires Stuck(t)
    ensures AllDone(t)
  {
  }

  // ----- a total that falls short -----

  /** All parts are received and the wait is over, but totalRecvSize is below the sum of what the
      threads received: the disk gets that many bytes only, a proper prefix of the file. */
  predicate Truncates(ws: seq<nat>, t: Threads) {
    Sized(ws, t) && AllDone(t) && t.done.value == |ws| && t.total.value < Due(ws, t.total.threads)
  }

  lemma AllAreDue(ws: seq<nat>, t: Threads)
    requires Sized(ws, t) && AllDone(t)
    ensures Due(ws, t.total.threads) == Sum(ws, seq(|ws|, _ => true))
  {
    assert Finished(t.total.threads) == seq(|ws|, _ => true);
  }

  /** With no empty part, the wait can be passed with a total that falls short exactly when there
      are two threads or more: two of them load the same value, and one addition is lost. */
  lemma TruncatesIff(ws: seq<nat>)
    requires |ws| > 0 && Positive(ws)
    ensures (exists t :: Reaches(ws, t) && Truncates(ws, t)) <==> |ws| >= 2
  {
    hide Reaches, IsSum, Due;
    OneIsSum(ws);
    if |ws| >= 2 {
      EndValuesIff(ws, ws[0], |ws|);
      var t :| EndsWith(ws, ws[0], |ws|, t);
      AllAreDue(ws, t);
      assert Truncates(ws, t);
    } else {
      forall t | Reaches(ws, t) ensures !Truncates(ws, t) {
        if Truncates(ws, t) {
          EndValuesIff(ws, t.total.value, t.done.value);
          assert EndsWith(ws, t.total.value, t.done.value, t);
          AllAreDue(ws, t);
          OnlyOne(ws);
        }
      }
    }
  }

  lemma OnlyOne(ws: seq<nat>)
    requires |ws| == 1
    ensures Sum(ws, seq(|ws|, _ => true)) == ws[0]
  {
    assert Sum(ws[..0], seq(|ws|, _ => true)[..0]) == 0;
  }
}
