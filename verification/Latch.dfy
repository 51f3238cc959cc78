/** The strided summation: worker `i` adds the terms `i, i + T, i + 2T, ...`, which are
    grouped into buckets of `S` consecutive terms; a latch per bucket counts the workers
    still to pass it. A slot keeps the terms added to it, in order, so that it fixes the
    sum whatever the rounding. */
module Latches {
  import opened Arithmetic

  datatype Plan = Plan(limit: nat, threads: nat, bucketSize: nat) {
    /** The number of buckets. */
    function Buckets(): nat
      requires bucketSize >= 1
    {
      limit / bucketSize
    }

    /** What the program runs with: at least one bucket, no more threads than terms in
        a bucket, and no bucket cut off by the limit. */
    ghost predicate Good() {
      1 <= threads <= bucketSize && limit >= bucketSize && limit % bucketSize == 0
    }
  }

  // -------------------------------------------------------------- arithmetic

  lemma NextBucket(n: nat, t: nat, s: nat)
    requires 1 <= t <= s
    ensures n / s <= (n + t) / s <= n / s + 1
  {
    QuotientAtMost(n, n + t, s);
    QuotientAtMost(n + t, n + s, s);
    OneMore(n, s);
  }

  /** A stride never jumps over a bucket exactly when it is at most a bucket long. */
  lemma NoBucketSkippedIff(t: nat, s: nat)
    requires t >= 1 && s >= 1
    ensures (forall n: nat :: (n + t) / s <= n / s + 1) <==> t <= s
  {
    if t <= s {
      forall n: nat
        ensures (n + t) / s <= n / s + 1
      {
        NextBucket(n, t, s);
      }
    } else {
      LongStrideSkips(t, s);
    }
  }

  lemma LongStrideSkips(t: nat, s: nat)
    requires 1 <= s < t
    ensures (s - 1) / s == 0 && (s - 1 + t) / s >= 2
  {
    Division(s - 1, 0, s - 1, s);
    Division(s + s, 2, 0, s);
    QuotientAtMost(s + s, s - 1 + t, s);
  }

  lemma BeforeLimit(plan: Plan, n: nat)
    requires plan.Good()
    ensures n < plan.limit <==> n / plan.bucketSize < plan.Buckets()
  {
    var s, b := plan.bucketSize, plan.Buckets();
    DivisionEquation(plan.limit, s);
    if n < plan.limit {
      DivisionEquation(n, s);
      ProductsBack(n / s, b, s);
    } else {
      QuotientAtMost(plan.limit, n, s);
    }
  }

  lemma Residue(n: nat, k: nat, t: nat)
    requires t >= 1 && k <= t
    ensures (n + k) % t == n % t <==> k == 0 || k == t
  {
    var q, r := n / t, n % t;
    DivisionEquation(n, t);
    if r + k < t {
      Division(n + k, q, r + k, t);
    } else {
      assert (q + 1) * t == q * t + t;
      Division(n + k, q + 1, r + k - t, t);
    }
  }

  // ------------------------------------------------------------------ terms

  /** The terms of worker `i` in bucket `b` below `n`. */
  function Terms(plan: Plan, b: nat, i: nat, n: nat): seq<nat>
    requires plan.threads >= 1 && plan.bucketSize >= 1
  {
    if n == 0 then [] else
      Terms(plan, b, i, n - 1) + if (n - 1) % plan.threads == i && (n - 1) / plan.bucketSize == b then [n - 1] else []
  }

  predicate Increasing(s: seq<nat>) {
    forall j, k :: 0 <= j < k < |s| ==> s[j] < s[k]
  }

  /** Those terms, all of them, each once. */
  lemma {:induction false} TermsExactly(plan: Plan, b: nat, i: nat, n: nat)
    requires plan.threads >= 1 && plan.bucketSize >= 1
    ensures Increasing(Terms(plan, b, i, n))
    ensures forall m :: m in Terms(plan, b, i, n) <==> m < n && m % plan.threads == i && m / plan.bucketSize == b
  {
    if n > 0 {
      TermsExactly(plan, b, i, n - 1);
      var front := Terms(plan, b, i, n - 1);
      forall k | 0 <= k < |front|
        ensures front[k] < n - 1
      {
        assert front[k] in front;
      }
    }
  }

  /** A stride adds one term to the bucket it starts in. */
  lemma {:induction false} TermsStride(plan: Plan, b: nat, i: nat, n: nat, k: nat)
    requires plan.threads >= 1 && plan.bucketSize >= 1 && n % plan.threads == i && 1 <= k <= plan.threads
    ensures Terms(plan, b, i, n + k) == Terms(plan, b, i, n) + if n / plan.bucketSize == b then [n] else []
  {
    if k > 1 {
      TermsStride(plan, b, i, n, k - 1);
      Residue(n, k - 1, plan.threads);
    }
  }

  /** Beyond a bucket nothing is added to it. */
  lemma {:induction false} TermsBeyond(plan: Plan, b: nat, i: nat, n: nat, n': nat)
    requires plan.threads >= 1 && plan.bucketSize >= 1 && n <= n' && n / plan.bucketSize > b
    ensures Terms(plan, b, i, n') == Terms(plan, b, i, n)
  {
    if n < n' {
      TermsBeyond(plan, b, i, n, n' - 1);
      QuotientAtMost(n, n' - 1, plan.bucketSize);
    }
  }

  lemma {:induction false} TermsBefore(plan: Plan, b: nat, i: nat, n: nat)
    requires plan.threads >= 1 && plan.bucketSize >= 1 && n <= i
    ensures Terms(plan, b, i, n) == []
  {
    if n > 0 {
      TermsBefore(plan, b, i, n - 1);
      RemainderAtMost(n - 1, plan.threads);
    }
  }

  // ------------------------------------------------------- the code of a worker

  /** One arrival at the latch of bucket `b`; whether the waiter must be woken up. */
  function ArriveAt(latches: seq<int>, b: nat): (bool, seq<int>)
    requires b < |latches|
  {
    (latches[b] - 1 == 0, latches[b := latches[b] - 1])
  }

  /** One more term in a slot. */
  function AddTerm(slots: map<(nat, nat), seq<nat>>, slot: (nat, nat), num: nat): map<(nat, nat), seq<nat>>
    requires slot in slots
  {
    slots[slot := slots[slot] + [num]]
  }

  class State {
    const plan: Plan
    var latches: seq<int>
    var slots: map<(nat, nat), seq<nat>>

    ghost predicate Valid()
      reads this
    {
      plan.Good() && |latches| == plan.Buckets() && HasSlots(plan, slots)
    }

    constructor (plan: Plan)
      requires plan.Good()
      ensures Valid() && this.plan == plan
      ensures forall b :: 0 <= b < plan.Buckets() ==> latches[b] == plan.threads
      ensures forall b, i :: (b, i) in slots ==> slots[(b, i)] == []
    {
      this.plan := plan;
      latches := seq(plan.Buckets(), _ => plan.threads);
      slots := map b: nat, i: nat | b < plan.Buckets() && i < plan.threads :: (b, i) := [];
    }

    /** One arrival at the latch of a bucket; whether it must wake the waiter up. */
    method Arrive(bucket: nat) returns (notifyAll: bool)
      requires bucket < |latches|
      modifies this`latches
      ensures (notifyAll, latches) == ArriveAt(old(latches), bucket)
    {
      latches := latches[bucket := latches[bucket] - 1];
      notifyAll := latches[bucket] == 0;
    }

    /** A worker, taken alone: it arrives once at every bucket, and adds its terms to
        its own slots. */
    method Worker(i: nat)
      requires Valid() && i < plan.threads
      modifies this
      ensures Valid()
      ensures forall b :: 0 <= b < plan.Buckets() ==> latches[b] == old(latches[b]) - 1
      ensures forall b: nat, j: nat :: InPlan(plan, b, j) ==>
        slots[(b, j)] == old(slots[(b, j)]) + if j == i then Terms(plan, b, i, plan.limit) else []
    {
      hide Terms;
      var prevBucket, num := 0, i;
      WorkerStarts(plan, i);
      while num < plan.limit
        invariant Valid() && OnTrack(plan, i, Local(num, prevBucket, false))
        invariant forall b :: 0 <= b < plan.Buckets() ==>
            latches[b] == old(latches[b]) - if b < prevBucket then 1 else 0
        invariant SlotsAdded(plan, i, num, old(slots), slots)
        decreases plan.limit - num
      {
        var bucket := num / plan.bucketSize;
        BeforeLimit(plan, num);
        if bucket > prevBucket {
          var _ := Arrive(prevBucket);
          prevBucket := bucket;
        }
        ghost var before := slots;
        slots := AddTerm(slots, (bucket, i), num);
        SlotsStride(plan, i, num, old(slots), before, slots);
        WorkerAdds(plan, i, Local(num, prevBucket, false));
        num := num + plan.threads;
      }
      WorkerEnds(plan, i, Local(num, prevBucket, false));
      var _ := Arrive(prevBucket);
      SlotsDone(plan, i, num, old(slots), slots);
    }
  }

  ghost predicate InPlan(plan: Plan, b: nat, i: nat)
    requires plan.bucketSize >= 1
  {
    b < plan.Buckets() && i < plan.threads
  }

  ghost predicate HasSlots(plan: Plan, slots: map<(nat, nat), seq<nat>>)
    requires plan.bucketSize >= 1
  {
    forall b: nat, i: nat :: InPlan(plan, b, i) ==> (b, i) in slots
  }

  /** Worker `i` has added its terms below `n` to what the slots had at first. */
  ghost predicate SlotsAdded(plan: Plan, i: nat, n: nat, first: map<(nat, nat), seq<nat>>,
          slots: map<(nat, nat), seq<nat>>)
    requires plan.Good() && HasSlots(plan, first) && HasSlots(plan, slots)
  {
    forall b: nat, j: nat :: InPlan(plan, b, j) ==>
        slots[(b, j)] == first[(b, j)] + if j == i then Terms(plan, b, i, n) else []
  }

  lemma SlotsStride(plan: Plan, i: nat, n: nat, first: map<(nat, nat), seq<nat>>, before: map<(nat, nat), seq<nat>>,
          after: map<(nat, nat), seq<nat>>)
    requires plan.Good() && HasSlots(plan, first) && HasSlots(plan, before) && n % plan.threads == i
    requires SlotsAdded(plan, i, n, first, before) && InPlan(plan, n / plan.bucketSize, i)
    requires after == before[(n / plan.bucketSize, i) := before[(n / plan.bucketSize, i)] + [n]]
    ensures HasSlots(plan, after) && SlotsAdded(plan, i, n + plan.threads, first, after)
  {
    hide Terms;
    forall b: nat, j: nat | InPlan(plan, b, j)
      ensures after[(b, j)] == first[(b, j)] + if j == i then Terms(plan, b, i, n + plan.threads) else []
    {
      TermsStride(plan, b, i, n, plan.threads);
    }
  }

  lemma SlotsDone(plan: Plan, i: nat, n: nat, first: map<(nat, nat), seq<nat>>, slots: map<(nat, nat), seq<nat>>)
    requires plan.Good() && HasSlots(plan, first) && HasSlots(plan, slots) && n >= plan.limit
    requires SlotsAdded(plan, i, n, first, slots)
    ensures SlotsAdded(plan, i, plan.limit, first, slots)
  {
    hide Terms;
    BeforeLimit(plan, plan.limit);
    forall b: nat, j: nat | InPlan(plan, b, j)
      ensures Terms(plan, b, i, n) == Terms(plan, b, i, plan.limit)
    {
      TermsBeyond(plan, b, i, plan.limit, n);
    }
  }

  /** The variables of a worker: its next term and the bucket it is in. */
  datatype Local = Local(next: nat, prev: nat, finished: bool)

  /** A worker has the next term of its stride, and it has not got ahead of its bucket
      by more than one. */
  ghost predicate OnTrack(plan: Plan, i: nat, w: Local)
    requires plan.Good()
  {
    && w.next % plan.threads == i && w.prev < plan.Buckets()
    && w.prev <= w.next / plan.bucketSize <= w.prev + 1
    && (w.finished ==> w.next >= plan.limit && w.prev == plan.Buckets() - 1)
  }

  lemma WorkerStarts(plan: Plan, i: nat)
    requires plan.Good() && i < plan.threads
    ensures OnTrack(plan, i, Local(i, 0, false))
    ensures forall b: nat :: Terms(plan, b, i, i) == []
  {
    forall b: nat
      ensures Terms(plan, b, i, i) == []
    {
      TermsBefore(plan, b, i, i);
    }
    Division(i, 0, i, plan.threads);
    Division(i, 0, i, plan.bucketSize);
    BeforeLimit(plan, 0);
  }

  lemma WorkerAdds(plan: Plan, i: nat, w: Local)
    requires plan.Good() && OnTrack(plan, i, w) && !w.finished && w.next < plan.limit
        && w.prev == w.next / plan.bucketSize
    ensures OnTrack(plan, i, w.(next := w.next + plan.threads))
  {
    OneMore(w.next, plan.threads);
    NextBucket(w.next, plan.threads, plan.bucketSize);
  }

  /** Past the limit a worker is in the last bucket. */
  lemma WorkerEnds(plan: Plan, i: nat, w: Local)
    requires plan.Good() && OnTrack(plan, i, w) && w.next >= plan.limit
    ensures w.prev == plan.Buckets() - 1
  {
    BeforeLimit(plan, w.next);
  }

  // ------------------------------------------- all workers and the waiting loop

  /** The main thread sums the buckets in order: `Ready` to look at latch `at`, or
      asleep in its `Wait`. */
  datatype Main = Ready(at: nat) | Asleep(at: nat)

  datatype Global = Global(workers: seq<Local>, latches: seq<int>, slots: map<(nat, nat), seq<nat>>, waiter: Main)

  datatype Step = Add(i: nat) | Cross(i: nat) | Finish(i: nat) | Look | WakeUp

  ghost predicate Shaped(plan: Plan, s: Global) {
    && plan.Good() && |s.workers| == plan.threads && |s.latches| == plan.Buckets()
    && HasSlots(plan, s.slots) && s.waiter.at <= plan.Buckets()
  }

  /** A worker about to add a term of a later bucket first arrives at the latch of the
      bucket it leaves; `Add` is the rest of the loop body. */
  ghost predicate Enabled(plan: Plan, s: Global, step: Step)
    requires Shaped(plan, s)
  {
    match step
    case Add(i) => i < plan.threads && var w := s.workers[i];
      !w.finished && w.next < plan.limit && w.next / plan.bucketSize <= w.prev
          && InPlan(plan, w.next / plan.bucketSize, i)
    case Cross(i) => i < plan.threads && var w := s.workers[i];
      !w.finished && w.next < plan.limit && w.next / plan.bucketSize > w.prev && w.prev < plan.Buckets()
    case Finish(i) => i < plan.threads && var w := s.workers[i];
      !w.finished && w.next >= plan.limit && w.prev < plan.Buckets()
    case Look => s.waiter.Ready? && s.waiter.at < plan.Buckets()
    case WakeUp => s.waiter.Asleep?
  }

  /** An arrival decrements under the mutex and wakes the waiter up at zero. */
  ghost function Arrived(s: Global, b: nat): Global
    requires b < |s.latches|
  {
    var (notifies, latches) := ArriveAt(s.latches, b);
    s.(latches := latches,
       waiter := if notifies && s.waiter.Asleep? && s.waiter.at == b then Ready(b) else s.waiter)
  }

  ghost function Apply(plan: Plan, s: Global, step: Step): Global
    requires Shaped(plan, s) && Enabled(plan, s, step)
  {
    match step
    case Add(i) =>
      var w := s.workers[i];
      var slot := (w.next / plan.bucketSize, i);
      s.(workers := s.workers[i := w.(next := w.next + plan.threads)],
          slots := AddTerm(s.slots, slot, w.next))
    case Cross(i) =>
      var w := s.workers[i];
      Arrived(s, w.prev).(workers := s.workers[i := w.(prev := w.next / plan.bucketSize)])
    case Finish(i) =>
      var w := s.workers[i];
      Arrived(s, w.prev).(workers := s.workers[i := w.(finished := true)])
    case Look => s.(waiter := if s.latches[s.waiter.at] == 0 then Ready(s.waiter.at + 1) else Asleep(s.waiter.at))
    case WakeUp => s.(waiter := Ready(s.waiter.at))
  }

  ghost predicate Init(plan: Plan, s: Global) {
    && Shaped(plan, s) && s.waiter == Ready(0)
    && (forall i :: 0 <= i < plan.threads ==> s.workers[i] == Local(i, 0, false))
    && (forall b :: 0 <= b < plan.Buckets() ==> s.latches[b] == plan.threads)
    && (forall b: nat, i: nat :: InPlan(plan, b, i) ==> s.slots[(b, i)] == [])
  }

  /** Whether a worker has arrived at the latch of bucket `b`. */
  predicate Passed(w: Local, b: nat) {
    w.finished || b < w.prev
  }

  ghost function StillIn(workers: seq<Local>, b: nat): set<nat> {
    set i: nat | i < |workers| && !Passed(workers[i], b)
  }

  ghost predicate LatchesCount(plan: Plan, s: Global)
    requires Shaped(plan, s)
  {
    forall b :: 0 <= b < plan.Buckets() ==> s.latches[b] == |StillIn(s.workers, b)|
  }

  ghost predicate SlotsHold(plan: Plan, s: Global)
    requires Shaped(plan, s)
  {
    forall b: nat, i: nat :: InPlan(plan, b, i) ==> s.slots[(b, i)] == Terms(plan, b, i, s.workers[i].next)
  }

  ghost predicate WaiterKnows(plan: Plan, s: Global)
    requires Shaped(plan, s)
  {
    && (forall b :: 0 <= b < s.waiter.at ==> s.latches[b] == 0)
    && (s.waiter.Asleep? ==> s.waiter.at < plan.Buckets() && s.latches[s.waiter.at] != 0)
  }

  ghost predicate Inv(plan: Plan, s: Global) {
    && Shaped(plan, s)
    && (forall i :: 0 <= i < plan.threads ==> OnTrack(plan, i, s.workers[i]))
    && LatchesCount(plan, s) && SlotsHold(plan, s) && WaiterKnows(plan, s)
  }

  lemma InitHasInv(plan: Plan, s: Global)
    requires Init(plan, s)
    ensures Inv(plan, s)
  {
    hide Terms, OnTrack;
    forall i: nat | i < plan.threads
      ensures OnTrack(plan, i, s.workers[i]) && forall b: nat :: Terms(plan, b, i, i) == []
    {
      WorkerStarts(plan, i);
    }
    forall b: nat | b < plan.Buckets()
      ensures |StillIn(s.workers, b)| == plan.threads
    {
      NobodyPassed(s.workers, b);
    }
  }

  lemma {:induction false} NobodyPassed(workers: seq<Local>, b: nat)
    requires forall i :: 0 <= i < |workers| ==> !Passed(workers[i], b)
    ensures |StillIn(workers, b)| == |workers|
  {
    if workers == [] {
      assert StillIn(workers, b) == {};
    } else {
      var n := |workers| - 1;
      NobodyPassed(workers[..n], b);
      assert StillIn(workers, b) == StillIn(workers[..n], b) + {n};
    }
  }

  lemma AddKeepsInv(plan: Plan, s: Global, i: nat)
    requires Inv(plan, s) && Enabled(plan, s, Add(i))
    ensures Inv(plan, Apply(plan, s, Add(i)))
  {
    hide Terms, OnTrack;
    var w, s' := s.workers[i], Apply(plan, s, Add(i));
    OnTrackHere(plan, i, w);
    WorkerAdds(plan, i, w);
    forall b: nat | b < plan.Buckets()
      ensures StillIn(s'.workers, b) == StillIn(s.workers, b)
    {
    }
    forall b: nat, j: nat | InPlan(plan, b, j)
      ensures s'.slots[(b, j)] == Terms(plan, b, j, s'.workers[j].next)
    {
      TermsStride(plan, b, i, w.next, plan.threads);
    }
  }

  lemma OnTrackHere(plan: Plan, i: nat, w: Local)
    requires plan.Good() && OnTrack(plan, i, w)
    ensures w.next % plan.threads == i && w.prev < plan.Buckets()
    ensures w.prev <= w.next / plan.bucketSize <= w.prev + 1
  {
  }

  /** One worker has moved on and so is counted by one latch less. */
  lemma ArrivalKeepsCount(plan: Plan, s: Global, i: nat, w': Local)
    requires Shaped(plan, s) && LatchesCount(plan, s) && WaiterKnows(plan, s) && i < plan.threads
    requires s.workers[i].prev < plan.Buckets()
    requires forall b :: 0 <= b < plan.Buckets() ==>
        (Passed(w', b) <==> Passed(s.workers[i], b) || b == s.workers[i].prev)
    requires !Passed(s.workers[i], s.workers[i].prev)
    ensures var s' := Arrived(s, s.workers[i].prev).(workers := s.workers[i := w']);
            Shaped(plan, s') && LatchesCount(plan, s') && WaiterKnows(plan, s')
  {
    var p := s.workers[i].prev;
    var s' := Arrived(s, p).(workers := s.workers[i := w']);
    assert i in StillIn(s.workers, p);
    forall b: nat | b < plan.Buckets()
      ensures StillIn(s'.workers, b) == StillIn(s.workers, b) - if b == p then {i} else {}
    {
    }
  }

  lemma CrossKeepsInv(plan: Plan, s: Global, i: nat)
    requires Inv(plan, s) && Enabled(plan, s, Cross(i))
    ensures Inv(plan, Apply(plan, s, Cross(i)))
  {
    hide Terms, LatchesCount, WaiterKnows, StillIn, Arrived;
    var w := s.workers[i];
    BeforeLimit(plan, w.next);
    ArrivalKeepsCount(plan, s, i, w.(prev := w.next / plan.bucketSize));
    ArrivedKeeps(s, w.prev);
  }

  lemma ArrivedKeeps(s: Global, b: nat)
    requires b < |s.latches|
    ensures Arrived(s, b).workers == s.workers && Arrived(s, b).slots == s.slots
        && Arrived(s, b).waiter.at == s.waiter.at
    ensures |Arrived(s, b).latches| == |s.latches|
  {
  }

  lemma FinishKeepsInv(plan: Plan, s: Global, i: nat)
    requires Inv(plan, s) && Enabled(plan, s, Finish(i))
    ensures Inv(plan, Apply(plan, s, Finish(i)))
  {
    hide Terms, LatchesCount, WaiterKnows, StillIn, Arrived;
    var w := s.workers[i];
    WorkerEnds(plan, i, w);
    ArrivalKeepsCount(plan, s, i, w.(finished := true));
    ArrivedKeeps(s, w.prev);
  }

  lemma StepKeepsInv(plan: Plan, s: Global, step: Step)
    requires Inv(plan, s) && Enabled(plan, s, step)
    ensures Inv(plan, Apply(plan, s, step))
  {
    hide Inv;
    match step
    case Add(i) => AddKeepsInv(plan, s, i);
    case Cross(i) => CrossKeepsInv(plan, s, i);
    case Finish(i) => FinishKeepsInv(plan, s, i);
    case Look => WaiterKeepsInv(plan, s, step);
    case WakeUp => WaiterKeepsInv(plan, s, step);
  }

  lemma WaiterKeepsInv(plan: Plan, s: Global, step: Step)
    requires Inv(plan, s) && Enabled(plan, s, step) && (step.Look? || step.WakeUp?)
    ensures Inv(plan, Apply(plan, s, step))
  {
    hide Terms, StillIn, OnTrack;
  }

  ghost predicate Run(plan: Plan, states: seq<Global>, steps: seq<Step>) {
    && |states| == |steps| + 1 && Init(plan, states[0])
    && forall k :: 0 <= k < |steps| ==> Moves(plan, states[k], steps[k], states[k + 1])
  }

  ghost predicate Moves(plan: Plan, s: Global, step: Step, s': Global) {
    Shaped(plan, s) && Enabled(plan, s, step) && s' == Apply(plan, s, step)
  }

  lemma {:induction false} RunKeepsInv(plan: Plan, states: seq<Global>, steps: seq<Step>, n: nat)
    requires Run(plan, states, steps) && n < |states|
    ensures Inv(plan, states[n])
  {
    hide Inv, Init, Moves;
    if n == 0 {
      InitHasInv(plan, states[0]);
    } else {
      RunKeepsInv(plan, states, steps, n - 1);
      assert Moves(plan, states[n - 1], steps[n - 1], states[n]);
      MoveKeepsInv(plan, states[n - 1], steps[n - 1], states[n]);
    }
  }

  lemma MoveKeepsInv(plan: Plan, s: Global, step: Step, s': Global)
    requires Inv(plan, s) && Moves(plan, s, step, s')
    ensures Inv(plan, s')
  {
    hide Inv, Apply;
    StepKeepsInv(plan, s, step);
  }

  /** When `Wait` has returned for a bucket, every slot of it holds exactly the terms of
      its worker, whatever the interleaving; `TermsExactly` says which those are. */
  lemma WaitMeansComplete(plan: Plan, states: seq<Global>, steps: seq<Step>, n: nat, b: nat, i: nat)
    requires Run(plan, states, steps) && n < |states|
    requires b < states[n].waiter.at && i < plan.threads
    ensures Inv(plan, states[n]) && InPlan(plan, b, i)
    ensures states[n].slots[(b, i)] == Terms(plan, b, i, plan.limit)
  {
    RunKeepsInv(plan, states, steps, n);
    PassedMeansComplete(plan, states[n], b, i);
  }

  /** And so every term of the bucket has been added exactly once: to the slot of one
      worker, where it occurs once, and to no other. */
  lemma EveryTermOnce(plan: Plan, states: seq<Global>, steps: seq<Step>, n: nat, b: nat, m: nat)
    requires Run(plan, states, steps) && n < |states| && b < states[n].waiter.at
    ensures Inv(plan, states[n]) && forall i: nat :: i < plan.threads ==> (b, i) in states[n].slots
    ensures m < plan.limit && m / plan.bucketSize == b ==>
        forall i: nat :: i < plan.threads ==>
          multiset(states[n].slots[(b, i)])[m] == if i == m % plan.threads then 1 else 0
    ensures !(m < plan.limit && m / plan.bucketSize == b) ==>
        forall i: nat :: i < plan.threads ==> m !in states[n].slots[(b, i)]
  {
    hide Terms;
    RunKeepsInv(plan, states, steps, n);
    forall i: nat | i < plan.threads
      ensures (b, i) in states[n].slots
      ensures states[n].slots[(b, i)] == Terms(plan, b, i, plan.limit)
      ensures multiset(states[n].slots[(b, i)])[m]
           == if m < plan.limit && m % plan.threads == i && m / plan.bucketSize == b then 1 else 0
    {
      WaitMeansComplete(plan, states, steps, n, b, i);
      TermsExactly(plan, b, i, plan.limit);
      OccursOnce(Terms(plan, b, i, plan.limit), m);
    }
  }

  lemma {:induction false} OccursOnce(s: seq<nat>, m: nat)
    requires Increasing(s)
    ensures multiset(s)[m] == if m in s then 1 else 0
  {
    if s != [] {
      var front, last := s[..|s| - 1], s[|s| - 1];
      OccursOnce(front, m);
      assert s == front + [last];
      assert last !in front;
    }
  }

  lemma PassedMeansComplete(plan: Plan, s: Global, b: nat, i: nat)
    requires Inv(plan, s) && b < s.waiter.at && i < plan.threads
    ensures InPlan(plan, b, i) && s.slots[(b, i)] == Terms(plan, b, i, plan.limit)
  {
    hide Terms;
    var w := s.workers[i];
    assert s.latches[b] == 0;
    assert StillIn(s.workers, b) == {};
    assert Passed(w, b) by {
      assert i !in StillIn(s.workers, b);
    }
    BeforeLimit(plan, plan.limit);
    BeforeLimit(plan, w.next);
    if w.next < plan.limit {
      TermsBeyond(plan, b, i, w.next, plan.limit);
    } else {
      TermsBeyond(plan, b, i, plan.limit, w.next);
    }
  }

  /** How often worker `i` has arrived at the latch of bucket `b` in the first `n` steps. */
  ghost function Arrivals(states: seq<Global>, steps: seq<Step>, i: nat, b: nat, n: nat): nat
    requires n <= |steps| <= |states|
  {
    if n == 0 then 0 else
      Arrivals(states, steps, i, b, n - 1)
      + (if (steps[n - 1] == Cross(i) || steps[n - 1] == Finish(i))
            && i < |states[n - 1].workers| && states[n - 1].workers[i].prev == b then 1 else 0)
  }

  /** No worker arrives twice at a latch, and once it has passed a bucket it has arrived
      there: no bucket is skipped. */
  lemma {:induction false} ArrivesOnce(plan: Plan, states: seq<Global>, steps: seq<Step>, i: nat, b: nat, n: nat)
    requires Run(plan, states, steps) && n < |states| && InPlan(plan, b, i)
    ensures Inv(plan, states[n])
    ensures Arrivals(states, steps, i, b, n) == if Passed(states[n].workers[i], b) then 1 else 0
  {
    RunKeepsInv(plan, states, steps, n);
    hide Inv, Init;
    if n == 0 {
      StartsUnpassed(plan, states[0], i, b);
    } else {
      ArrivesOnce(plan, states, steps, i, b, n - 1);
      assert Moves(plan, states[n - 1], steps[n - 1], states[n]);
      OneArrival(plan, states[n - 1], steps[n - 1], i, b);
    }
  }

  lemma StartsUnpassed(plan: Plan, s: Global, i: nat, b: nat)
    requires Init(plan, s) && i < plan.threads
    ensures !Passed(s.workers[i], b)
  {
  }

  lemma OneArrival(plan: Plan, s: Global, step: Step, i: nat, b: nat)
    requires Inv(plan, s) && Enabled(plan, s, step) && InPlan(plan, b, i)
    ensures Inv(plan, Apply(plan, s, step))
    ensures var arrives := (step == Cross(i) || step == Finish(i)) && s.workers[i].prev == b;
            && (arrives ==> !Passed(s.workers[i], b))
            && (Passed(Apply(plan, s, step).workers[i], b) <==> Passed(s.workers[i], b) || arrives)
  {
    StepKeepsInv(plan, s, step);
    hide LatchesCount, SlotsHold, WaiterKnows;
    assert OnTrack(plan, i, s.workers[i]);
    if step == Finish(i) {
      WorkerEnds(plan, i, s.workers[i]);
    }
  }

  /** In no reachable state is everyone stuck: a worker can go on, or all have finished
      and the waiter, if it has buckets left, is awake and passes the next one. */
  lemma NeverStuck(plan: Plan, states: seq<Global>, steps: seq<Step>, n: nat)
    requires Run(plan, states, steps) && n < |states|
    ensures Inv(plan, states[n])
    ensures var s := states[n];
            || (exists i: nat :: i < plan.threads &&
                  (Enabled(plan, s, Add(i)) || Enabled(plan, s, Cross(i)) || Enabled(plan, s, Finish(i))))
            || s.waiter == Ready(plan.Buckets())
            || (Enabled(plan, s, Look) && Apply(plan, s, Look).waiter == Ready(s.waiter.at + 1))
  {
    RunKeepsInv(plan, states, steps, n);
    var s := states[n];
    if i: nat :| i < plan.threads && !s.workers[i].finished {
      var w := s.workers[i];
      assert OnTrack(plan, i, w);
      BeforeLimit(plan, w.next);
      assert Enabled(plan, s, Add(i)) || Enabled(plan, s, Cross(i)) || Enabled(plan, s, Finish(i));
    } else if s.waiter.at < plan.Buckets() {
      assert StillIn(s.workers, s.waiter.at) == {};
    }
  }
}
