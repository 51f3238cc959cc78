/** The FIFO `Semaphore` with its default callback. Every mutex section is one
    atomic step, and a sleeping thread wakes up only when it is notified. */
module Semaphores {
  /** The fields that the mutex guards. */
  datatype Guarded = Guarded(count: int, waiting: seq<nat>, gen: nat)

  /** `Enter` up to its wait: the signature to wait with, or 0 if it went through. */
  function Entering(g: Guarded): (nat, Guarded) {
    if g.count == 0 || g.waiting != [] then
      (g.gen + 1, Guarded(g.count, g.waiting + [g.gen + 1], g.gen + 1))
    else (0, g.(count := g.count - 1))
  }

  /** `Enter` after a notification; whether it went through. */
  function Resuming(g: Guarded, signature: nat): (bool, Guarded)
    requires g.waiting != []
  {
    if g.waiting[0] == signature then (true, Guarded(g.count - 1, g.waiting[1..], g.gen)) else (false, g)
  }

  class Semaphore {
    var count: int
    var waiting: seq<nat>
    var signatureGen: nat

    function Fields(): Guarded
      reads this
    {
      Guarded(count, waiting, signatureGen)
    }

    constructor (count: int)
      ensures Fields() == Guarded(count, [], 0)
    {
      this.count, waiting, signatureGen := count, [], 0;
    }

    method Enter() returns (signature: nat)
      modifies this
      ensures (signature, Fields()) == Entering(old(Fields()))
    {
      if count == 0 || waiting != [] {
        signatureGen := signatureGen + 1;
        waiting := waiting + [signatureGen];
        return signatureGen;
      }
      count := count - 1;
      return 0;
    }

    method Resume(signature: nat) returns (through: bool)
      requires waiting != []
      modifies this
      ensures (through, Fields()) == Resuming(old(Fields()), signature)
    {
      if waiting[0] == signature {
        waiting := waiting[1..];
        count := count - 1;
        return true;
      }
      return false;
    }

    method Leave()
      modifies this`count
      ensures Fields() == old(Fields()).(count := old(count) + 1)
    {
      count := count + 1;
    }
  }

  // ------------------------------------------------------------ the protocol

  type Thread = nat

  datatype Place = Outside | Asleep(signature: nat) | Awake(signature: nat)

  /** `order` are the threads behind the queued signatures; `arrivals` lists the
      threads by their first locking of the mutex in `Enter`, `served` by their
      callback. */
  datatype State = State(count: int, queue: seq<nat>, gen: nat, place: map<Thread, Place>,
                         order: seq<Thread>, arrivals: seq<Thread>, served: seq<Thread>)

  /** `picked` is the sleeper that a `notify_one` wakes, if there is one. */
  datatype Step = Enter(t: Thread) | Resume(t: Thread, picked: set<Thread>) | Leave(picked: set<Thread>)

  ghost function Sleepers(s: State): set<Thread> {
    set t | t in s.place && s.place[t].Asleep?
  }

  ghost function Woken(s: State): set<Thread> {
    set t | t in s.place && s.place[t].Awake?
  }

  ghost predicate Picks(s: State, picked: set<Thread>) {
    picked <= Sleepers(s) && |picked| <= 1 && (Sleepers(s) != {} ==> |picked| == 1)
  }

  ghost predicate Enabled(s: State, step: Step) {
    match step
    case Enter(t) => t in s.place && s.place[t].Outside?
    case Resume(t, picked) =>
      && t in s.place && s.place[t].Awake? && s.queue != [] && s.order != []
      && if s.queue[0] == s.place[t].signature then picked == {} else Picks(s, picked)
    case Leave(picked) => Picks(s, picked)
  }

  function Wake(place: map<Thread, Place>, picked: set<Thread>): map<Thread, Place> {
    map t | t in place :: if t in picked && place[t].Asleep? then Awake(place[t].signature) else place[t]
  }

  ghost function Apply(s: State, step: Step): State
    requires Enabled(s, step)
  {
    match step
    case Enter(t) =>
      if s.count == 0 || s.queue != [] then
        var signature := s.gen + 1;
        s.(gen := signature, queue := s.queue + [signature], place := s.place[t := Asleep(signature)],
           order := s.order + [t], arrivals := s.arrivals + [t])
      else s.(count := s.count - 1, arrivals := s.arrivals + [t], served := s.served + [t])
    case Resume(t, picked) =>
      if s.queue[0] == s.place[t].signature then
        s.(count := s.count - 1, queue := s.queue[1..], place := s.place[t := Outside],
           order := s.order[1..], served := s.served + [t])
      else s.(place := Wake(s.place, picked)[t := Asleep(s.place[t].signature)])
    case Leave(picked) => s.(count := s.count + 1, place := Wake(s.place, picked))
  }

  function Shared(s: State): Guarded {
    Guarded(s.count, s.queue, s.gen)
  }

  /** The steps do to the guarded fields, and to the stepping thread, what the
      methods of the class do. */
  lemma StepsAreTheMethods(s: State, step: Step)
    requires Enabled(s, step)
    ensures var s' := Apply(s, step);
            match step
            case Enter(t) =>
              var (signature, g) := Entering(Shared(s));
              Shared(s') == g && t in s'.place && s'.place[t] == if signature == 0 then Outside else Asleep(signature)
            case Resume(t, _) =>
              var (through, g) := Resuming(Shared(s), s.place[t].signature);
              Shared(s') == g && t in s'.place
                  && s'.place[t] == if through then Outside else Asleep(s.place[t].signature)
            case Leave(_) => Shared(s') == Shared(s).(count := s.count + 1)
  {
    hide Picks;
  }

  ghost predicate Init(s: State) {
    && s.count >= 0 && s == State(s.count, [], 0, s.place, [], [], [])
    && forall t :: t in s.place ==> s.place[t] == Outside
  }

  ghost predicate WaitsWith(s: State, t: Thread, signature: nat) {
    t in s.place && (s.place[t] == Asleep(signature) || s.place[t] == Awake(signature))
  }

  /** The queue, in ascending order of signatures, is the queue of waiting threads. */
  ghost predicate QueueOk(s: State) {
    && |s.order| == |s.queue|
    && (forall i :: 0 <= i < |s.queue| ==> WaitsWith(s, s.order[i], s.queue[i]) && s.queue[i] <= s.gen)
    && (forall i, j :: 0 <= i < j < |s.queue| ==> s.queue[i] < s.queue[j])
    && (forall t :: t in s.place && !s.place[t].Outside? ==> t in s.order)
    && s.arrivals == s.served + s.order
  }

  ghost predicate Inv(s: State) {
    QueueOk(s) && s.count >= |Woken(s)|
  }

  lemma EnterKeepsInv(s: State, t: Thread)
    requires Inv(s) && Enabled(s, Enter(t))
    ensures Inv(Apply(s, Enter(t)))
  {
    var s' := Apply(s, Enter(t));
    assert Woken(s') == Woken(s);
    if s.count == 0 || s.queue != [] {
      assert s'.order[|s.order|] == t;
      forall u | u in s'.place && !s'.place[u].Outside?
        ensures u in s'.order
      {
        if u != t {
          var i :| 0 <= i < |s.order| && s.order[i] == u;
          assert s'.order[i] == u;
        }
      }
      assert s.arrivals + [t] == s.served + (s.order + [t]);
    } else {
      assert Woken(s) == {};
      assert s.arrivals + [t] == s.served + [t] + [];
    }
  }

  lemma ServedIsFirst(s: State, t: Thread)
    requires QueueOk(s) && t in s.place && s.place[t].Awake? && s.queue != [] && s.queue[0] == s.place[t].signature
    ensures t == s.order[0]
  {
    var i :| 0 <= i < |s.order| && s.order[i] == t;
    assert WaitsWith(s, s.order[i], s.queue[i]);
    assert i == 0;
  }

  lemma ServeKeepsInv(s: State, t: Thread, picked: set<Thread>)
    requires Inv(s) && Enabled(s, Resume(t, picked)) && s.queue[0] == s.place[t].signature
    ensures t == s.order[0] && Inv(Apply(s, Resume(t, picked)))
  {
    hide QueueOk;
    var s' := Apply(s, Resume(t, picked));
    ServedIsFirst(s, t);
    FirstLeavesQueue(s, s', t);
    assert Woken(s') == Woken(s) - {t} && t in Woken(s);
  }

  /** The first waiting thread goes outside and everyone else moves up by one. */
  lemma FirstLeavesQueue(s: State, s': State, t: Thread)
    requires QueueOk(s) && s.order != [] && t == s.order[0]
    requires s'.queue == s.queue[1..] && s'.order == s.order[1..] && s'.place == s.place[t := Outside]
    requires s'.gen == s.gen && s'.arrivals == s.arrivals && s'.served == s.served + [t]
    ensures QueueOk(s')
  {
    forall j: nat | j < |s'.queue|
      ensures WaitsWith(s', s'.order[j], s'.queue[j])
    {
      assert WaitsWith(s, s.order[j + 1], s.queue[j + 1]);
      assert WaitsWith(s, s.order[0], s.queue[0]);
    }
    StillInOrder(s, s', t);
    MoveAcross(s.served, t, s.order);
  }

  lemma StillInOrder(s: State, s': State, t: Thread)
    requires QueueOk(s) && s.order != [] && t == s.order[0]
    requires s'.order == s.order[1..] && s'.place == s.place[t := Outside]
    ensures forall u :: u in s'.place && !s'.place[u].Outside? ==> u in s'.order
  {
    forall u | u in s'.place && !s'.place[u].Outside?
      ensures u in s'.order
    {
      assert u in s.order;
      assert s.order == [t] + s.order[1..];
    }
  }

  lemma MoveAcross(served: seq<Thread>, t: Thread, order: seq<Thread>)
    requires order != [] && order[0] == t
    ensures served + order == served + [t] + order[1..]
  {
  }

  /** Notifying keeps who waits with what, and wakes exactly those picked. */
  lemma WakeCounts(s: State, picked: set<Thread>)
    requires picked <= Sleepers(s)
    ensures var s' := s.(place := Wake(s.place, picked));
            && Woken(s') == Woken(s) + picked && |Woken(s')| == |Woken(s)| + |picked|
            && Sleepers(s') == Sleepers(s) - picked
            && SameWaiting(s, s')
  {
    var s' := s.(place := Wake(s.place, picked));
    assert Woken(s') == Woken(s) + picked;
  }

  /** The same threads wait with the same signatures. */
  ghost predicate SameWaiting(s: State, s': State) {
    && s' == s.(place := s'.place, count := s'.count) && s'.place.Keys == s.place.Keys
    && forall t :: t in s.place ==> s'.place[t].Outside? == s.place[t].Outside?
                                    && (!s.place[t].Outside? ==> s'.place[t].signature == s.place[t].signature)
  }

  lemma SameWaitingKeepsQueue(s: State, s': State)
    requires QueueOk(s) && SameWaiting(s, s')
    ensures QueueOk(s')
  {
    forall i | 0 <= i < |s.queue|
      ensures WaitsWith(s', s'.order[i], s'.queue[i])
    {
      assert WaitsWith(s, s.order[i], s.queue[i]);
    }
  }

  lemma FallAsleepCounts(s: State, t: Thread)
    requires t in s.place && s.place[t].Awake?
    ensures var s' := s.(place := s.place[t := Asleep(s.place[t].signature)]);
            && Woken(s') == Woken(s) - {t} && |Woken(s')| == |Woken(s)| - 1
            && Sleepers(s') == Sleepers(s) + {t} && SameWaiting(s, s')
  {
    var s' := s.(place := s.place[t := Asleep(s.place[t].signature)]);
    assert Woken(s') == Woken(s) - {t} && t in Woken(s);
    assert Sleepers(s') == Sleepers(s) + {t};
  }

  lemma BackToSleepCounts(s: State, t: Thread, picked: set<Thread>)
    requires Enabled(s, Resume(t, picked)) && s.queue[0] != s.place[t].signature
    ensures var s' := Apply(s, Resume(t, picked));
            && Woken(s') == Woken(s) + picked - {t} && |Woken(s')| == |Woken(s)| + |picked| - 1
            && Sleepers(s') == Sleepers(s) - picked + {t} && SameWaiting(s, s')
  {
    WakeCounts(s, picked);
    FallAsleepCounts(s.(place := Wake(s.place, picked)), t);
    hide Woken, Sleepers;
  }

  lemma BackToSleepKeepsInv(s: State, t: Thread, picked: set<Thread>)
    requires Inv(s) && Enabled(s, Resume(t, picked)) && s.queue[0] != s.place[t].signature
    ensures Inv(Apply(s, Resume(t, picked)))
  {
    BackToSleepCounts(s, t, picked);
    SameWaitingKeepsQueue(s, Apply(s, Resume(t, picked)));
    hide QueueOk, SameWaiting, Woken;
  }

  lemma LeaveKeepsInv(s: State, picked: set<Thread>)
    requires Inv(s) && Enabled(s, Leave(picked))
    ensures Inv(Apply(s, Leave(picked)))
  {
    var s', s1 := Apply(s, Leave(picked)), s.(place := Wake(s.place, picked));
    WakeCounts(s, picked);
    assert Woken(s') == Woken(s1);
    SameWaitingKeepsQueue(s, s');
  }

  lemma StepKeepsInv(s: State, step: Step)
    requires Inv(s) && Enabled(s, step)
    ensures Inv(Apply(s, step))
  {
    match step
    case Enter(t) => EnterKeepsInv(s, t);
    case Leave(picked) => LeaveKeepsInv(s, picked);
    case Resume(t, picked) =>
      if s.queue[0] == s.place[t].signature {
        ServeKeepsInv(s, t, picked);
      } else {
        BackToSleepKeepsInv(s, t, picked);
      }
  }

  ghost predicate Run(states: seq<State>, steps: seq<Step>) {
    && |states| == |steps| + 1 && Init(states[0])
    && forall i :: 0 <= i < |steps| ==> Enabled(states[i], steps[i]) && states[i + 1] == Apply(states[i], steps[i])
  }

  lemma {:induction false} RunKeepsInv(states: seq<State>, steps: seq<Step>, i: nat)
    requires Run(states, steps) && i < |states|
    ensures Inv(states[i])
  {
    hide Enabled, Apply;
    if i == 0 {
      assert Woken(states[0]) == {};
    } else {
      RunKeepsInv(states, steps, i - 1);
      hide Inv;
      StepKeepsInv(states[i - 1], steps[i - 1]);
    }
  }

  /** The count covers every thread that has been notified, so it is never
      negative; and callbacks run in the order of arrival. */
  lemma CountAndOrder(states: seq<State>, steps: seq<Step>, i: nat)
    requires Run(states, steps) && i < |states|
    ensures 0 <= |Woken(states[i])| <= states[i].count
    ensures states[i].served <= states[i].arrivals
  {
    RunKeepsInv(states, steps, i);
  }

  // --------------------------------------------------- how many go through

  /** How many of the first `n` steps are a `Leave`. */
  ghost function Leaves(steps: seq<Step>, n: nat): nat
    requires n <= |steps|
  {
    if n == 0 then 0 else Leaves(steps, n - 1) + if steps[n - 1].Leave? then 1 else 0
  }

  /** The law of a semaphore, in every run: the count is the initial count and the
      `Leave`s, less the threads that have gone through. */
  lemma {:induction false} CountKept(states: seq<State>, steps: seq<Step>, n: nat)
    requires Run(states, steps) && n < |states|
    ensures states[n].count + |states[n].served| == states[0].count + Leaves(steps, n)
  {
    hide Enabled;
    if n > 0 {
      CountKept(states, steps, n - 1);
      StepCounts(states[n - 1], steps[n - 1]);
    }
  }

  lemma StepCounts(s: State, step: Step)
    requires Enabled(s, step)
    ensures var s' := Apply(s, step);
            s'.count + |s'.served| == s.count + |s.served| + if step.Leave? then 1 else 0
  {
    hide Picks;
  }

  /** So never more threads are inside than the initial count allows, if only threads
      inside call `Leave`; and none goes through without having arrived. */
  lemma NeverTooManyInside(states: seq<State>, steps: seq<Step>, n: nat)
    requires Run(states, steps) && n < |states|
    ensures |states[n].served| - Leaves(steps, n) <= states[0].count
    ensures |states[n].served| <= |states[n].arrivals|
  {
    CountKept(states, steps, n);
    RunKeepsInv(states, steps, n);
  }

  // ---------------------------------------------------- waiters left behind

  /** Nobody sleeps while the count would let more threads in than are awake. */
  ghost predicate Tight(s: State) {
    Sleepers(s) != {} ==> s.count == |Woken(s)|
  }

  /** The two ways to fall asleep although the count allows one more: arriving
      while all earlier waiters are already awake, and being notified out of turn
      when nobody is left to pass the notification on to. */
  ghost predicate LeavesBehind(s: State, step: Step)
    requires Enabled(s, step)
  {
    match step
    case Enter(_) => s.queue != [] && s.count > |Woken(s)|
    case Resume(t, _) => s.queue[0] != s.place[t].signature && Sleepers(s) == {}
    case Leave(_) => false
  }

  /** While waiters are woken tightly, exactly these steps break it. */
  lemma TightIff(s: State, step: Step)
    requires Inv(s) && Tight(s) && Enabled(s, step)
    ensures Tight(Apply(s, step)) <==> !LeavesBehind(s, step)
  {
    match step
    case Enter(t) => EnterTightIff(s, t);
    case Leave(picked) => LeaveStaysTight(s, picked);
    case Resume(t, picked) =>
      if s.queue[0] == s.place[t].signature {
        ServeStaysTight(s, t, picked);
      } else {
        BackToSleepTightIff(s, t, picked);
      }
  }

  lemma EnterTightIff(s: State, t: Thread)
    requires Inv(s) && Tight(s) && Enabled(s, Enter(t))
    ensures Tight(Apply(s, Enter(t))) <==> !LeavesBehind(s, Enter(t))
  {
    var s' := Apply(s, Enter(t));
    assert Woken(s') == Woken(s);
    if s.count == 0 || s.queue != [] {
      assert t in Sleepers(s');
    } else {
      assert Sleepers(s') == Sleepers(s);
      NobodyWaits(s);
    }
  }

  lemma LeaveStaysTight(s: State, picked: set<Thread>)
    requires Inv(s) && Tight(s) && Enabled(s, Leave(picked))
    ensures Tight(Apply(s, Leave(picked)))
  {
    var s', s1 := Apply(s, Leave(picked)), s.(place := Wake(s.place, picked));
    WakeCounts(s, picked);
    assert Woken(s') == Woken(s1) && Sleepers(s') == Sleepers(s1);
  }

  lemma ServeStaysTight(s: State, t: Thread, picked: set<Thread>)
    requires Inv(s) && Tight(s) && Enabled(s, Resume(t, picked)) && s.queue[0] == s.place[t].signature
    ensures Tight(Apply(s, Resume(t, picked)))
  {
    var s' := Apply(s, Resume(t, picked));
    assert Woken(s') == Woken(s) - {t} && Sleepers(s') == Sleepers(s);
    assert t in Woken(s);
  }

  lemma BackToSleepTightIff(s: State, t: Thread, picked: set<Thread>)
    requires Inv(s) && Tight(s) && Enabled(s, Resume(t, picked)) && s.queue[0] != s.place[t].signature
    ensures Tight(Apply(s, Resume(t, picked))) <==> !LeavesBehind(s, Resume(t, picked))
  {
    BackToSleepCounts(s, t, picked);
    assert t in Sleepers(Apply(s, Resume(t, picked)));
  }

  lemma NobodyWaits(s: State)
    requires QueueOk(s) && s.queue == []
    ensures Sleepers(s) == {}
  {
  }

  /** Once it is broken, only a `Leave` that wakes the last sleeper mends it. */
  lemma MendedIff(s: State, step: Step)
    requires Inv(s) && !Tight(s) && Enabled(s, step)
    ensures Tight(Apply(s, step)) <==> step.Leave? && Sleepers(Apply(s, step)) == {}
  {
    SleepersWait(s);
    match step
    case Enter(t) => EnterStaysLoose(s, t);
    case Leave(picked) => LeaveMendsIff(s, picked);
    case Resume(t, picked) =>
      if s.queue[0] == s.place[t].signature {
        ServeStaysLoose(s, t, picked);
      } else {
        BackToSleepCounts(s, t, picked);
        assert t in Sleepers(Apply(s, step));
      }
  }

  lemma SleepersWait(s: State)
    requires QueueOk(s)
    ensures Sleepers(s) != {} ==> s.queue != []
  {
    if s.queue == [] {
      NobodyWaits(s);
    }
  }

  lemma EnterStaysLoose(s: State, t: Thread)
    requires Inv(s) && !Tight(s) && s.queue != [] && Enabled(s, Enter(t))
    ensures !Tight(Apply(s, Enter(t)))
  {
    var s' := Apply(s, Enter(t));
    assert Woken(s') == Woken(s);
    assert t in Sleepers(s');
  }

  lemma ServeStaysLoose(s: State, t: Thread, picked: set<Thread>)
    requires Inv(s) && !Tight(s) && Enabled(s, Resume(t, picked)) && s.queue[0] == s.place[t].signature
    ensures !Tight(Apply(s, Resume(t, picked)))
  {
    var s' := Apply(s, Resume(t, picked));
    assert Woken(s') == Woken(s) - {t} && Sleepers(s') == Sleepers(s);
    assert t in Woken(s);
  }

  lemma LeaveMendsIff(s: State, picked: set<Thread>)
    requires Inv(s) && !Tight(s) && Enabled(s, Leave(picked))
    ensures Tight(Apply(s, Leave(picked))) <==> Sleepers(Apply(s, Leave(picked))) == {}
  {
    var s', s1 := Apply(s, Leave(picked)), s.(place := Wake(s.place, picked));
    WakeCounts(s, picked);
    assert Woken(s') == Woken(s1) && Sleepers(s') == Sleepers(s1);
  }

  /** Step `k` of a run leaves a waiter behind. */
  ghost predicate Breaks(states: seq<State>, steps: seq<Step>, k: nat)
    requires Run(states, steps) && k < |steps|
  {
    LeavesBehind(states[k], steps[k])
  }

  /** Step `k` of a run is a `Leave` after which nobody sleeps. */
  ghost predicate Mends(states: seq<State>, steps: seq<Step>, k: nat)
    requires Run(states, steps) && k < |steps|
  {
    steps[k].Leave? && Sleepers(states[k + 1]) == {}
  }

  /** A step before `n` leaves a waiter behind, and no step between it and `n` mends that. */
  ghost predicate Unmended(states: seq<State>, steps: seq<Step>, n: nat)
    requires Run(states, steps) && n < |states|
  {
    exists k: nat :: LeftAt(states, steps, k, n)
  }

  ghost predicate LeftAt(states: seq<State>, steps: seq<Step>, k: nat, n: nat)
    requires Run(states, steps) && n < |states|
  {
    k < n && Breaks(states, steps, k) && forall j: nat :: k < j < n ==> !Mends(states, steps, j)
  }

  lemma StepTightIff(s: State, step: Step)
    requires Inv(s) && Enabled(s, step)
    ensures LeavesBehind(s, step) ==> !Tight(Apply(s, step))
    ensures step.Leave? && Sleepers(Apply(s, step)) == {} ==> Tight(Apply(s, step))
    ensures !LeavesBehind(s, step) && !(step.Leave? && Sleepers(Apply(s, step)) == {}) ==>
        (Tight(Apply(s, step)) <==> Tight(s))
  {
    if Tight(s) {
      TightIff(s, step);
    } else {
      MendedIff(s, step);
      LooseStepDoesNotMend(s, step);
    }
  }

  lemma LooseStepDoesNotMend(s: State, step: Step)
    requires Enabled(s, step)
    ensures LeavesBehind(s, step) ==> !step.Leave?
  {
  }

  /** The exact condition, in every run: after `n` steps somebody sleeps whom the count
      would let in and no notification is under way for, if and only if some earlier
      step left a waiter behind and has not been mended since. */
  lemma {:induction false} TightUnlessUnmended(states: seq<State>, steps: seq<Step>, n: nat)
    requires Run(states, steps) && n < |states|
    ensures !Tight(states[n]) <==> Unmended(states, steps, n)
  {
    if n == 0 {
      assert Sleepers(states[0]) == {};
    } else {
      TightUnlessUnmended(states, steps, n - 1);
      RunKeepsInv(states, steps, n - 1);
      StepTightIff(states[n - 1], steps[n - 1]);
      UnmendedStep(states, steps, n);
    }
  }

  lemma UnmendedStep(states: seq<State>, steps: seq<Step>, n: nat)
    requires Run(states, steps) && 0 < n < |states|
    ensures Unmended(states, steps, n)
        <==> Breaks(states, steps, n - 1) || (Unmended(states, steps, n - 1) && !Mends(states, steps, n - 1))
  {
    forall k: nat
      ensures LeftAt(states, steps, k, n)
          <==> ((k == n - 1 && Breaks(states, steps, k))
                || (LeftAt(states, steps, k, n - 1) && !Mends(states, steps, n - 1)))
    {
      LeftAtStep(states, steps, k, n);
    }
    hide Breaks, Mends, LeftAt, Enabled, Apply;
  }

  lemma LeftAtStep(states: seq<State>, steps: seq<Step>, k: nat, n: nat)
    requires Run(states, steps) && 0 < n < |states|
    ensures LeftAt(states, steps, k, n)
        <==> ((k == n - 1 && Breaks(states, steps, k))
              || (LeftAt(states, steps, k, n - 1) && !Mends(states, steps, n - 1)))
  {
    hide Breaks, Mends, Enabled, Apply;
  }

  /** All states up to `n` are tight exactly if no step before `n` leaves a waiter behind. */
  lemma AllTightIff(states: seq<State>, steps: seq<Step>, n: nat)
    requires Run(states, steps) && n < |states|
    ensures (forall i: nat :: i <= n ==> Tight(states[i])) <==> (forall k: nat :: k < n ==> !Breaks(states, steps, k))
  {
    hide Tight, Mends, Breaks, Enabled, Apply;
    forall k: nat | k < n && Breaks(states, steps, k)
      ensures !Tight(states[k + 1])
    {
      assert LeftAt(states, steps, k, k + 1);
      TightUnlessUnmended(states, steps, k + 1);
    }
    forall i: nat | i <= n && !Tight(states[i])
      ensures exists k: nat :: k < n && Breaks(states, steps, k)
    {
      TightUnlessUnmended(states, steps, i);
      var k: nat :| LeftAt(states, steps, k, i);
    }
  }

  /** Nobody is notified, and a waiter sleeps although the count is positive. */
  ghost predicate Stuck(s: State) {
    Woken(s) == {} && s.count > 0 && s.queue != []
  }

  /** When nobody is notified, not being tight is being stuck. */
  lemma QuietTightIff(s: State)
    requires Inv(s) && Woken(s) == {}
    ensures !Tight(s) <==> Stuck(s)
  {
    SleepersWait(s);
    if s.queue != [] {
      assert WaitsWith(s, s.order[0], s.queue[0]);
      assert s.order[0] in Woken(s) + Sleepers(s);
    }
  }

  /** When a run goes quiet, a waiter has been left behind if and only if some step did
      it and no later `Leave` mended it. */
  lemma LeftBehindIff(states: seq<State>, steps: seq<Step>, n: nat)
    requires Run(states, steps) && n < |states| && Woken(states[n]) == {}
    ensures states[n].count > 0 && states[n].queue != [] <==> Unmended(states, steps, n)
  {
    RunKeepsInv(states, steps, n);
    QuietTightIff(states[n]);
    TightUnlessUnmended(states, steps, n);
  }

  /** How many threads have gone through when a run goes quiet: as many as have arrived
      and the count allows, if and only if no waiter has been left behind. */
  lemma QuietServesAllIff(states: seq<State>, steps: seq<Step>, n: nat)
    requires Run(states, steps) && n < |states| && Woken(states[n]) == {}
    ensures var arrived, allowed := |states[n].arrivals|, states[0].count + Leaves(steps, n);
            |states[n].served| == (if arrived <= allowed then arrived else allowed) <==> !Unmended(states, steps, n)
  {
    hide Unmended;
    CountKept(states, steps, n);
    RunKeepsInv(states, steps, n);
    LeftBehindIff(states, steps, n);
  }

  /** And it is for good: as long as nobody calls `Leave`, nobody gets in any more, not
      even a thread that arrives now. */
  lemma {:induction false} StuckUntilLeave(states: seq<State>, steps: seq<Step>, n: nat, m: nat)
    requires Run(states, steps) && n <= m < |states| && Stuck(states[n])
    requires forall k :: n <= k < m ==> !steps[k].Leave?
    ensures Stuck(states[m]) && states[m].served == states[n].served && states[m].count == states[n].count
  {
    if n < m {
      StuckUntilLeave(states, steps, n, m - 1);
      StuckStep(states[m - 1], steps[m - 1]);
    }
  }

  lemma StuckStep(s: State, step: Step)
    requires Stuck(s) && Enabled(s, step) && !step.Leave?
    ensures var s' := Apply(s, step); Stuck(s') && s'.served == s.served && s'.count == s.count
  {
    forall t | t in s.place
      ensures !s.place[t].Awake?
    {
      assert t !in Woken(s);
    }
    var s' := Apply(s, step);
    assert Woken(s') == {};
  }

  /** While it is tight, a positive count and a waiting thread mean that some
      waiting thread is awake. */
  lemma TightMeansProgress(s: State)
    requires Inv(s) && Tight(s) && s.count > 0 && s.queue != []
    ensures Woken(s) != {}
  {
    assert WaitsWith(s, s.order[0], s.queue[0]);
    assert s.order[0] in Woken(s) + Sleepers(s);
    assert |Woken(s)| == s.count || Sleepers(s) == {};
  }

  /** It does happen: two threads wait, `Leave` is called twice, and the second
      thread is the first to run. It goes back to sleep, and when the first has gone
      through it sleeps on although the count is one and nobody will notify it. */
  lemma WaiterLeftBehind() returns (states: seq<State>, steps: seq<Step>)
    ensures Run(states, steps)
    ensures var s := states[|states| - 1];
            s.count == 1 && Sleepers(s) == {2} && Woken(s) == {}
  {
    states := [Stage(0), Stage(1), Stage(2), Stage(3), Stage(4), Stage(5), Stage(6)];
    steps := [Enter(1), Enter(2), Leave({1}), Leave({2}), Resume(2, {}), Resume(1, {})];
    ThreadsWait();
    LeavesWake();
    SecondRunsFirst();
    FirstGoesThrough();
    LastStage();
    StartStage();
    hide Enabled, Apply, Init, Stage, Sleepers, Woken;
  }

  lemma StartStage()
    ensures Init(Stage(0))
  {
  }

  lemma LastStage()
    ensures Stage(6).count == 1 && Sleepers(Stage(6)) == {2} && Woken(Stage(6)) == {}
  {
  }

  function Stage(i: nat): State {
    if i == 0 then State(0, [], 0, map[1 := Outside, 2 := Outside], [], [], [])
    else if i == 1 then State(0, [1], 1, map[1 := Asleep(1), 2 := Outside], [1], [1], [])
    else if i == 2 then State(0, [1, 2], 2, map[1 := Asleep(1), 2 := Asleep(2)], [1, 2], [1, 2], [])
    else if i == 3 then State(1, [1, 2], 2, map[1 := Awake(1), 2 := Asleep(2)], [1, 2], [1, 2], [])
    else if i == 4 then State(2, [1, 2], 2, map[1 := Awake(1), 2 := Awake(2)], [1, 2], [1, 2], [])
    else if i == 5 then State(2, [1, 2], 2, map[1 := Awake(1), 2 := Asleep(2)], [1, 2], [1, 2], [])
    else State(1, [2], 2, map[1 := Outside, 2 := Asleep(2)], [2], [1, 2], [1])
  }

  lemma ThreadsWait()
    ensures Enabled(Stage(0), Enter(1)) && Apply(Stage(0), Enter(1)) == Stage(1)
    ensures Enabled(Stage(1), Enter(2)) && Apply(Stage(1), Enter(2)) == Stage(2)
  {
  }

  lemma LeavesWake()
    ensures Enabled(Stage(2), Leave({1})) && Apply(Stage(2), Leave({1})) == Stage(3)
    ensures Enabled(Stage(3), Leave({2})) && Apply(Stage(3), Leave({2})) == Stage(4)
  {
    assert Sleepers(Stage(2)) == {1, 2};
    assert Sleepers(Stage(3)) == {2};
  }

  lemma SecondRunsFirst()
    ensures Enabled(Stage(4), Resume(2, {})) && Apply(Stage(4), Resume(2, {})) == Stage(5)
  {
    assert Sleepers(Stage(4)) == {};
  }

  lemma FirstGoesThrough()
    ensures Enabled(Stage(5), Resume(1, {})) && Apply(Stage(5), Resume(1, {})) == Stage(6)
  {
  }
}
