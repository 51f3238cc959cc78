/** `ThreadManager`: the count of threads still alive is decremented outside the
    mutex that the waiting side sleeps under, and still no wake-up is missed. */
module ThreadManagers {
  import Barriers

  /** One thread fewer; whether it was the last. */
  function CountDown(alive: int): (bool, int) {
    (alive - 1 == 0, alive - 1)
  }

  class ThreadManager {
    var aliveThreads: int
    const startStopBarrier: Barriers.Barrier

    constructor (numThreads: int)
      ensures aliveThreads == numThreads && fresh(startStopBarrier)
      ensures startStopBarrier.Fields() == Barriers.Shared(numThreads, 0, 0)
    {
      aliveThreads := numThreads;
      startStopBarrier := new Barriers.Barrier(numThreads);
    }

    /** Up to the decrement; the caller still has to notify if it was the last. */
    method NotifyThreadComplete() returns (last: bool)
      modifies this, startStopBarrier
      ensures (last, aliveThreads) == CountDown(old(aliveThreads))
      ensures startStopBarrier.Fields() == Barriers.TakeOut(old(startStopBarrier.Fields())).1
    {
      var _ := startStopBarrier.RemoveThread();
      aliveThreads := aliveThreads - 1;
      last := aliveThreads == 0;
    }
  }

  // ------------------------------------------------------------ the protocol

  type Thread = nat

  /** `MustNotify` has brought the count to zero and not yet taken the mutex. */
  datatype Worker = Working | MustNotify | Finished

  /** `Holding` has the mutex and has just seen a count other than zero. */
  datatype Waiter = Idle | Holding | Asleep | Awake | Returned

  datatype State = State(alive: int, workers: map<Thread, Worker>, waiters: map<Thread, Waiter>)

  datatype Step = Complete(t: Thread) | NotifyAll(t: Thread) | Check(t: Thread) | Sleep(t: Thread) | WakeUp(t: Thread)

  ghost predicate MutexFree(s: State) {
    forall w :: w in s.waiters ==> !s.waiters[w].Holding?
  }

  ghost predicate Enabled(s: State, step: Step) {
    match step
    case Complete(t) => t in s.workers && s.workers[t].Working?
    case NotifyAll(t) => t in s.workers && s.workers[t].MustNotify? && MutexFree(s)
    case Check(t) => t in s.waiters && (s.waiters[t].Idle? || s.waiters[t].Awake?) && MutexFree(s)
    case Sleep(t) => t in s.waiters && s.waiters[t].Holding?
    case WakeUp(t) => t in s.waiters && s.waiters[t].Asleep?
  }

  ghost function Apply(s: State, step: Step): State
    requires Enabled(s, step)
  {
    match step
    case Complete(t) =>
      var (last, alive) := CountDown(s.alive);
      s.(alive := alive, workers := s.workers[t := if last then MustNotify else Finished])
    case NotifyAll(t) =>
      s.(workers := s.workers[t := Finished],
         waiters := map w | w in s.waiters :: if s.waiters[w].Asleep? then Awake else s.waiters[w])
    case Check(t) => s.(waiters := s.waiters[t := if s.alive == 0 then Returned else Holding])
    case Sleep(t) => s.(waiters := s.waiters[t := Asleep])
    case WakeUp(t) => s.(waiters := s.waiters[t := Awake])
  }

  ghost predicate Init(s: State) {
    && s.alive == |s.workers|
    && (forall t :: t in s.workers ==> s.workers[t] == Working)
    && (forall w :: w in s.waiters ==> s.waiters[w] == Idle)
  }

  ghost function StillWorking(s: State): set<Thread> {
    set t | t in s.workers && s.workers[t].Working?
  }

  ghost predicate NotifierPending(s: State) {
    exists t :: t in s.workers && s.workers[t].MustNotify?
  }

  ghost predicate Inv(s: State) {
    && s.alive == |StillWorking(s)|
    && (forall w :: w in s.waiters && s.waiters[w].Returned? ==> s.alive == 0)
    && (forall w :: w in s.waiters && (s.waiters[w].Holding? || s.waiters[w].Asleep?) && s.alive == 0 ==>
        NotifierPending(s))
  }

  lemma StepKeepsInv(s: State, step: Step)
    requires Inv(s) && Enabled(s, step)
    ensures Inv(Apply(s, step))
  {
    var s' := Apply(s, step);
    match step
    case Complete(t) =>
      assert StillWorking(s') == StillWorking(s) - {t};
      assert t in StillWorking(s);
      assert s'.alive == 0 ==> s'.workers[t].MustNotify?;
    case NotifyAll(t) =>
      assert StillWorking(s') == StillWorking(s);
    case Check(t) =>
      assert StillWorking(s') == StillWorking(s);
    case Sleep(t) =>
      assert StillWorking(s') == StillWorking(s);
    case WakeUp(t) =>
      assert StillWorking(s') == StillWorking(s);
  }

  ghost predicate Run(states: seq<State>, steps: seq<Step>) {
    && |states| == |steps| + 1 && Init(states[0])
    && forall i :: 0 <= i < |steps| ==> Enabled(states[i], steps[i]) && states[i + 1] == Apply(states[i], steps[i])
  }

  lemma {:induction false} RunKeepsInv(states: seq<State>, steps: seq<Step>, i: nat)
    requires Run(states, steps) && i < |states|
    ensures Inv(states[i])
  {
    if i == 0 {
      assert StillWorking(states[0]) == states[0].workers.Keys;
    } else {
      RunKeepsInv(states, steps, i - 1);
      StepKeepsInv(states[i - 1], steps[i - 1]);
    }
  }

  /** `WaitForAllThreads` returns only when every thread has completed. */
  lemma ReturnsWhenAllComplete(states: seq<State>, steps: seq<Step>, i: nat, w: Thread)
    requires Run(states, steps) && i < |states| && w in states[i].waiters && states[i].waiters[w].Returned?
    ensures forall t :: t in states[i].workers ==> !states[i].workers[t].Working?
  {
    RunKeepsInv(states, steps, i);
    forall t | t in states[i].workers
      ensures !states[i].workers[t].Working?
    {
      assert t in StillWorking(states[i]) <==> states[i].workers[t].Working?;
    }
  }

  /** Once every thread has completed, no waiter sleeps on unnoticed: while one sleeps,
      or is about to, a worker that still has to notify is there; one that is awake
      returns as soon as it gets the mutex; and whoever holds the mutex releases it. */
  lemma NoMissedWakeUp(states: seq<State>, steps: seq<Step>, i: nat, w: Thread)
    requires Run(states, steps) && i < |states| && w in states[i].waiters
    requires forall t :: t in states[i].workers ==> !states[i].workers[t].Working?
    ensures var s := states[i];
            && (s.waiters[w].Asleep? || s.waiters[w].Holding? ==> NotifierPending(s))
            && (s.waiters[w].Holding? ==> Enabled(s, Sleep(w)))
            && (MutexFree(s) ==> forall t :: t in s.workers && s.workers[t].MustNotify? ==> Enabled(s, NotifyAll(t)))
            && (MutexFree(s) && (s.waiters[w].Idle? || s.waiters[w].Awake?) ==>
                  Enabled(s, Check(w)) && Apply(s, Check(w)).waiters[w].Returned?)
            && (!MutexFree(s) ==> exists v :: v in s.waiters && Enabled(s, Sleep(v)))
  {
    RunKeepsInv(states, steps, i);
    var s := states[i];
    assert StillWorking(s) == {};
    if !MutexFree(s) {
      var v :| v in s.waiters && s.waiters[v].Holding?;
      assert Enabled(s, Sleep(v));
    }
  }
}
