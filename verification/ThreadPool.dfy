/** The unbounded blocking queue and the thread pool on top of it. Every mutex
    section is one atomic step; a sleeping taker may wake up without a reason. */
module ThreadPools {
  datatype Taken<+T> = Sleeps | Ended | Got(value: T)

  /** Whether a value is accepted, and the queue afterwards. */
  function PutInto<T>(stopped: bool, buffer: seq<T>, value: T): (bool, seq<T>) {
    (!stopped, if stopped then buffer else buffer + [value])
  }

  /** A pass of `Take`: the front of the queue, its end, or back to sleep. */
  function TakeFrom<T>(stopped: bool, buffer: seq<T>): (Taken<T>, seq<T>) {
    if buffer != [] then (Got(buffer[0]), buffer[1..]) else (if stopped then Ended else Sleeps, [])
  }

  /** Closing, and cancelling if `clear`. */
  function Closed<T>(buffer: seq<T>, clear: bool): (bool, seq<T>) {
    (true, if clear then [] else buffer)
  }

  /** The results of `n` passes of `Take` in a row, with nothing in between. */
  function Takes<T>(stopped: bool, buffer: seq<T>, n: nat): seq<Taken<T>> {
    if n == 0 then []
    else
      var (r, rest) := TakeFrom(stopped, buffer);
      [r] + Takes(stopped, rest, n - 1)
  }

  /** After closing, nothing is accepted, and takers get what was queued, in order, and
      then the end; after cancelling they get the end at once. */
  lemma AfterClosing<T>(buffer: seq<T>, clear: bool, value: T, n: nat)
    ensures var (stopped, kept) := Closed(buffer, clear);
            && PutInto(stopped, kept, value) == (false, kept)
            && Takes(stopped, kept, n)
                == seq(n, k requires 0 <= k < n =>
                          if !clear && k < |buffer| then Got(buffer[k]) else Ended)
  {
    var (stopped, kept) := Closed(buffer, clear);
    TakesDrain(kept, n);
  }

  lemma {:induction false} TakesDrain<T>(buffer: seq<T>, n: nat)
    ensures Takes(true, buffer, n)
         == seq(n, k requires 0 <= k < n => if k < |buffer| then Got(buffer[k]) else Ended)
  {
    if n > 0 {
      TakesDrain(if buffer == [] then [] else buffer[1..], n - 1);
    }
  }

  class UnboundedBlockingQueue<T> {
    var stopped: bool
    var buffer: seq<T>

    constructor ()
      ensures !stopped && buffer == []
    {
      stopped, buffer := false, [];
    }

    /** Whether the value was accepted; one taker is notified if it was. */
    method Put(value: T) returns (ok: bool)
      modifies this
      ensures (ok, buffer) == PutInto(old(stopped), old(buffer), value) && stopped == old(stopped)
    {
      if stopped {
        return false;
      }
      buffer := buffer + [value];
      return true;
    }

    /** One pass of `Take` through the mutex: back to sleep, or a result. */
    method TryTake() returns (r: Taken<T>)
      modifies this
      ensures (r, buffer) == TakeFrom(old(stopped), old(buffer)) && stopped == old(stopped)
    {
      if !(stopped || buffer != []) {
        return Sleeps;
      }
      if stopped && buffer == [] {
        return Ended;
      }
      r := Got(buffer[0]);
      buffer := buffer[1..];
    }

    /** Every taker is notified. */
    method CloseImpl(clear: bool)
      modifies this
      ensures (stopped, buffer) == Closed(old(buffer), clear)
    {
      stopped := true;
      if clear {
        buffer := [];
      }
    }
  }

  // ------------------------------------------------------------ the protocol

  type Thread = nat
  type Task = nat

  /** `Awake` is a taker that has been notified, or woke up by itself. */
  datatype Worker = Idle | Asleep | Awake | Running(task: Task) | Exited

  /** The accepted tasks are numbered from 0; `taken` of them have left the queue.
      `finished` counts how often each task has been run to its end. */
  datatype State = State(stopped: bool, buffer: seq<Task>, workers: map<Thread, Worker>,
                         accepted: nat, taken: nat, finished: multiset<Task>)

  /** `Submit` names the sleeper that `notify_one` picks, if there is one. */
  datatype Step = Submit(sleepers: set<Thread>) | Take(t: Thread) | WakeUp(t: Thread) | Finish(t: Thread) | Close

  ghost function With(s: State, w: Worker): set<Thread> { At(s.workers, w) }

  ghost function At(workers: map<Thread, Worker>, w: Worker): set<Thread> {
    set t | t in workers && workers[t] == w
  }

  ghost function RunningSet(s: State): set<Thread> {
    set t | t in s.workers && s.workers[t].Running?
  }

  ghost predicate Init(s: State) {
    && s == State(false, [], s.workers, 0, 0, multiset{})
    && forall t :: t in s.workers ==> s.workers[t] == Idle
  }

  ghost predicate Enabled(s: State, step: Step) {
    match step
    case Submit(sleepers) => sleepers <= With(s, Asleep) && |sleepers| <= 1
        && (With(s, Asleep) != {} ==> |sleepers| == 1)
    case Take(t) => t in s.workers && (s.workers[t].Idle? || s.workers[t].Awake?)
    case WakeUp(t) => t in s.workers && s.workers[t].Asleep?
    case Finish(t) => t in s.workers && s.workers[t].Running?
    case Close => true
  }

  function Wake(workers: map<Thread, Worker>, who: set<Thread>): map<Thread, Worker> {
    map t | t in workers :: if t in who && workers[t].Asleep? then Awake else workers[t]
  }

  ghost function Apply(s: State, step: Step): State
    requires Enabled(s, step)
  {
    match step
    case Submit(sleepers) =>
      var (ok, buffer) := PutInto(s.stopped, s.buffer, s.accepted);
      if !ok then s
      else s.(buffer := buffer, accepted := s.accepted + 1, workers := Wake(s.workers, sleepers))
    case Take(t) =>
      var (r, buffer) := TakeFrom(s.stopped, s.buffer);
      (match r
       case Sleeps => s.(workers := s.workers[t := Asleep])
       case Ended => s.(workers := s.workers[t := Exited])
       case Got(task) => s.(workers := s.workers[t := Running(task)], buffer := buffer, taken := s.taken + 1))
    case WakeUp(t) => s.(workers := s.workers[t := Awake])
    case Finish(t) =>
      s.(workers := s.workers[t := Idle], finished := s.finished + multiset{s.workers[t].task})
    case Close =>
      var (stopped, buffer) := Closed(s.buffer, false);
      s.(stopped := stopped, buffer := buffer, workers := Wake(s.workers, s.workers.Keys))
  }

  /** The queue holds the accepted tasks that have not been taken, in order. */
  ghost predicate QueueOk(s: State) {
    && s.taken <= s.accepted && |s.buffer| == s.accepted - s.taken
    && forall i :: 0 <= i < |s.buffer| ==> s.buffer[i] == s.taken + i
  }

  /** `task` has left the queue and is running in one thread or has finished once, or it
      has not left the queue and is neither. */
  ghost predicate Once(s: State, task: Task) {
    s.finished[task] + |At(s.workers, Running(task))| == if task < s.taken then 1 else 0
  }

  /** A taken task is running in one thread or has finished once, and not both. */
  ghost predicate OnceEach(s: State) {
    forall task: Task :: Once(s, task)
  }

  ghost predicate SleepOk(s: State) {
    && (With(s, Asleep) != {} ==> |s.buffer| <= |With(s, Awake)| && !s.stopped)
    && (With(s, Exited) != {} ==> s.stopped && s.buffer == [])
  }

  ghost predicate Inv(s: State) {
    QueueOk(s) && OnceEach(s) && SleepOk(s)
  }

  lemma StepKeepsQueue(s: State, step: Step)
    requires Inv(s) && Enabled(s, step)
    ensures QueueOk(Apply(s, step))
  {
  }

  /** Who is at `w` after one worker has moved. */
  lemma AtMoved(workers: map<Thread, Worker>, t: Thread, to: Worker, w: Worker)
    requires t in workers
    ensures var before, after := At(workers, w), At(workers[t := to], w);
            && after == (if to == w then before + {t} else before - {t})
            && (t in before <==> workers[t] == w)
            && |after| == |before| + (if to == w then 1 else 0) - (if workers[t] == w then 1 else 0)
  {
    assert At(workers[t := to], w) == if to == w then At(workers, w) + {t} else At(workers, w) - {t};
  }

  /** Who is at `w` after some sleepers have been notified. */
  lemma AtWoken(workers: map<Thread, Worker>, who: set<Thread>, w: Worker)
    ensures w != Asleep && w != Awake ==> At(Wake(workers, who), w) == At(workers, w)
    ensures At(Wake(workers, who), Asleep) == At(workers, Asleep) - who
    ensures who <= At(workers, Asleep) ==> |At(Wake(workers, who), Awake)| == |At(workers, Awake)| + |who|
  {
    if who <= At(workers, Asleep) {
      assert At(Wake(workers, who), Awake) == At(workers, Awake) + who;
    }
  }

  lemma StepKeepsOnceEach(s: State, step: Step)
    requires Inv(s) && Enabled(s, step)
    ensures OnceEach(Apply(s, step))
  {
    hide Once, QueueOk, SleepOk, Apply, Enabled;
    forall task: Task
      ensures Once(Apply(s, step), task)
    {
      StepKeepsTask(s, step, task);
    }
  }

  lemma StepKeepsTask(s: State, step: Step, task: Task)
    requires QueueOk(s) && Enabled(s, step) && Once(s, task)
    ensures Once(Apply(s, step), task)
  {
    match step
    case Submit(sleepers) => SubmitKeepsTask(s, sleepers, task);
    case WakeUp(t) => AtMoved(s.workers, t, Awake, Running(task));
    case Close => AtWoken(s.workers, s.workers.Keys, Running(task));
    case Finish(t) => FinishKeepsTask(s, t, task);
    case Take(t) => TakeKeepsTask(s, t, task);
    hide Once, Apply, At;
  }

  lemma SubmitKeepsTask(s: State, sleepers: set<Thread>, task: Task)
    requires Enabled(s, Submit(sleepers)) && Once(s, task)
    ensures Once(Apply(s, Submit(sleepers)), task)
  {
    AtWoken(s.workers, sleepers, Running(task));
    hide At;
  }

  lemma FinishKeepsTask(s: State, t: Thread, task: Task)
    requires Enabled(s, Finish(t)) && Once(s, task)
    ensures Once(Apply(s, Finish(t)), task)
  {
    AtMoved(s.workers, t, Idle, Running(task));
    hide At;
  }

  lemma TakeKeepsTask(s: State, t: Thread, task: Task)
    requires QueueOk(s) && Enabled(s, Take(t)) && Once(s, task)
    ensures Once(Apply(s, Take(t)), task)
  {
    AtMoved(s.workers, t, Apply(s, Take(t)).workers[t], Running(task));
    hide At;
  }

  lemma StepKeepsSleep(s: State, step: Step)
    requires Inv(s) && Enabled(s, step)
    ensures SleepOk(Apply(s, step))
  {
    hide SleepOk, Apply, OnceEach, QueueOk;
    match step
    case Submit(sleepers) => SubmitKeepsSleep(s, sleepers);
    case Take(t) => TakeKeepsSleep(s, t);
    case WakeUp(t) => WakeUpKeepsSleep(s, t);
    case Finish(t) => FinishKeepsSleep(s, t);
    case Close => CloseKeepsSleep(s);
  }

  lemma SubmitKeepsSleep(s: State, sleepers: set<Thread>)
    requires SleepOk(s) && Enabled(s, Submit(sleepers))
    ensures SleepOk(Apply(s, Submit(sleepers)))
  {
    AtWoken(s.workers, sleepers, Exited);
  }

  lemma TakeKeepsSleep(s: State, t: Thread)
    requires SleepOk(s) && Enabled(s, Take(t))
    ensures SleepOk(Apply(s, Take(t)))
  {
    MovesCounted(s, t, Apply(s, Take(t)).workers[t]);
    hide At;
  }

  lemma WakeUpKeepsSleep(s: State, t: Thread)
    requires SleepOk(s) && Enabled(s, WakeUp(t))
    ensures SleepOk(Apply(s, WakeUp(t)))
  {
    MovesCounted(s, t, Awake);
    assert t in With(s, Asleep);
  }

  lemma FinishKeepsSleep(s: State, t: Thread)
    requires SleepOk(s) && Enabled(s, Finish(t))
    ensures SleepOk(Apply(s, Finish(t)))
  {
    MovesCounted(s, t, Idle);
  }

  lemma CloseKeepsSleep(s: State)
    requires SleepOk(s)
    ensures SleepOk(Apply(s, Close))
  {
    AtWoken(s.workers, s.workers.Keys, Exited);
  }

  lemma MovesCounted(s: State, t: Thread, to: Worker)
    requires t in s.workers
    ensures forall w :: w == Awake || w == Asleep || w == Exited ==>
              At(s.workers[t := to], w) == (if to == w then At(s.workers, w) + {t} else At(s.workers, w) - {t})
              && |At(s.workers[t := to], w)|
                  == |At(s.workers, w)| + (if to == w then 1 else 0) - (if s.workers[t] == w then 1 else 0)
  {
    AtMoved(s.workers, t, to, Awake);
    AtMoved(s.workers, t, to, Asleep);
    AtMoved(s.workers, t, to, Exited);
  }

  ghost predicate Run(states: seq<State>, steps: seq<Step>) {
    && |states| == |steps| + 1 && Init(states[0])
    && forall i :: 0 <= i < |steps| ==> Enabled(states[i], steps[i]) && states[i + 1] == Apply(states[i], steps[i])
  }

  lemma {:induction false} RunKeepsInv(states: seq<State>, steps: seq<Step>, i: nat)
    requires Run(states, steps) && i < |states|
    ensures Inv(states[i]) && states[i].workers.Keys == states[0].workers.Keys
  {
    if i == 0 {
      assert forall task: Task :: With(states[0], Running(task)) == {};
      assert With(states[0], Asleep) == {} && With(states[0], Exited) == {};
    } else {
      RunKeepsInv(states, steps, i - 1);
      var s, step := states[i - 1], steps[i - 1];
      StepKeepsQueue(s, step);
      StepKeepsOnceEach(s, step);
      StepKeepsSleep(s, step);
    }
  }

  /** How many of the first `n` steps are a `Submit` before the queue is closed. */
  ghost function Submitted(states: seq<State>, steps: seq<Step>, n: nat): nat
    requires n <= |steps| <= |states|
  {
    if n == 0 then 0
    else Submitted(states, steps, n - 1) + if steps[n - 1].Submit? && !states[n - 1].stopped then 1 else 0
  }

  /** In every run exactly the tasks submitted before closing are accepted, and those that
      are still queued are the ones accepted last, in order. */
  lemma {:induction false} AcceptedInOrder(states: seq<State>, steps: seq<Step>, n: nat)
    requires Run(states, steps) && n < |states|
    ensures states[n].accepted == Submitted(states, steps, n)
    ensures states[n].taken <= states[n].accepted
    ensures states[n].buffer == seq(states[n].accepted - states[n].taken, k => states[n].taken + k)
    ensures states[n].stopped <==> exists k :: 0 <= k < n && steps[k].Close?
  {
    RunKeepsInv(states, steps, n);
    if n > 0 {
      AcceptedInOrder(states, steps, n - 1);
      hide Inv, Enabled, Apply;
      StepAccepts(states[n - 1], steps[n - 1]);
    }
  }

  lemma StepAccepts(s: State, step: Step)
    requires Enabled(s, step)
    ensures Apply(s, step).accepted == s.accepted + if step.Submit? && !s.stopped then 1 else 0
    ensures Apply(s, step).stopped <==> s.stopped || step.Close?
  {
  }

  /** No wake-up is lost: if a taker sleeps, every queued task has a taker that is
      already awake for it. So while tasks are queued some worker can go on. */
  lemma NoLostWakeUp(states: seq<State>, steps: seq<Step>, i: nat)
    requires Run(states, steps) && i < |states|
    ensures var s := states[i];
            && (With(s, Asleep) != {} ==> |s.buffer| <= |With(s, Awake)|)
            && (s.buffer != [] && s.workers.Keys != {} ==>
                  exists t :: t in s.workers && (Enabled(s, Take(t)) || Enabled(s, Finish(t))))
  {
    RunKeepsInv(states, steps, i);
    var s := states[i];
    if s.buffer != [] && s.workers.Keys != {} {
      if With(s, Asleep) != {} {
        var t :| t in With(s, Awake);
        assert Enabled(s, Take(t));
      } else {
        var t :| t in s.workers.Keys;
        assert t !in With(s, Asleep) && t !in With(s, Exited);
        assert Enabled(s, Take(t)) || Enabled(s, Finish(t));
      }
    }
  }

  /** Conservation: each accepted task is queued, or running in exactly one
      thread, or has finished exactly once; tasks not accepted never run. */
  lemma EachTaskOnce(states: seq<State>, steps: seq<Step>, i: nat, task: Task)
    requires Run(states, steps) && i < |states|
    ensures var s := states[i];
            s.finished[task] + |With(s, Running(task))| + (if task in s.buffer then 1 else 0)
            == if task < s.accepted then 1 else 0
  {
    RunKeepsInv(states, steps, i);
    var s := states[i];
    assert Once(s, task);
    if s.taken <= task < s.accepted {
      assert s.buffer[task - s.taken] == task;
    }
  }

  /** `Join` has closed the queue and seen every worker exit. */
  ghost predicate Joined(s: State) {
    s.stopped && forall t :: t in s.workers ==> s.workers[t].Exited?
  }

  /** When `Join` returns, every task submitted before closing has run exactly once, provided
      the pool has workers at all; without any, that holds only if no task was submitted. */
  lemma JoinMeansAllRun(states: seq<State>, steps: seq<Step>, i: nat)
    requires Run(states, steps) && i < |states| && Joined(states[i])
    ensures states[i].accepted == Submitted(states, steps, i)
    ensures (forall task :: 0 <= task < Submitted(states, steps, i) ==> states[i].finished[task] == 1)
            <==> states[i].workers.Keys != {} || Submitted(states, steps, i) == 0
  {
    AcceptedInOrder(states, steps, i);
    RunKeepsInv(states, steps, i);
    var s := states[i];
    forall task: Task
      ensures s.finished[task] == if task < s.taken then 1 else 0
    {
      assert Once(s, task);
      assert With(s, Running(task)) == {};
    }
    if s.workers.Keys != {} {
      var t :| t in s.workers.Keys;
      assert t in With(s, Exited);
    } else {
      NothingTakenWithoutWorkers(states, steps, i);
      var first: Task := 0;
      assert s.finished[first] == 0;
    }
  }

  /** It does happen: a pool without workers accepts a task and is joined. */
  lemma JoinLosesTask() returns (states: seq<State>, steps: seq<Step>)
    ensures Run(states, steps)
    ensures var s := states[|states| - 1]; Joined(s) && s.accepted == 1 && s.finished[0] == 0 && s.buffer == [0]
  {
    var s0 := State(false, [], map[], 0, 0, multiset{});
    var s1 := State(false, [0], map[], 1, 0, multiset{});
    states, steps := [s0, s1, s1.(stopped := true)], [Submit({}), Close];
    assert With(s0, Asleep) == {};
    assert Apply(s0, steps[0]) == s1;
    assert Apply(s1, steps[1]) == states[2];
  }

  lemma {:induction false} NothingTakenWithoutWorkers(states: seq<State>, steps: seq<Step>, i: nat)
    requires Run(states, steps) && i < |states| && states[0].workers.Keys == {}
    ensures states[i].taken == 0 && states[i].workers.Keys == {}
  {
    if i > 0 {
      NothingTakenWithoutWorkers(states, steps, i - 1);
    }
  }

  /** How much work is left after the queue is closed. */
  ghost function Remaining(s: State): nat {
    2 * |s.buffer| + |s.workers.Keys - With(s, Exited)| + |RunningSet(s)|
  }

  /** `Join` ends: once the queue is closed every step of a worker uses up some of
      the remaining work, and nothing ever adds to it. */
  lemma JoinTerminates(states: seq<State>, steps: seq<Step>, i: nat)
    requires Run(states, steps) && i < |steps| && states[i].stopped
    ensures states[i + 1].stopped && !steps[i].WakeUp?
    ensures Remaining(states[i + 1]) <= Remaining(states[i])
    ensures steps[i].Take? || steps[i].Finish? ==> Remaining(states[i + 1]) < Remaining(states[i])
  {
    hide Inv, Apply, Remaining;
    RunKeepsInv(states, steps, i);
    ClosedStep(states[i], steps[i]);
  }

  /** Until every worker has exited, some worker can go on. */
  lemma JoinGoesOn(states: seq<State>, steps: seq<Step>, i: nat)
    requires Run(states, steps) && i < |states| && states[i].stopped && !Joined(states[i])
    ensures exists t :: t in states[i].workers && (Enabled(states[i], Take(t)) || Enabled(states[i], Finish(t)))
  {
    RunKeepsInv(states, steps, i);
    var s := states[i];
    var t :| t in s.workers && !s.workers[t].Exited?;
    NobodySleeps(s, t);
    assert Enabled(s, Take(t)) || Enabled(s, Finish(t));
  }

  lemma ClosedStep(s: State, step: Step)
    requires Inv(s) && Enabled(s, step) && s.stopped
    ensures Apply(s, step).stopped && !step.WakeUp?
    ensures Remaining(Apply(s, step)) <= Remaining(s)
    ensures step.Take? || step.Finish? ==> Remaining(Apply(s, step)) < Remaining(s)
  {
    hide Remaining, QueueOk, OnceEach;
    match step
    case Submit(_) =>
    case WakeUp(t) => NobodySleeps(s, t);
    case Close => CloseUsesNothing(s);
    case Finish(t) => FinishUsesUp(s, t);
    case Take(t) => TakeUsesUp(s, t);
  }

  lemma NobodySleeps(s: State, t: Thread)
    requires SleepOk(s) && s.stopped && t in s.workers
    ensures !s.workers[t].Asleep?
  {
    assert s.workers[t].Asleep? <==> t in With(s, Asleep);
  }

  lemma CloseUsesNothing(s: State)
    ensures Remaining(Apply(s, Close)) == Remaining(s)
  {
    AtWoken(s.workers, s.workers.Keys, Exited);
    assert RunningSet(Apply(s, Close)) == RunningSet(s);
    assert Apply(s, Close).workers.Keys == s.workers.Keys;
  }

  lemma FinishUsesUp(s: State, t: Thread)
    requires Enabled(s, Finish(t))
    ensures Remaining(Apply(s, Finish(t))) < Remaining(s)
  {
    var s' := Apply(s, Finish(t));
    AtMoved(s.workers, t, Idle, Exited);
    assert RunningSet(s') == RunningSet(s) - {t} && t in RunningSet(s);
    assert s'.workers.Keys == s.workers.Keys;
  }

  lemma TakeUsesUp(s: State, t: Thread)
    requires Enabled(s, Take(t)) && s.stopped
    ensures Remaining(Apply(s, Take(t))) < Remaining(s)
  {
    if s.buffer != [] {
      TaskUsesUp(s, t);
    } else {
      ExitUsesUp(s, t);
    }
  }

  lemma TaskUsesUp(s: State, t: Thread)
    requires Enabled(s, Take(t)) && s.buffer != []
    ensures Remaining(Apply(s, Take(t))) < Remaining(s)
  {
    var s' := Apply(s, Take(t));
    AtMoved(s.workers, t, s'.workers[t], Exited);
    hide At;
    assert With(s', Exited) == With(s, Exited);
    assert s'.workers.Keys == s.workers.Keys;
    assert RunningSet(s') == RunningSet(s) + {t};
  }

  lemma ExitUsesUp(s: State, t: Thread)
    requires Enabled(s, Take(t)) && s.stopped && s.buffer == []
    ensures Remaining(Apply(s, Take(t))) < Remaining(s)
  {
    var s' := Apply(s, Take(t));
    AtMoved(s.workers, t, Exited, Exited);
    hide At;
    assert s'.workers.Keys == s.workers.Keys;
    assert RunningSet(s') == RunningSet(s);
    var active := s.workers.Keys - With(s, Exited);
    assert s.workers.Keys - With(s', Exited) == active - {t} && t in active;
  }
}
