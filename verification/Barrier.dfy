/** The benchmark `Barrier`: threads meet at each phase, and a thread may leave
    for good. Every mutex section is one atomic step; a sleeping thread may wake
    up without a reason. */
module Barriers {
  /** The fields that `lock_` guards. */
  datatype Shared = Shared(running: int, phase: nat, entered: int)

  datatype Outcome = CheckFailed | Sleeps(phaseCp: nat) | IsLast

  function Enter(s: Shared): (Outcome, Shared) {
    if s.entered >= s.running then (CheckFailed, s)
    else if s.entered + 1 < s.running then (Sleeps(s.phase), s.(entered := s.entered + 1))
    else (IsLast, s.(phase := s.phase + 1, entered := 0))
  }

  /** The predicate a waiter sleeps on. */
  predicate MayLeave(s: Shared, phaseCp: nat) {
    s.phase > phaseCp || s.entered == s.running
  }

  /** What a waiter does once it may leave; whether it is the last thread. */
  function Leave(s: Shared, phaseCp: nat): (bool, Shared) {
    if s.phase > phaseCp then (false, s) else (true, s.(phase := s.phase + 1, entered := 0))
  }

  /** A thread goes for good; whether the waiters are notified. */
  function TakeOut(s: Shared): (bool, Shared) {
    (s.entered != 0, s.(running := s.running - 1))
  }

  class Barrier {
    var runningThreads: int
    var phaseNumber: nat
    var entered: int

    function Fields(): Shared
      reads this
    {
      Shared(runningThreads, phaseNumber, entered)
    }

    constructor (numThreads: int)
      ensures Fields() == Shared(numThreads, 0, 0)
    {
      runningThreads, phaseNumber, entered := numThreads, 0, 0;
    }

    /** `createBarrier` up to its wait. */
    method CreateBarrier() returns (r: Outcome)
      modifies this
      ensures (r, Fields()) == Enter(old(Fields()))
      ensures r == CheckFailed <==> old(entered) >= old(runningThreads)
      ensures r == CheckFailed ==> Fields() == old(Fields())
    {
      if !(entered < runningThreads) {
        return CheckFailed;
      }
      entered := entered + 1;
      if entered < runningThreads {
        return Sleeps(phaseNumber);
      }
      phaseNumber := phaseNumber + 1;
      entered := 0;
      return IsLast;
    }

    /** `createBarrier` once its wait is over; whether this is the last thread. */
    method AfterWait(phaseCp: nat) returns (last: bool)
      requires MayLeave(Fields(), phaseCp)
      modifies this
      ensures (last, Fields()) == Leave(old(Fields()), phaseCp)
    {
      if phaseNumber > phaseCp {
        return false;
      }
      phaseNumber := phaseNumber + 1;
      entered := 0;
      return true;
    }

    method RemoveThread() returns (notifies: bool)
      modifies this
      ensures (notifies, Fields()) == TakeOut(old(Fields()))
      ensures notifies <==> old(entered) != 0
    {
      runningThreads := runningThreads - 1;
      notifies := entered != 0;
    }
  }

  // ------------------------------------------------------------ the protocol

  /** Where a thread is. `OwesNotify` is a last thread that has released the lock
      and still has to call `notify_all`. */
  datatype Place = Outside | Waiting(phaseCp: nat, asleep: bool) | OwesNotify | Removed

  type Thread = nat

  /** `calls[t]` counts the calls of `wait` that `t` has made; `lasts` lists the
      threads whose call returns true, in order. */
  datatype State = State(shared: Shared, place: map<Thread, Place>, calls: map<Thread, nat>, lasts: seq<Thread>)

  datatype Step = Call(t: Thread) | NotifyAll(t: Thread) | WakeUp(t: Thread) | Recheck(t: Thread) | Remove(t: Thread)

  function WakeAll(place: map<Thread, Place>): map<Thread, Place> {
    map t | t in place :: if place[t].Waiting? then place[t].(asleep := false) else place[t]
  }

  ghost predicate Init(s: State, threads: set<Thread>) {
    && s.shared == Shared(|threads|, 0, 0) && s.lasts == []
    && s.place.Keys == s.calls.Keys == threads
    && forall t :: t in threads ==> s.place[t] == Outside && s.calls[t] == 0
  }

  ghost predicate Enabled(s: State, step: Step) {
    && step.t in s.place && step.t in s.calls
    && match step
       case Call(t) => s.place[t].Outside?
       case NotifyAll(t) => s.place[t].OwesNotify?
       case WakeUp(t) => s.place[t].Waiting? && s.place[t].asleep
       case Recheck(t) => s.place[t].Waiting? && !s.place[t].asleep
       case Remove(t) => s.place[t].Outside?
  }

  ghost function Apply(s: State, step: Step): State
    requires Enabled(s, step)
  {
    match step
    case Call(t) =>
      var (outcome, shared) := Enter(s.shared);
      var called := s.(shared := shared, calls := s.calls[t := s.calls[t] + 1]);
      (match outcome
       case CheckFailed => s
       case Sleeps(cp) => called.(place := s.place[t := Waiting(cp, true)])
       case IsLast => called.(place := s.place[t := OwesNotify], lasts := s.lasts + [t]))
    case NotifyAll(t) => s.(place := WakeAll(s.place)[t := Outside])
    case WakeUp(t) => s.(place := s.place[t := s.place[t].(asleep := false)])
    case Recheck(t) =>
      var cp := s.place[t].phaseCp;
      if !MayLeave(s.shared, cp) then s.(place := s.place[t := Waiting(cp, true)])
      else
        var (last, shared) := Leave(s.shared, cp);
        if last then s.(shared := shared, place := s.place[t := OwesNotify], lasts := s.lasts + [t])
        else s.(shared := shared, place := s.place[t := Outside])
    case Remove(t) =>
      var (notifies, shared) := TakeOut(s.shared);
      var place := s.place[t := Removed];
      s.(shared := shared, place := if notifies then WakeAll(place) else place)
  }

  ghost function Alive(s: State): set<Thread> {
    set t | t in s.place && !s.place[t].Removed?
  }

  /** The threads that have entered the current phase. */
  ghost function Entered(s: State): set<Thread> {
    set t | t in s.place && s.place[t].Waiting? && s.place[t].phaseCp == s.shared.phase
  }

  ghost predicate Counts(s: State) {
    && s.place.Keys == s.calls.Keys
    && s.shared.running == |Alive(s)|
    && s.shared.entered == |Entered(s)|
    && |s.lasts| == s.shared.phase
  }

  /** Calls and phases go together, thread by thread. */
  ghost predicate PlaceOk(s: State, t: Thread)
    requires t in s.place && t in s.calls
  {
    match s.place[t]
    case Outside => s.calls[t] == s.shared.phase
    case OwesNotify => s.calls[t] == s.shared.phase && s.shared.phase > 0
    case Waiting(cp, asleep) =>
      && s.calls[t] == cp + 1 && (cp == s.shared.phase || cp + 1 == s.shared.phase)
      && (asleep && cp < s.shared.phase ==> exists u :: u in s.place && s.place[u].OwesNotify?)
      && (asleep ==> s.shared.entered != s.shared.running || cp < s.shared.phase)
    case Removed => true
  }

  ghost predicate Inv(s: State) {
    Counts(s) && forall t :: t in s.place ==> PlaceOk(s, t)
  }

  lemma InitInv(s: State, threads: set<Thread>)
    requires Init(s, threads)
    ensures Inv(s)
  {
    assert Alive(s) == threads;
    assert Entered(s) == {};
  }

  /** The check in `createBarrier` never fails: a thread outside has not entered. */
  lemma CheckHolds(s: State, t: Thread)
    requires Inv(s) && t in s.place && s.place[t].Outside?
    ensures s.shared.entered < s.shared.running
  {
    var e, a := Entered(s), Alive(s);
    assert e <= a - {t};
    SubsetSize(e, a - {t});
  }

  lemma {:induction false} SubsetSize<T>(a: set<T>, b: set<T>)
    requires a <= b
    ensures |a| <= |b|
    ensures |a| == |b| ==> a == b
  {
    if a != {} {
      var x :| x in a;
      SubsetSize(a - {x}, b - {x});
    }
  }

  /** When everyone alive has entered, nobody alive is anywhere else. */
  lemma EveryoneEntered(s: State, extra: set<Thread>)
    requires Inv(s) && Entered(s) !! extra && extra <= Alive(s)
    requires s.shared.entered + |extra| == s.shared.running
    ensures Alive(s) == Entered(s) + extra
  {
    assert |Entered(s) + extra| == |Entered(s)| + |extra|;
    SubsetSize(Entered(s) + extra, Alive(s));
  }

  lemma CallKeepsInv(s: State, t: Thread)
    requires Inv(s) && Enabled(s, Call(t))
    ensures Inv(Apply(s, Call(t)))
  {
    CheckHolds(s, t);
    if s.shared.entered + 1 < s.shared.running {
      SleepingCallKeepsInv(s, t);
    } else {
      LastCallKeepsInv(s, t);
    }
  }

  lemma SleepingCallKeepsInv(s: State, t: Thread)
    requires Inv(s) && Enabled(s, Call(t)) && s.shared.entered + 1 < s.shared.running
    ensures Inv(Apply(s, Call(t)))
  {
    var s' := Apply(s, Call(t));
    assert Alive(s') == Alive(s);
    assert Entered(s') == Entered(s) + {t};
    forall u | u in s'.place
      ensures PlaceOk(s', u)
    {
      assert PlaceOk(s, u);
      if u != t && s.place[u].Waiting? && s.place[u].asleep && s.place[u].phaseCp < s.shared.phase {
        var v :| v in s.place && s.place[v].OwesNotify?;
        assert s'.place[v].OwesNotify?;
      }
    }
  }

  lemma LastCallKeepsInv(s: State, t: Thread)
    requires Inv(s) && Enabled(s, Call(t)) && s.shared.entered + 1 == s.shared.running
    ensures Inv(Apply(s, Call(t)))
  {
    var s' := Apply(s, Call(t));
    assert Alive(s') == Alive(s);
    EveryoneEntered(s, {t});
    forall u | u in s.place && u != t && !s.place[u].Removed?
      ensures u in Entered(s)
    {
      assert u in Alive(s);
    }
    forall u | u in s'.place
      ensures PlaceOk(s', u) && u !in Entered(s')
    {
      assert PlaceOk(s, u);
      assert s'.place[t].OwesNotify?;
    }
    assert Entered(s') == {};
  }

  lemma NotifyKeepsInv(s: State, t: Thread)
    requires Inv(s) && Enabled(s, NotifyAll(t))
    ensures Inv(Apply(s, NotifyAll(t)))
  {
    var s' := Apply(s, NotifyAll(t));
    assert Alive(s') == Alive(s);
    assert Entered(s') == Entered(s);
    forall u | u in s'.place
      ensures PlaceOk(s', u)
    {
      assert PlaceOk(s, u);
    }
  }

  lemma WakeUpKeepsInv(s: State, t: Thread)
    requires Inv(s) && Enabled(s, WakeUp(t))
    ensures Inv(Apply(s, WakeUp(t)))
  {
    var s' := Apply(s, WakeUp(t));
    assert Alive(s') == Alive(s);
    assert Entered(s') == Entered(s);
    forall u | u in s'.place
      ensures PlaceOk(s', u)
    {
      assert PlaceOk(s, u);
      if u != t && s.place[u].Waiting? && s.place[u].asleep && s.place[u].phaseCp < s.shared.phase {
        var v :| v in s.place && s.place[v].OwesNotify?;
        assert s'.place[v].OwesNotify?;
      }
    }
  }

  lemma RecheckKeepsInv(s: State, t: Thread)
    requires Inv(s) && Enabled(s, Recheck(t))
    ensures Inv(Apply(s, Recheck(t)))
  {
    if MayLeave(s.shared, s.place[t].phaseCp) && s.shared.phase <= s.place[t].phaseCp {
      LastAfterRemoval(s, t);
    } else {
      OrdinaryRecheck(s, t);
    }
  }

  /** Threads have left for good, and so a waiter turns out to be the last. */
  lemma LastAfterRemoval(s: State, t: Thread)
    requires Inv(s) && Enabled(s, Recheck(t))
    requires MayLeave(s.shared, s.place[t].phaseCp) && s.shared.phase <= s.place[t].phaseCp
    ensures Inv(Apply(s, Recheck(t)))
  {
    var s' := Apply(s, Recheck(t));
    assert PlaceOk(s, t);
    assert Alive(s') == Alive(s);
    EveryoneEntered(s, {});
    assert s'.place[t].OwesNotify?;
    forall u | u in s'.place
      ensures PlaceOk(s', u) && u !in Entered(s')
    {
      assert PlaceOk(s, u);
      assert !s.place[u].Removed? ==> u in Alive(s);
    }
    assert Entered(s') == {};
  }

  lemma OrdinaryRecheck(s: State, t: Thread)
    requires Inv(s) && Enabled(s, Recheck(t))
    requires !(MayLeave(s.shared, s.place[t].phaseCp) && s.shared.phase <= s.place[t].phaseCp)
    ensures Inv(Apply(s, Recheck(t)))
  {
    var s' := Apply(s, Recheck(t));
    assert PlaceOk(s, t);
    assert Alive(s') == Alive(s);
    assert Entered(s') == Entered(s);
    forall u | u in s'.place
      ensures PlaceOk(s', u)
    {
      assert PlaceOk(s, u);
      if u != t && s.place[u].Waiting? && s.place[u].asleep && s.place[u].phaseCp < s.shared.phase {
        var v :| v in s.place && s.place[v].OwesNotify?;
        assert s'.place[v].OwesNotify?;
      }
    }
  }

  lemma RemoveKeepsInv(s: State, t: Thread)
    requires Inv(s) && Enabled(s, Remove(t))
    ensures Inv(Apply(s, Remove(t)))
  {
    var s' := Apply(s, Remove(t));
    assert Alive(s') == Alive(s) - {t};
    assert Entered(s') == Entered(s);
    forall u | u in s'.place
      ensures PlaceOk(s', u)
    {
      assert PlaceOk(s, u);
      if s.shared.entered == 0 && s.place[u].Waiting? && s.place[u].asleep {
        assert u !in Entered(s);
        var v :| v in s.place && s.place[v].OwesNotify?;
        assert s'.place[v].OwesNotify?;
      }
    }
  }

  lemma StepKeepsInv(s: State, step: Step)
    requires Inv(s) && Enabled(s, step)
    ensures Inv(Apply(s, step))
  {
    hide Inv, Apply;
    match step
    case Call(t) => CallKeepsInv(s, t);
    case NotifyAll(t) => NotifyKeepsInv(s, t);
    case WakeUp(t) => WakeUpKeepsInv(s, t);
    case Recheck(t) => RecheckKeepsInv(s, t);
    case Remove(t) => RemoveKeepsInv(s, t);
  }

  /** A run: any number of steps of any threads, in any order. */
  ghost predicate Run(states: seq<State>, steps: seq<Step>, threads: set<Thread>) {
    && |states| == |steps| + 1 && Init(states[0], threads)
    && forall i :: 0 <= i < |steps| ==> Enabled(states[i], steps[i]) && states[i + 1] == Apply(states[i], steps[i])
  }

  lemma {:induction false} RunKeepsInv(states: seq<State>, steps: seq<Step>, threads: set<Thread>, i: nat)
    requires Run(states, steps, threads) && i < |states|
    ensures Inv(states[i])
  {
    hide Inv, Apply, Enabled, Init;
    if i == 0 {
      InitInv(states[0], threads);
    } else {
      RunKeepsInv(states, steps, threads, i - 1);
      StepKeepsInv(states[i - 1], steps[i - 1]);
    }
  }

  /** In this step `t` returns from `wait`. */
  ghost predicate Returns(s: State, step: Step) {
    && Enabled(s, step) && (step.NotifyAll? || step.Recheck?)
    && Apply(s, step).place[step.t].Outside?
  }

  /** Phase separation: no thread returns from its k-th `wait` before every thread
      that has not been removed has made its k-th call; and every thread still
      waiting saved the current phase or the one before. */
  lemma PhaseSeparation(states: seq<State>, steps: seq<Step>, threads: set<Thread>, i: nat)
    requires Run(states, steps, threads) && i < |steps|
    ensures var s := states[i];
            && s.place.Keys == s.calls.Keys && steps[i].t in s.place
            && (Returns(s, steps[i]) ==>
                  forall u :: u in s.place && !s.place[u].Removed? ==> s.calls[u] >= s.calls[steps[i].t])
            && (forall u :: u in s.place && s.place[u].Waiting? ==>
                  s.place[u].phaseCp == s.shared.phase || s.place[u].phaseCp + 1 == s.shared.phase)
  {
    RunKeepsInv(states, steps, threads, i);
    var s := states[i];
    forall u | u in s.place
      ensures PlaceOk(s, u)
    {
    }
    assert PlaceOk(s, steps[i].t);
  }

  /** Exactly one call per phase returns true, and the check never fails. */
  lemma OneLastPerPhase(states: seq<State>, steps: seq<Step>, threads: set<Thread>, i: nat)
    requires Run(states, steps, threads) && i < |steps|
    ensures |states[i].lasts| == states[i].shared.phase
    ensures steps[i].Call? ==> Enter(states[i].shared).0 != CheckFailed
    ensures |states[i + 1].lasts|
        == |states[i].lasts| + (if states[i + 1].shared.phase > states[i].shared.phase then 1 else 0)
  {
    RunKeepsInv(states, steps, threads, i);
    RunKeepsInv(states, steps, threads, i + 1);
    if steps[i].Call? {
      CheckHolds(states[i], steps[i].t);
    }
  }

  /** A sleeper whose predicate holds is owed a `notify_all` by another thread. */
  lemma NoLostWakeUp(states: seq<State>, steps: seq<Step>, threads: set<Thread>, i: nat, t: Thread)
    requires Run(states, steps, threads) && i < |states| && t in states[i].place
    requires states[i].place[t].Waiting? && states[i].place[t].asleep
        && MayLeave(states[i].shared, states[i].place[t].phaseCp)
    ensures exists u :: u in states[i].place && u != t && states[i].place[u].OwesNotify?
  {
    RunKeepsInv(states, steps, threads, i);
    assert PlaceOk(states[i], t);
    var u :| u in states[i].place && states[i].place[u].OwesNotify?;
  }

  /** The barrier never blocks for good: while threads are alive and all of them
      are inside, some thread can notify, or leave without going back to sleep. */
  lemma NeverStuck(states: seq<State>, steps: seq<Step>, threads: set<Thread>, i: nat)
    requires Run(states, steps, threads) && i < |states|
    requires Alive(states[i]) != {} && forall t :: t in states[i].place ==> !states[i].place[t].Outside?
    ensures var s := states[i];
            exists t :: t in s.place &&
              (s.place[t].OwesNotify?
                  || (s.place[t].Waiting? && !s.place[t].asleep && MayLeave(s.shared, s.place[t].phaseCp)))
  {
    RunKeepsInv(states, steps, threads, i);
    var s := states[i];
    var t :| t in Alive(s);
    forall u | u in s.place
      ensures PlaceOk(s, u)
    {
    }
    if !exists u :: u in s.place && s.place[u].OwesNotify? {
      if Alive(s) == Entered(s) {
        assert PlaceOk(s, t) && !s.place[t].asleep;
      } else {
        SubsetSize(Entered(s), Alive(s));
        var u :| u in Alive(s) && u !in Entered(s);
        assert PlaceOk(s, u) && !s.place[u].asleep;
      }
    }
  }
}
