/** The locking of `ConcurrentHashMap`: operations on one key take one stripe,
    `Clear` and `Rehash` take all stripes in ascending order. */
module HashMapLocks {
  import opened Options
  import opened Arithmetic
  import opened HashMaps

  type Thread = nat

  /** Where a thread is. `Climbing(i)` holds the locks below `i` and asks for lock
      `i`; `Descending(i)` holds the locks below `i` and releases lock `i - 1`. */
  datatype Place =
    | Idle
    | WantOne(hash: nat)
    | InOne(hash: nat, bucket: nat)
    | Climbing(next: nat, rehash: bool)
    | InAll(rehash: bool)
    | Descending(below: nat)

  datatype State = State(locks: nat, bucketCnt: nat, owner: seq<Option<Thread>>, place: map<Thread, Place>)

  datatype Step =
    | AskOne(t: Thread, hash: nat)
    | LockOne(t: Thread)
    | UnlockOne(t: Thread)
    | AskAll(t: Thread, rehash: bool)
    | LockNext(t: Thread)
    | Act(t: Thread)
    | UnlockLast(t: Thread)

  ghost predicate Enabled(s: State, step: Step) {
    && step.t in s.place
    && var p := s.place[step.t];
    match step
    case AskOne(_, _) => p.Idle?
    case LockOne(_) => p.WantOne? && s.locks > 0 && p.hash % s.locks < |s.owner| && s.owner[p.hash % s.locks] == None
        && s.bucketCnt > 0
    case UnlockOne(_) => p.InOne? && s.locks > 0 && p.hash % s.locks < |s.owner|
    case AskAll(_, _) => p.Idle?
    case LockNext(_) => p.Climbing? && p.next < |s.owner| && s.owner[p.next] == None
    case Act(_) => p.InAll?
    case UnlockLast(_) => p.Descending? && 0 < p.below <= |s.owner|
  }

  ghost function Apply(s: State, step: Step): State
    requires Enabled(s, step)
  {
    var t, p := step.t, s.place[step.t];
    match step
    case AskOne(_, hash) => s.(place := s.place[t := WantOne(hash)])
    case LockOne(_) =>
      s.(owner := s.owner[p.hash % s.locks := Some(t)], place := s.place[t := InOne(p.hash, p.hash % s.bucketCnt)])
    case UnlockOne(_) => s.(owner := s.owner[p.hash % s.locks := None], place := s.place[t := Idle])
    case AskAll(_, rehash) => s.(place := s.place[t := Climbing(0, rehash)])
    case LockNext(_) =>
      s.(owner := s.owner[p.next := Some(t)],
         place := s.place[t := if p.next + 1 == s.locks then InAll(p.rehash) else Climbing(p.next + 1, p.rehash)])
    case Act(_) =>
      s.(bucketCnt := if p.rehash then 3 * s.bucketCnt else s.bucketCnt, place := s.place[t := Descending(s.locks)])
    case UnlockLast(_) =>
      s.(owner := s.owner[p.below - 1 := None],
         place := s.place[t := if p.below == 1 then Idle else Descending(p.below - 1)])
  }

  /** `p` is the place of a thread that holds lock `i`. */
  predicate HoldsLock(locks: nat, p: Place, i: nat)
    requires locks > 0
  {
    match p
    case Idle => false
    case WantOne(_) => false
    case InOne(hash, _) => i == hash % locks
    case Climbing(next, _) => i < next
    case InAll(_) => true
    case Descending(below) => i < below
  }

  ghost predicate Init(s: State) {
    && s.locks > 0 && s.bucketCnt == s.locks && |s.owner| == s.locks
    && (forall i :: 0 <= i < s.locks ==> s.owner[i] == None)
    && (forall t :: t in s.place ==> s.place[t] == Idle)
  }

  ghost predicate Striped(s: State) {
    s.locks > 0 && exists r: nat :: s.bucketCnt == s.locks * PowerOf3(r)
  }

  ghost predicate PlaceOk(s: State, p: Place) {
    match p
    case Idle => true
    case WantOne(_) => true
    case InOne(hash, bucket) => s.bucketCnt > 0 && bucket == hash % s.bucketCnt
    case Climbing(next, _) => next < s.locks
    case InAll(_) => true
    case Descending(below) => 0 < below <= s.locks
  }

  ghost predicate Inv(s: State) {
    && Striped(s) && |s.owner| == s.locks
    && (forall t :: t in s.place ==> PlaceOk(s, s.place[t]))
    && (forall i, t :: 0 <= i < s.locks && t in s.place ==>
        (s.owner[i] == Some(t) <==> HoldsLock(s.locks, s.place[t], i)))
    && (forall i :: 0 <= i < s.locks && s.owner[i].Some? ==> s.owner[i].value in s.place)
  }

  lemma InitInv(s: State)
    requires Init(s)
    ensures Inv(s)
  {
    assert s.bucketCnt == s.locks * PowerOf3(0);
  }

  lemma StripedStays(s: State, step: Step)
    requires Striped(s) && Enabled(s, step)
    ensures Striped(Apply(s, step))
  {
    var r: nat :| s.bucketCnt == s.locks * PowerOf3(r);
    TripleGrowth(s.locks, r);
    var s' := Apply(s, step);
    assert s'.bucketCnt == s'.locks * PowerOf3(r) || s'.bucketCnt == s'.locks * PowerOf3(r + 1);
  }

  lemma StepKeepsInv(s: State, step: Step)
    requires Inv(s) && Enabled(s, step)
    ensures Inv(Apply(s, step))
  {
    StripedStays(s, step);
    PlacesStayOk(s, step);
    OwnersStay(s, step);
    hide Striped, Enabled, PlaceOk, HoldsLock;
    var s' := Apply(s, step);
    forall i | 0 <= i < s'.locks && s'.owner[i].Some?
      ensures s'.owner[i].value in s'.place
    {
      assert s.owner[i].Some? ==> s.owner[i].value in s.place;
    }
  }

  lemma OwnersStay(s: State, step: Step)
    requires Inv(s) && Enabled(s, step)
    ensures var s' := Apply(s, step);
            && s'.locks == s.locks && |s'.owner| == s.locks && s'.place.Keys == s.place.Keys
            && forall i, u :: 0 <= i < s.locks && u in s'.place ==>
                (s'.owner[i] == Some(u) <==> HoldsLock(s.locks, s'.place[u], i))
  {
    hide Striped, PlaceOk, HoldsLock;
    var s' := Apply(s, step);
    forall i, u | 0 <= i < s.locks && u in s'.place
      ensures s'.owner[i] == Some(u) <==> HoldsLock(s.locks, s'.place[u], i)
    {
      OwnerStays(s, step, i, u);
    }
  }

  lemma OwnerStays(s: State, step: Step, i: nat, u: Thread)
    requires Enabled(s, step) && |s.owner| == s.locks && i < s.locks && u in s.place
    requires PlaceOk(s, s.place[step.t])
    requires s.owner[i] == Some(u) <==> HoldsLock(s.locks, s.place[u], i)
    requires s.owner[i] == Some(step.t) <==> HoldsLock(s.locks, s.place[step.t], i)
    ensures Apply(s, step).owner[i] == Some(u) <==> HoldsLock(s.locks, Apply(s, step).place[u], i)
  {
  }

  lemma OneHolder(s: State, t: Thread, u: Thread, k: nat)
    requires Inv(s) && t in s.place && u in s.place && t != u && k < s.locks
    ensures !HoldsLock(s.locks, s.place[t], k) || !HoldsLock(s.locks, s.place[u], k)
  {
    assert s.owner[k] == Some(t) <==> HoldsLock(s.locks, s.place[t], k);
    assert s.owner[k] == Some(u) <==> HoldsLock(s.locks, s.place[u], k);
  }

  lemma PlacesStayOk(s: State, step: Step)
    requires Inv(s) && Enabled(s, step)
    ensures forall u :: u in Apply(s, step).place ==> PlaceOk(Apply(s, step), Apply(s, step).place[u])
  {
    var t, s' := step.t, Apply(s, step);
    BucketsExist(s);
    forall u | u in s'.place
      ensures PlaceOk(s', s'.place[u])
    {
      assert PlaceOk(s, s.place[u]);
      if u != t && s.place[u].InOne? {
        OneHolder(s, t, u, s.place[u].hash % s.locks);
      }
    }
  }

  ghost predicate Run(states: seq<State>, steps: seq<Step>) {
    && |states| == |steps| + 1 && Init(states[0])
    && forall i :: 0 <= i < |steps| ==> Enabled(states[i], steps[i]) && states[i + 1] == Apply(states[i], steps[i])
  }

  lemma {:induction false} RunKeepsInv(states: seq<State>, steps: seq<Step>, i: nat)
    requires Run(states, steps) && i < |states|
    ensures Inv(states[i])
  {
    hide Inv, Enabled, Apply;
    if i == 0 {
      InitInv(states[0]);
    } else {
      RunKeepsInv(states, steps, i - 1);
      StepKeepsInv(states[i - 1], steps[i - 1]);
    }
  }

  /** Keys that share a bucket share a stripe. */
  lemma SameBucketSameStripe(locks: nat, factor: nat, h: nat, g: nat)
    requires locks > 0 && factor > 0 && h % (locks * factor) == g % (locks * factor)
    ensures h % locks == g % locks
  {
    var n := locks * factor;
    ModOfMultiple(locks, factor, h);
    ModOfMultiple(locks, factor, g);
  }

  lemma ModOfMultiple(locks: nat, factor: nat, h: nat)
    requires locks > 0 && factor > 0
    ensures h % locks == (h % (locks * factor)) % locks
  {
    var n := locks * factor;
    var q, m := h / n, h % n;
    DivisionEquation(h, n);
    DivisionEquation(m, locks);
    Regroup(q, locks, factor, m / locks);
    Division(h, q * factor + m / locks, m % locks, locks);
  }

  lemma Regroup(q: nat, locks: nat, factor: nat, r: nat)
    ensures q * (locks * factor) + r * locks == (q * factor + r) * locks
  {
    assert q * (locks * factor) == q * factor * locks;
    assert (q * factor + r) * locks == q * factor * locks + r * locks;
  }

  /** No two threads are ever inside the same bucket, and while a thread works on the
      whole table no other is inside a bucket or works on the whole table. */
  lemma NoRaces(states: seq<State>, steps: seq<Step>, i: nat, t: Thread, u: Thread)
    requires Run(states, steps) && i < |states| && t in states[i].place && u in states[i].place && t != u
    ensures var p, q := states[i].place[t], states[i].place[u];
            && (p.InAll? ==> !q.InAll? && !q.InOne?)
            && (p.InOne? && q.InOne? ==> p.bucket != q.bucket)
  {
    RunKeepsInv(states, steps, i);
    Exclusive(states[i], t, u);
  }

  lemma Exclusive(s: State, t: Thread, u: Thread)
    requires Inv(s) && t in s.place && u in s.place && t != u
    ensures var p, q := s.place[t], s.place[u];
            && (p.InAll? ==> !q.InAll? && !q.InOne?)
            && (p.InOne? && q.InOne? ==> p.bucket != q.bucket)
  {
    var p, q := s.place[t], s.place[u];
    OneHolder(s, t, u, if q.InOne? then q.hash % s.locks else 0);
    assert PlaceOk(s, p) && PlaceOk(s, q);
    if p.InOne? && q.InOne? && q.bucket == p.bucket {
      var r: nat :| s.bucketCnt == s.locks * PowerOf3(r);
      SameBucketSameStripe(s.locks, PowerOf3(r), p.hash, q.hash);
    }
  }

  /** A step of a thread that is in the middle of an operation. */
  predicate Continues(step: Step) { !step.AskOne? && !step.AskAll? }

  /** No deadlock: while any thread is in the middle of an operation, some thread
      in the middle of an operation can go on. */
  lemma NeverDeadlocked(states: seq<State>, steps: seq<Step>, i: nat, t: Thread)
    requires Run(states, steps) && i < |states| && t in states[i].place && !states[i].place[t].Idle?
    ensures exists step :: Continues(step) && Enabled(states[i], step)
  {
    RunKeepsInv(states, steps, i);
    var s := states[i];
    BucketsExist(s);
    var step := CanContinue(s, t);
  }

  lemma BucketsExist(s: State)
    requires Striped(s)
    ensures s.bucketCnt > 0
  {
    var r: nat :| s.bucketCnt == s.locks * PowerOf3(r);
    assert s.locks * PowerOf3(r) >= s.locks * 1;
  }

  /** From a blocked thread to the holder of the lock it wants: each thread on
      the way wants a higher lock than the one before. */
  lemma {:induction false} CanContinue(s: State, t: Thread) returns (step: Step)
    requires Inv(s) && s.bucketCnt > 0 && t in s.place && !s.place[t].Idle?
    ensures Continues(step) && Enabled(s, step)
    decreases match s.place[t] case WantOne(_) => s.locks + 1 case Climbing(next, _) => s.locks - next case _ => 0
  {
    var p := s.place[t];
    assert PlaceOk(s, p);
    match p
    case InOne(_, _) => step := UnlockOne(t);
    case InAll(_) => step := Act(t);
    case Descending(_) => step := UnlockLast(t);
    case WantOne(hash) =>
      step := LockOne(t);
      var wanted := s.owner[hash % s.locks];
      if wanted.Some? {
        assert HoldsLock(s.locks, s.place[wanted.value], hash % s.locks);
        step := CanContinue(s, wanted.value);
      }
    case Climbing(next, _) =>
      step := LockNext(t);
      var wanted := s.owner[next];
      if wanted.Some? {
        assert HoldsLock(s.locks, s.place[wanted.value], next);
        step := CanContinue(s, wanted.value);
      }
  }
}
