/** `ConcurrentHashMap` with its data, run by any number of threads: what the table and
    the size are like in every interleaving, and when a key gets into it twice. */
module HashMapRuns {
  import opened HashMaps
  import opened HashMapLocks
  import opened Options

  type Key = nat

  /** The entries, by key; the values play no part. */
  type Table = seq<seq<Key>>

  /** What a thread is doing. `Insert` looks for the key in one critical section and
      stores it in another; the counter is adjusted inside the section, after the list. */
  datatype Op =
    | Rest
    | Find(key: Key)
    | Present
    | Missing(key: Key)
    | Store(key: Key)
    | Stored
    | Erase(key: Key)
    | Erased

  datatype Data = Data(locks: HashMapLocks.State, ops: map<Thread, Op>, table: Table, size: int)

  datatype Move =
    | StartInsert(t: Thread, key: Key)
    | Look(t: Thread)
    | StoreNext(t: Thread)
    | Push(t: Thread)
    | CountUp(t: Thread)
    | StartErase(t: Thread, key: Key)
    | Remove(t: Thread)
    | CountDown(t: Thread)
    | StartAll(t: Thread, rehash: bool)
    | Work(t: Thread)
    | Locking(step: HashMapLocks.Step)

  /** The step of the locks that goes with a move, if any. */
  function LockStep(d: Data, hash: Key -> nat, move: Move): Option<HashMapLocks.Step> {
    match move
    case StartInsert(t, key) => Some(AskOne(t, hash(key)))
    case StoreNext(t) => if t in d.ops && d.ops[t].Missing? then Some(AskOne(t, hash(d.ops[t].key))) else None
    case StartErase(t, key) => Some(AskOne(t, hash(key)))
    case StartAll(t, rehash) => Some(AskAll(t, rehash))
    case Work(t) => Some(Act(t))
    case Locking(step) => Some(step)
    case _ => None
  }

  function Mover(move: Move): Thread {
    if move.Locking? then move.step.t else move.t
  }

  /** The bucket that `t` has locked. */
  ghost predicate Inside(d: Data, t: Thread) {
    t in d.locks.place && d.locks.place[t].InOne? && d.locks.place[t].bucket < |d.table|
  }

  ghost predicate Allowed(d: Data, hash: Key -> nat, move: Move) {
    var t := Mover(move);
    && t in d.ops && t in d.locks.place
    && (LockStep(d, hash, move).Some? ==> HashMapLocks.Enabled(d.locks, LockStep(d, hash, move).value))
    && match move
       case StartInsert(_, _) => d.ops[t].Rest?
       case Look(_) => d.ops[t].Find? && Inside(d, t)
       case StoreNext(_) => d.ops[t].Missing?
       case Push(_) => d.ops[t].Store? && Inside(d, t)
       case CountUp(_) => d.ops[t].Stored?
       case StartErase(_, _) => d.ops[t].Rest?
       case Remove(_) => d.ops[t].Erase? && Inside(d, t)
       case CountDown(_) => d.ops[t].Erased?
       case StartAll(_, _) => d.ops[t].Rest?
       case Work(_) => d.ops[t].Rest? && d.table != []
       case Locking(step) =>
         || step.LockOne? || step.LockNext? || step.UnlockLast?
         || (step.UnlockOne? && (d.ops[t].Rest? || d.ops[t].Present? || d.ops[t].Missing?))
  }

  ghost function After(d: Data, hash: Key -> nat, move: Move): Data
    requires Allowed(d, hash, move)
  {
    var t := Mover(move);
    var locked := match LockStep(d, hash, move)
      case None => d.locks
      case Some(step) => HashMapLocks.Apply(d.locks, step);
    match move
    case StartInsert(_, key) => d.(locks := locked, ops := d.ops[t := Find(key)])
    case Look(_) =>
      var key := d.ops[t].key;
      d.(ops := d.ops[t := if key in d.table[d.locks.place[t].bucket] then Present else Missing(key)])
    case StoreNext(_) => d.(locks := locked, ops := d.ops[t := Store(d.ops[t].key)])
    case Push(_) => d.(table := Pushed(d.table, d.locks.place[t].bucket, d.ops[t].key), ops := d.ops[t := Stored])
    case CountUp(_) => d.(size := d.size + 1, ops := d.ops[t := Rest])
    case StartErase(_, key) => d.(locks := locked, ops := d.ops[t := Erase(key)])
    case Remove(_) =>
      var b, key := d.locks.place[t].bucket, d.ops[t].key;
      if key in d.table[b] then d.(table := d.table[b := Without(d.table[b], key)], ops := d.ops[t := Erased])
      else d.(ops := d.ops[t := Rest])
    case CountDown(_) => d.(size := d.size - 1, ops := d.ops[t := Rest])
    case StartAll(_, _) => d.(locks := locked)
    case Work(_) =>
      if d.locks.place[t].rehash then
        d.(locks := locked, table := Spread(d.table, hash, |d.table|, NoEntries(3 * |d.table|)))
      else d.(locks := locked, table := NoEntries(|d.table|), size := 0)
    case Locking(step) =>
      d.(locks := locked, ops := if step.UnlockOne? && d.ops[t].Present? then d.ops[t := Rest] else d.ops)
  }

  // -------------------------------------------------------------- invariants

  /** Every entry is in the bucket of its hash. */
  ghost predicate InBuckets(table: Table, hash: Key -> nat) {
    forall b :: 0 <= b < |table| ==> AllHashTo(table[b], hash, |table|, b)
  }

  ghost predicate AllHashTo(bucket: seq<Key>, hash: Key -> nat, n: nat, b: nat)
    requires n > 0
  {
    forall key :: key in bucket ==> hash(key) % n == b
  }

  /** Where the locks have a thread while it does `op`. */
  predicate Fits(op: Op, place: Place, hash: Key -> nat) {
    match op
    case Rest => !place.WantOne?
    case Find(key) => Wants(place, hash(key))
    case Present => place.InOne?
    case Missing(_) => place.InOne? || place.Idle?
    case Store(key) => Wants(place, hash(key))
    case Stored => place.InOne?
    case Erase(key) => Wants(place, hash(key))
    case Erased => place.InOne?
  }

  predicate Wants(place: Place, h: nat) {
    (place.WantOne? || place.InOne?) && place.hash == h
  }

  /** Threads that have stored an entry they have not counted yet. */
  ghost function Storing(ops: map<Thread, Op>): set<Thread> {
    set t | t in ops && ops[t].Stored?
  }

  /** Threads that have removed an entry they still count. */
  ghost function Erasing(ops: map<Thread, Op>): set<Thread> {
    set t | t in ops && ops[t].Erased?
  }

  ghost predicate Shape(d: Data, hash: Key -> nat) {
    && HashMapLocks.Inv(d.locks) && d.ops.Keys == d.locks.place.Keys && |d.table| == d.locks.bucketCnt > 0
    && forall t :: t in d.ops ==> Fits(d.ops[t], d.locks.place[t], hash)
  }

  ghost predicate Sized(d: Data) {
    d.size == Total(d.table) - |Storing(d.ops)| + |Erasing(d.ops)|
  }

  ghost predicate DataInv(d: Data, hash: Key -> nat) {
    Shape(d, hash) && InBuckets(d.table, hash) && Sized(d)
  }

  ghost predicate Init(d: Data) {
    && HashMapLocks.Init(d.locks) && d.ops.Keys == d.locks.place.Keys
    && (forall t :: t in d.ops ==> d.ops[t] == Rest)
    && d.table == NoEntries(d.locks.bucketCnt) && d.size == 0
  }

  lemma InitHasInv(d: Data, hash: Key -> nat)
    requires Init(d)
    ensures DataInv(d, hash)
  {
    HashMapLocks.InitInv(d.locks);
    TotalEmpty(d.table);
    assert Storing(d.ops) == {} && Erasing(d.ops) == {};
  }

  // ------------------------------------------------------------ single moves

  lemma StepKeepsBuckets(s: HashMapLocks.State, step: HashMapLocks.Step)
    requires HashMapLocks.Enabled(s, step)
    ensures var s' := HashMapLocks.Apply(s, step);
            && s'.place.Keys == s.place.Keys
            && s'.bucketCnt == (if step.Act? && s.place[step.t].rehash then 3 * s.bucketCnt else s.bucketCnt)
            && forall u :: u in s.place && u != step.t ==> s'.place[u] == s.place[u]
  {
  }

  lemma ShapeStays(d: Data, hash: Key -> nat, move: Move)
    requires Shape(d, hash) && Allowed(d, hash, move)
    ensures Shape(After(d, hash, move), hash)
  {
    LocksStay(d, hash, move);
    MoverFits(d, hash, move);
    BucketCountStays(d, hash, move);
    OthersStay(d, hash, move);
    hide HashMapLocks.Inv, Allowed, After, Fits;
  }

  lemma LocksStay(d: Data, hash: Key -> nat, move: Move)
    requires Shape(d, hash) && Allowed(d, hash, move)
    ensures HashMapLocks.Inv(After(d, hash, move).locks) && After(d, hash, move).locks.bucketCnt > 0
  {
    var d' := After(d, hash, move);
    if LockStep(d, hash, move).Some? {
      HashMapLocks.StepKeepsInv(d.locks, LockStep(d, hash, move).value);
      LockStepTaken(d, hash, move);
    }
    InvStriped(d'.locks);
    HashMapLocks.BucketsExist(d'.locks);
    hide HashMapLocks.Inv, HashMapLocks.Apply, Fits;
  }

  lemma LockStepTaken(d: Data, hash: Key -> nat, move: Move)
    requires Allowed(d, hash, move) && LockStep(d, hash, move).Some?
    ensures After(d, hash, move).locks == HashMapLocks.Apply(d.locks, LockStep(d, hash, move).value)
  {
    hide HashMapLocks.Apply, HashMapLocks.Enabled;
  }

  lemma InvStriped(s: HashMapLocks.State)
    requires HashMapLocks.Inv(s)
    ensures HashMapLocks.Striped(s)
  {
  }

  lemma OthersStay(d: Data, hash: Key -> nat, move: Move)
    requires Shape(d, hash) && Allowed(d, hash, move)
    ensures var d' := After(d, hash, move);
            && d'.ops.Keys == d.ops.Keys && d'.locks.place.Keys == d.locks.place.Keys
            && forall u :: u in d.ops && u != Mover(move) ==>
                d'.ops[u] == d.ops[u] && d'.locks.place[u] == d.locks.place[u]
  {
    if LockStep(d, hash, move).Some? {
      StepKeepsBuckets(d.locks, LockStep(d, hash, move).value);
    }
    hide HashMapLocks.Inv, HashMapLocks.Enabled, HashMapLocks.Apply, Fits;
  }

  lemma MoverFits(d: Data, hash: Key -> nat, move: Move)
    requires Shape(d, hash) && Allowed(d, hash, move)
    ensures var t, d' := Mover(move), After(d, hash, move);
            t in d'.ops && t in d'.locks.place && Fits(d'.ops[t], d'.locks.place[t], hash)
  {
    hide HashMapLocks.Inv;
  }

  lemma BucketCountStays(d: Data, hash: Key -> nat, move: Move)
    requires Shape(d, hash) && Allowed(d, hash, move)
    ensures |After(d, hash, move).table| == After(d, hash, move).locks.bucketCnt
  {
    hide HashMapLocks.Inv, Fits;
  }

  lemma {:induction false} WithoutShrinks(bucket: seq<Key>, key: Key)
    ensures |Without(bucket, key)| == |bucket| - if key in bucket then 1 else 0
    ensures forall k :: k in Without(bucket, key) ==> k in bucket
    ensures NoRepeats(bucket) ==> NoRepeats(Without(bucket, key))
  {
    if bucket != [] && bucket[0] != key {
      WithoutShrinks(bucket[1..], key);
      var rest := Without(bucket[1..], key);
      assert NoRepeats(bucket) ==> NoRepeats(bucket[1..]) && bucket[0] !in bucket[1..];
      assert bucket == [bucket[0]] + bucket[1..];
      NoRepeatsCons(bucket[0], rest);
    }
  }

  predicate NoRepeats(bucket: seq<Key>) {
    forall i, j :: 0 <= i < j < |bucket| ==> bucket[i] != bucket[j]
  }

  lemma NoRepeatsCons(key: Key, bucket: seq<Key>)
    ensures NoRepeats([key] + bucket) <==> key !in bucket && NoRepeats(bucket)
  {
    var all := [key] + bucket;
    assert all[1..] == bucket;
    forall i | 0 <= i < |bucket|
      ensures all[i + 1] == bucket[i]
    {
    }
    if key in bucket {
      var i :| 0 <= i < |bucket| && bucket[i] == key;
      assert all[i + 1] == all[0];
    }
  }

  lemma NoRepeatsSnoc(bucket: seq<Key>, key: Key)
    ensures NoRepeats(bucket + [key]) <==> key !in bucket && NoRepeats(bucket)
  {
    var all := bucket + [key];
    if key in bucket {
      var i :| 0 <= i < |bucket| && bucket[i] == key;
      assert all[i] == all[|bucket|];
    }
    if NoRepeats(all) {
      forall i, j | 0 <= i < j < |bucket|
        ensures bucket[i] != bucket[j]
      {
        assert all[i] != all[j];
      }
    }
  }

  /** Some bucket holds `key`. */
  ghost predicate Holding(table: Table, key: Key) {
    exists b :: 0 <= b < |table| && key in table[b]
  }

  /** No key is in the table twice: not within a bucket; and `InBuckets` leaves a key
      only one bucket. */
  ghost predicate Unique(table: Table) {
    forall b :: 0 <= b < |table| ==> NoRepeats(table[b])
  }

  lemma PushedKeeps(table: Table, hash: Key -> nat, key: Key)
    requires table != [] && InBuckets(table, hash)
    ensures var table' := Pushed(table, hash(key) % |table|, key);
            && InBuckets(table', hash) && Total(table') == Total(table) + 1
            && (Unique(table) ==> (Unique(table') <==> key !in table[hash(key) % |table|]))
            && forall k :: Holding(table', k) <==> Holding(table, k) || k == key
  {
    hide NoRepeats, Unique, InBuckets, Holding, Total;
    var b := hash(key) % |table|;
    var table' := Pushed(table, b, key);
    TotalUpdate(table, b, table[b] + [key]);
    PushedInBuckets(table, hash, key);
    NoRepeatsSnoc(table[b], key);
    PushedUnique(table, b, key);
    PushedHolding(table, b, key);
  }

  lemma PushedInBuckets(table: Table, hash: Key -> nat, key: Key)
    requires table != [] && InBuckets(table, hash)
    ensures InBuckets(Pushed(table, hash(key) % |table|, key), hash)
  {
    var b := hash(key) % |table|;
    forall c: nat | c < |table|
      ensures AllHashTo(Pushed(table, b, key)[c], hash, |table|, c)
    {
      assert AllHashTo(table[c], hash, |table|, c);
    }
  }

  lemma PushedUnique(table: Table, b: nat, key: Key)
    requires b < |table|
    ensures Unique(table) ==> NoRepeats(table[b]) && (Unique(Pushed(table, b, key)) <==> NoRepeats(table[b] + [key]))
  {
    hide NoRepeats;
    assert Pushed(table, b, key)[b] == table[b] + [key];
  }

  lemma PushedHolding(table: Table, b: nat, key: Key)
    requires b < |table|
    ensures forall k :: Holding(Pushed(table, b, key), k) <==> Holding(table, k) || k == key
  {
    var table' := Pushed(table, b, key);
    assert key in table'[b];
    forall k
      ensures Holding(table', k) <==> Holding(table, k) || k == key
    {
      if Holding(table, k) {
        var c :| 0 <= c < |table| && k in table[c];
        assert k in table'[c];
      }
      if Holding(table', k) && k != key {
        var c :| 0 <= c < |table'| && k in table'[c];
        assert k in table[c];
      }
    }
  }

  // ------------------------------------------------------------------ rehash

  lemma EmptyTable(n: nat, hash: Key -> nat)
    ensures var table: Table := NoEntries(n);
            InBuckets(table, hash) && Total(table) == 0 && Unique(table) && forall key :: !Holding(table, key)
  {
    var table: Table := NoEntries(n);
    TotalEmpty(table);
  }

  /** What moving the first `n` buckets gives: their entries, each in its new bucket. */
  lemma {:induction false} SpreadKeeps(table: Table, hash: Key -> nat, n: nat, into: Table)
    requires n <= |table| && table != [] && into != [] && InBuckets(into, hash) && InBuckets(table, hash)
    requires forall key :: !Holding(into, key)
    requires Unique(into)
    ensures var table' := Spread(table, hash, n, into);
            && InBuckets(table', hash) && Total(table') == Total(into) + Total(table[..n])
            && (forall key :: Holding(table', key) <==> Holding(table[..n], key))
            && (Unique(table) ==> Unique(table'))
  {
    hide InBuckets, Unique, NoRepeats, Holding, Total, SpreadBucket;
    if n == 0 {
      assert table[..0] == [];
      NothingHeld();
    } else {
      SpreadKeeps(table, hash, n - 1, into);
      var before := Spread(table, hash, n - 1, into);
      assert table[..n] == table[..n - 1] + [table[n - 1]];
      OneMoreBucket(table, n);
      NewToTable(table, hash, n - 1);
      SpreadBucketKeeps(table[n - 1], hash, |table[n - 1]|, before);
      HoldingSnoc(table[..n - 1], table[n - 1], table[..n]);
    }
  }

  lemma NothingHeld()
    ensures Total<Key>([]) == 0 && forall key :: !Holding([], key)
  {
  }

  lemma OneMoreBucket(table: Table, n: nat)
    requires 0 < n <= |table|
    ensures Total(table[..n]) == Total(table[..n - 1]) + |table[n - 1]|
    ensures Unique(table) ==> NoRepeats(table[n - 1])
  {
    assert table[..n][..n - 1] == table[..n - 1];
  }

  lemma NewToTable(table: Table, hash: Key -> nat, n: nat)
    requires n < |table| && InBuckets(table, hash)
    ensures forall key :: key in table[n] ==> !Holding(table[..n], key)
  {
    forall key | key in table[n]
      ensures !Holding(table[..n], key)
    {
      assert AllHashTo(table[n], hash, |table|, n);
      forall b: nat | b < n
        ensures key !in table[..n][b]
      {
        assert AllHashTo(table[b], hash, |table|, b);
      }
    }
  }

  lemma HoldingSnoc(front: Table, last: seq<Key>, all: Table)
    requires all == front + [last]
    ensures forall key :: Holding(all, key) <==> Holding(front, key) || key in last
  {
    forall key
      ensures Holding(all, key) <==> Holding(front, key) || key in last
    {
      if Holding(front, key) {
        var b :| 0 <= b < |front| && key in front[b];
        assert key in all[b];
      }
      if key in last {
        assert key in all[|front|];
      }
    }
  }

  lemma {:induction false} SpreadBucketKeeps(bucket: seq<Key>, hash: Key -> nat, n: nat, into: Table)
    requires n <= |bucket| && into != [] && InBuckets(into, hash)
    requires forall key :: key in bucket ==> !Holding(into, key)
    ensures var table' := SpreadBucket(bucket, hash, n, into);
            && InBuckets(table', hash) && Total(table') == Total(into) + n
            && (forall key :: Holding(table', key) <==> Holding(into, key) || key in bucket[..n])
            && (Unique(into) && NoRepeats(bucket) ==> Unique(table'))
  {
    hide InBuckets, Unique, NoRepeats, Holding, Total, Pushed;
    if n > 0 {
      SpreadBucketKeeps(bucket, hash, n - 1, into);
      var before, key := SpreadBucket(bucket, hash, n - 1, into), bucket[n - 1];
      PushedKeeps(before, hash, key);
      assert bucket[..n] == bucket[..n - 1] + [key];
      NotYetHeld(before, bucket, into, n - 1, hash(key) % |into|);
    }
  }

  lemma NotYetHeld(before: Table, bucket: seq<Key>, into: Table, n: nat, b: nat)
    requires n < |bucket| && b < |before|
    requires forall key :: Holding(before, key) <==> Holding(into, key) || key in bucket[..n]
    requires forall key :: key in bucket ==> !Holding(into, key)
    ensures NoRepeats(bucket) ==> bucket[n] !in before[b]
  {
    if NoRepeats(bucket) {
      assert bucket[n] !in bucket[..n];
      assert bucket[n] in bucket;
      assert !Holding(before, bucket[n]);
    }
  }

  // ------------------------------------------------------ table and counter

  lemma OpsCount(ops: map<Thread, Op>, t: Thread, op: Op)
    requires t in ops
    ensures |Storing(ops[t := op])|
         == |Storing(ops)| - (if ops[t].Stored? then 1 else 0) + (if op.Stored? then 1 else 0)
    ensures |Erasing(ops[t := op])|
         == |Erasing(ops)| - (if ops[t].Erased? then 1 else 0) + (if op.Erased? then 1 else 0)
  {
    StoringCount(ops, t, op);
    ErasingCount(ops, t, op);
    hide Storing, Erasing;
  }

  lemma StoringCount(ops: map<Thread, Op>, t: Thread, op: Op)
    requires t in ops
    ensures |Storing(ops[t := op])|
         == |Storing(ops)| - (if ops[t].Stored? then 1 else 0) + (if op.Stored? then 1 else 0)
  {
    var others := Storing(ops) - {t};
    assert Storing(ops[t := op]) == if op.Stored? then others + {t} else others;
    assert Storing(ops) == if ops[t].Stored? then others + {t} else others;
  }

  lemma ErasingCount(ops: map<Thread, Op>, t: Thread, op: Op)
    requires t in ops
    ensures |Erasing(ops[t := op])|
         == |Erasing(ops)| - (if ops[t].Erased? then 1 else 0) + (if op.Erased? then 1 else 0)
  {
    var others := Erasing(ops) - {t};
    assert Erasing(ops[t := op]) == if op.Erased? then others + {t} else others;
    assert Erasing(ops) == if ops[t].Erased? then others + {t} else others;
  }

  /** The move pushes a key into a bucket that has it already. */
  ghost predicate Duplicates(d: Data, hash: Key -> nat, move: Move)
    requires Allowed(d, hash, move)
  {
    move.Push? && d.ops[move.t].key in d.table[d.locks.place[move.t].bucket]
  }

  ghost predicate DataStays(d: Data, hash: Key -> nat, move: Move)
    requires Allowed(d, hash, move)
  {
    var d' := After(d, hash, move);
    && InBuckets(d'.table, hash) && Sized(d')
    && (Unique(d.table) ==> (Unique(d'.table) <==> !Duplicates(d, hash, move)))
  }

  /** The moves that leave table and counter alone. */
  lemma QuietMove(d: Data, hash: Key -> nat, move: Move)
    requires DataInv(d, hash) && Allowed(d, hash, move)
    requires !move.Push? && !move.CountUp? && !move.Remove? && !move.CountDown? && !move.Work?
    ensures DataStays(d, hash, move)
  {
    hide InBuckets, Unique, Total, HashMapLocks.Inv, HashMapLocks.Enabled, HashMapLocks.Apply, Storing, Erasing, Fits;
    var t := Mover(move);
    OpsCount(d.ops, t, After(d, hash, move).ops[t]);
    assert d.ops[t := d.ops[t]] == d.ops;
  }

  lemma CountMove(d: Data, hash: Key -> nat, move: Move)
    requires DataInv(d, hash) && Allowed(d, hash, move) && (move.CountUp? || move.CountDown?)
    ensures DataStays(d, hash, move)
  {
    hide InBuckets, Unique, Total, HashMapLocks.Inv, Storing, Erasing, Fits;
    OpsCount(d.ops, Mover(move), Rest);
  }

  /** Inside its critical section a thread is at the bucket of its key. */
  lemma AtItsBucket(d: Data, hash: Key -> nat, t: Thread)
    requires Shape(d, hash) && t in d.ops && Inside(d, t)
    requires d.ops[t].Store? || d.ops[t].Erase? || d.ops[t].Find?
    ensures d.locks.place[t].bucket == hash(d.ops[t].key) % |d.table|
  {
    assert HashMapLocks.PlaceOk(d.locks, d.locks.place[t]);
    assert Fits(d.ops[t], d.locks.place[t], hash);
  }

  lemma PushMove(d: Data, hash: Key -> nat, t: Thread)
    requires DataInv(d, hash) && Allowed(d, hash, Push(t))
    ensures DataStays(d, hash, Push(t))
  {
    AtItsBucket(d, hash, t);
    PushedKeeps(d.table, hash, d.ops[t].key);
    OpsCount(d.ops, t, Stored);
    hide InBuckets, Unique, Total, HashMapLocks.Inv, Storing, Erasing, Fits, Pushed, Holding;
  }

  lemma RemoveMove(d: Data, hash: Key -> nat, t: Thread)
    requires DataInv(d, hash) && Allowed(d, hash, Remove(t))
    ensures DataStays(d, hash, Remove(t))
  {
    var b, key := d.locks.place[t].bucket, d.ops[t].key;
    WithoutShrinks(d.table[b], key);
    TotalUpdate(d.table, b, Without(d.table[b], key));
    RemovedKeeps(d.table, hash, b, key);
    OpsCount(d.ops, t, if key in d.table[b] then Erased else Rest);
    hide InBuckets, Unique, Total, HashMapLocks.Inv, Storing, Erasing, Fits, Without;
  }

  lemma RemovedKeeps(table: Table, hash: Key -> nat, b: nat, key: Key)
    requires b < |table| && InBuckets(table, hash)
    ensures var table' := table[b := Without(table[b], key)];
            InBuckets(table', hash) && (Unique(table) ==> Unique(table'))
  {
    WithoutShrinks(table[b], key);
    hide NoRepeats, Without;
    assert AllHashTo(table[b], hash, |table|, b);
    var table' := table[b := Without(table[b], key)];
    forall c: nat | c < |table'|
      ensures AllHashTo(table'[c], hash, |table'|, c)
    {
      assert AllHashTo(table[c], hash, |table|, c);
    }
  }

  /** While a thread works on the whole table nothing is stored or erased half-way. */
  lemma NobodyInside(d: Data, hash: Key -> nat, t: Thread)
    requires Shape(d, hash) && t in d.locks.place && d.locks.place[t].InAll?
    ensures Storing(d.ops) == {} && Erasing(d.ops) == {}
  {
    forall u | u in d.ops
      ensures !d.ops[u].Stored? && !d.ops[u].Erased?
    {
      assert Fits(d.ops[u], d.locks.place[u], hash);
      if u != t {
        HashMapLocks.Exclusive(d.locks, t, u);
      }
    }
  }

  lemma WorkMove(d: Data, hash: Key -> nat, t: Thread)
    requires DataInv(d, hash) && Allowed(d, hash, Work(t))
    ensures DataStays(d, hash, Work(t))
  {
    NobodyInside(d, hash, t);
    EmptyTable(|d.table|, hash);
    EmptyTable(3 * |d.table|, hash);
    SpreadKeeps(d.table, hash, |d.table|, NoEntries(3 * |d.table|));
    assert d.table[..|d.table|] == d.table;
    hide InBuckets, Unique, Total, HashMapLocks.Inv, Fits, Holding, Spread, NoEntries;
  }

  lemma MoveKeepsData(d: Data, hash: Key -> nat, move: Move)
    requires DataInv(d, hash) && Allowed(d, hash, move)
    ensures DataInv(After(d, hash, move), hash) && DataStays(d, hash, move)
  {
    hide Sized, Unique, Shape, InBuckets, Duplicates, Allowed, After;
    ShapeStays(d, hash, move);
    match move
    case Push(t) => PushMove(d, hash, t);
    case Remove(t) => RemoveMove(d, hash, t);
    case Work(t) => WorkMove(d, hash, t);
    case CountUp(_) => CountMove(d, hash, move);
    case CountDown(_) => CountMove(d, hash, move);
    case _ => QuietMove(d, hash, move);
  }

  // -------------------------------------------------------------------- runs

  ghost predicate Run(states: seq<Data>, hash: Key -> nat, moves: seq<Move>) {
    && |states| == |moves| + 1 && Init(states[0])
    && forall i :: 0 <= i < |moves| ==>
        Allowed(states[i], hash, moves[i]) && states[i + 1] == After(states[i], hash, moves[i])
  }

  lemma {:induction false} RunKeepsData(states: seq<Data>, hash: Key -> nat, moves: seq<Move>, n: nat)
    requires Run(states, hash, moves) && n < |states|
    ensures DataInv(states[n], hash)
  {
    hide DataInv, Allowed, After, Init, DataStays;
    if n == 0 {
      InitHasInv(states[0], hash);
    } else {
      RunKeepsData(states, hash, moves, n - 1);
      MoveKeepsData(states[n - 1], hash, moves[n - 1]);
    }
  }

  /** In every interleaving each entry is in the bucket of its hash, and outside the
      critical sections that have changed a bucket and not yet the counter, the counter
      is the number of entries. */
  lemma EntriesInPlace(states: seq<Data>, hash: Key -> nat, moves: seq<Move>, n: nat)
    requires Run(states, hash, moves) && n < |states|
    ensures var d := states[n];
            && InBuckets(d.table, hash)
            && d.size == Total(d.table) - |Storing(d.ops)| + |Erasing(d.ops)|
            && ((forall t :: t in d.locks.place ==> !d.locks.place[t].InOne?) ==> d.size == Total(d.table))
  {
    RunKeepsData(states, hash, moves, n);
    var d := states[n];
    if forall t :: t in d.locks.place ==> !d.locks.place[t].InOne? {
      forall t | t in d.ops
        ensures !d.ops[t].Stored? && !d.ops[t].Erased?
      {
        assert Fits(d.ops[t], d.locks.place[t], hash);
      }
      assert Storing(d.ops) == {} && Erasing(d.ops) == {};
    }
  }

  /** No key is in the table twice in any state up to `n` if and only if no key is pushed
      into a bucket that has it. */
  lemma {:induction false} UniqueUntilPushed(states: seq<Data>, hash: Key -> nat, moves: seq<Move>, n: nat)
    requires Run(states, hash, moves) && n < |states|
    ensures (forall i :: 0 <= i <= n ==> Unique(states[i].table))
        <==> (forall i :: 0 <= i < n ==> !Duplicates(states[i], hash, moves[i]))
  {
    hide Unique, Duplicates, Allowed, After, Init;
    if n == 0 {
      StartsUnique(states[0], hash);
    } else {
      UniqueUntilPushed(states, hash, moves, n - 1);
      UniqueStep(states, hash, moves, n - 1);
    }
  }

  lemma StartsUnique(d: Data, hash: Key -> nat)
    requires Init(d)
    ensures Unique(d.table)
  {
    EmptyTable(d.locks.bucketCnt, hash);
  }

  lemma UniqueStep(states: seq<Data>, hash: Key -> nat, moves: seq<Move>, i: nat)
    requires Run(states, hash, moves) && i < |moves|
    ensures Unique(states[i].table) ==> (Unique(states[i + 1].table) <==> !Duplicates(states[i], hash, moves[i]))
  {
    hide Unique, Duplicates, Allowed, After, Init, DataInv, InBuckets, Sized;
    RunKeepsData(states, hash, moves, i);
    MoveKeepsData(states[i], hash, moves[i]);
  }

  /** A map with one lock and one bucket. */
  predicate OneLock(d: Data) {
    d.locks.locks == d.locks.bucketCnt == |d.locks.owner| == |d.table| == 1
  }

  /** `d` with thread `t` elsewhere. */
  function Put(d: Data, t: Thread, place: Place, op: Op, owner: Option<Thread>): Data {
    d.(locks := d.locks.(place := d.locks.place[t := place], owner := [owner]), ops := d.ops[t := op])
  }

  ghost predicate Takes(d: Data, hash: Key -> nat, move: Move, d': Data) {
    Allowed(d, hash, move) && After(d, hash, move) == d'
  }

  lemma TakeStart(d: Data, hash: Key -> nat, t: Thread, key: Key)
    requires OneLock(d) && t in d.ops && t in d.locks.place
    ensures Takes(Put(d, t, Idle, Rest, None), hash, StartInsert(t, key),
        Put(d, t, WantOne(hash(key)), Find(key), None))
  {
    assert d.locks.place[t := Idle][t := WantOne(hash(key))]
        == d.locks.place[t := WantOne(hash(key))];
  }

  lemma TakeLock(d: Data, hash: Key -> nat, t: Thread, key: Key)
    requires OneLock(d) && t in d.ops && t in d.locks.place
    ensures Takes(Put(d, t, WantOne(hash(key)), Find(key), None), hash, Locking(LockOne(t)),
        Put(d, t, InOne(hash(key), 0), Find(key), Some(t)))
  {
    assert d.locks.place[t := WantOne(hash(key))][t := InOne(hash(key), 0)]
        == d.locks.place[t := InOne(hash(key), 0)];
  }

  lemma TakeLook(d: Data, hash: Key -> nat, t: Thread, key: Key)
    requires OneLock(d) && t in d.ops && t in d.locks.place && key !in d.table[0]
    ensures Takes(Put(d, t, InOne(hash(key), 0), Find(key), Some(t)), hash, Look(t),
        Put(d, t, InOne(hash(key), 0), Missing(key), Some(t)))
  {
    assert d.locks.place[t := InOne(hash(key), 0)][t := InOne(hash(key), 0)]
        == d.locks.place[t := InOne(hash(key), 0)];
  }

  lemma TakeUnlock(d: Data, hash: Key -> nat, t: Thread, key: Key)
    requires OneLock(d) && t in d.ops && t in d.locks.place
    ensures Takes(Put(d, t, InOne(hash(key), 0), Missing(key), Some(t)), hash, Locking(UnlockOne(t)),
        Put(d, t, Idle, Missing(key), None))
  {
    assert d.locks.place[t := InOne(hash(key), 0)][t := Idle]
        == d.locks.place[t := Idle];
  }

  lemma TakeStoreNext(d: Data, hash: Key -> nat, t: Thread, key: Key)
    requires OneLock(d) && t in d.ops && t in d.locks.place
    ensures Takes(Put(d, t, Idle, Missing(key), None), hash, StoreNext(t),
        Put(d, t, WantOne(hash(key)), Store(key), None))
  {
    assert d.locks.place[t := Idle][t := WantOne(hash(key))]
        == d.locks.place[t := WantOne(hash(key))];
  }

  lemma TakeLockAgain(d: Data, hash: Key -> nat, t: Thread, key: Key)
    requires OneLock(d) && t in d.ops && t in d.locks.place
    ensures Takes(Put(d, t, WantOne(hash(key)), Store(key), None), hash, Locking(LockOne(t)),
        Put(d, t, InOne(hash(key), 0), Store(key), Some(t)))
  {
    assert d.locks.place[t := WantOne(hash(key))][t := InOne(hash(key), 0)]
        == d.locks.place[t := InOne(hash(key), 0)];
  }

  lemma TakePush(d: Data, hash: Key -> nat, t: Thread, key: Key)
    requires OneLock(d) && t in d.ops && t in d.locks.place
    ensures Takes(Put(d, t, InOne(hash(key), 0), Store(key), Some(t)), hash, Push(t),
        Put(d, t, InOne(hash(key), 0), Stored, Some(t)).(table := [d.table[0] + [key]]))
  {
    assert d.locks.place[t := InOne(hash(key), 0)][t := InOne(hash(key), 0)]
        == d.locks.place[t := InOne(hash(key), 0)];
  }

  lemma TakeCountUp(d: Data, hash: Key -> nat, t: Thread, key: Key)
    requires OneLock(d) && t in d.ops && t in d.locks.place
    ensures Takes(Put(d, t, InOne(hash(key), 0), Stored, Some(t)), hash, CountUp(t),
        Put(d, t, InOne(hash(key), 0), Rest, Some(t)).(size := d.size + 1))
  {
    assert d.locks.place[t := InOne(hash(key), 0)][t := InOne(hash(key), 0)]
        == d.locks.place[t := InOne(hash(key), 0)];
  }

  lemma TakeUnlockAgain(d: Data, hash: Key -> nat, t: Thread, key: Key)
    requires OneLock(d) && t in d.ops && t in d.locks.place
    ensures Takes(Put(d, t, InOne(hash(key), 0), Rest, Some(t)), hash, Locking(UnlockOne(t)),
        Put(d, t, Idle, Rest, None))
  {
    assert d.locks.place[t := InOne(hash(key), 0)][t := Idle]
        == d.locks.place[t := Idle];
  }

  /** Thread `t` holds no lock and has got as far as `op`. */
  predicate At(d: Data, t: Thread, op: Op) {
    && OneLock(d) && t in d.ops && t in d.locks.place
    && d.locks.place[t] == Idle && d.ops[t] == op && d.locks.owner == [None]
  }

  lemma PutSame(d: Data, t: Thread, op: Op)
    requires At(d, t, op)
    ensures Put(d, t, Idle, op, None) == d
  {
    assert d.locks.place[t := Idle] == d.locks.place && d.ops[t := op] == d.ops;
  }

  /** A run from any state. */
  ghost predicate Path(states: seq<Data>, hash: Key -> nat, moves: seq<Move>) {
    && |states| == |moves| + 1
    && forall i :: 0 <= i < |moves| ==> Takes(states[i], hash, moves[i], states[i + 1])
  }

  lemma PathConcat(hash: Key -> nat, s: seq<Data>, m: seq<Move>, s': seq<Data>, m': seq<Move>)
    requires Path(s, hash, m) && Path(s', hash, m') && s[|s| - 1] == s'[0]
    ensures Path(s + s'[1..], hash, m + m')
  {
    hide Takes;
    forall i | 0 <= i < |m + m'|
      ensures Takes((s + s'[1..])[i], hash, (m + m')[i], (s + s'[1..])[i + 1])
    {
      if i >= |m| {
        assert Takes(s'[i - |m|], hash, m'[i - |m|], s'[i - |m| + 1]);
      }
    }
  }

  /** The first critical section of an insertion that does not find its key. */
  lemma Looks(d: Data, hash: Key -> nat, t: Thread, key: Key) returns (states: seq<Data>, moves: seq<Move>)
    requires At(d, t, Rest) && key !in d.table[0]
    ensures Path(states, hash, moves)
    ensures states[0] == d && states[|states| - 1] == d.(ops := d.ops[t := Missing(key)])
  {
    hide Takes;
    PutSame(d, t, Rest);
    assert d.locks.place[t := Idle] == d.locks.place;
    TakeStart(d, hash, t, key);
    TakeLock(d, hash, t, key);
    TakeLook(d, hash, t, key);
    TakeUnlock(d, hash, t, key);
    var inside := InOne(hash(key), 0);
    moves := [StartInsert(t, key), Locking(LockOne(t)), Look(t), Locking(UnlockOne(t))];
    states := [
      Put(d, t, Idle, Rest, None), Put(d, t, WantOne(hash(key)), Find(key), None),
      Put(d, t, inside, Find(key), Some(t)),
      Put(d, t, inside, Missing(key), Some(t)), Put(d, t, Idle, Missing(key), None)];
  }

  /** The second one, whatever has happened to the bucket in between. */
  lemma Stores(d: Data, hash: Key -> nat, t: Thread, key: Key) returns (states: seq<Data>, moves: seq<Move>)
    requires At(d, t, Missing(key))
    ensures Path(states, hash, moves) && states[0] == d
    ensures states[|states| - 1]
         == d.(ops := d.ops[t := Rest], table := [d.table[0] + [key]], size := d.size + 1)
  {
    hide Takes;
    PutSame(d, t, Missing(key));
    assert d.locks.place[t := Idle] == d.locks.place;
    TakeStoreNext(d, hash, t, key);
    TakeLockAgain(d, hash, t, key);
    TakePush(d, hash, t, key);
    var d1 := d.(table := [d.table[0] + [key]]);
    TakeCountUp(d1, hash, t, key);
    var d2 := d1.(size := d.size + 1);
    TakeUnlockAgain(d2, hash, t, key);
    var inside := InOne(hash(key), 0);
    moves := [StoreNext(t), Locking(LockOne(t)), Push(t), CountUp(t), Locking(UnlockOne(t))];
    states := [
      Put(d, t, Idle, Missing(key), None), Put(d, t, WantOne(hash(key)), Store(key), None),
      Put(d, t, inside, Store(key), Some(t)), Put(d1, t, inside, Stored, Some(t)), Put(d2, t, inside, Rest, Some(t)),
      Put(d2, t, Idle, Rest, None)];
  }

  /** It does happen, to any key: two threads insert it into an empty map, both look
      before either stores, and the map ends up with the key twice. */
  lemma SameKeyTwice(hash: Key -> nat, key: Key) returns (states: seq<Data>, moves: seq<Move>)
    ensures Run(states, hash, moves)
    ensures states[|states| - 1].table == [[key, key]] && states[|states| - 1].size == 2
  {
    hide Takes, Path;
    var start := Data(HashMapLocks.State(1, 1, [None], map[1 := Idle, 2 := Idle]), map[1 := Rest, 2 := Rest], [[]], 0);
    var s1, m1 := Looks(start, hash, 1, key);
    var d1 := start.(ops := map[1 := Missing(key), 2 := Rest]);
    assert start.ops[1 := Missing(key)] == d1.ops;
    var s2, m2 := Looks(d1, hash, 2, key);
    var d2 := d1.(ops := map[1 := Missing(key), 2 := Missing(key)]);
    assert d1.ops[2 := Missing(key)] == d2.ops;
    var s3, m3 := Stores(d2, hash, 1, key);
    var d3 := d2.(ops := map[1 := Rest, 2 := Missing(key)], table := [[key]], size := 1);
    assert d2.ops[1 := Rest] == d3.ops && d2.table[0] + [key] == [key];
    assert d3.table[0] + [key] == [key, key];
    var s4, m4 := Stores(d3, hash, 2, key);
    var left, leftMoves := Joined(hash, s1, m1, s2, m2);
    var right, rightMoves := Joined(hash, s3, m3, s4, m4);
    states, moves := Joined(hash, left, leftMoves, right, rightMoves);
    PathIsRun(states, hash, moves, start);
  }

  lemma Joined(hash: Key -> nat, s: seq<Data>, m: seq<Move>, s': seq<Data>, m': seq<Move>)
      returns (states: seq<Data>, moves: seq<Move>)
    requires Path(s, hash, m) && Path(s', hash, m') && s[|s| - 1] == s'[0]
    ensures Path(states, hash, moves) && states[0] == s[0] && states[|states| - 1] == s'[|s'| - 1]
  {
    PathConcat(hash, s, m, s', m');
    states, moves := s + s'[1..], m + m';
    hide Takes;
  }

  lemma PathIsRun(states: seq<Data>, hash: Key -> nat, moves: seq<Move>, start: Data)
    requires Path(states, hash, moves) && states[0] == start && Init(start)
    ensures Run(states, hash, moves)
  {
    hide Allowed, After, Init;
    forall i | 0 <= i < |moves|
      ensures Allowed(states[i], hash, moves[i]) && states[i + 1] == After(states[i], hash, moves[i])
    {
      assert Takes(states[i], hash, moves[i], states[i + 1]);
    }
  }
}
