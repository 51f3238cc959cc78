/** `ConcurrentHashMap` as a set of keys: which interleavings keep every key unique, and
    that in them each operation answers as one set would, at one moment of the call. */
module HashMapSet {
  import HashMapLocks
  import opened HashMaps
  import opened HashMapRuns

  type Thread = HashMapLocks.Thread

  // --------------------------------------------------- the keys that are held

  /** The move adds `key`. */
  ghost predicate Gains(d: Data, move: Move, key: Key) {
    move.Push? && move.t in d.ops && d.ops[move.t] == Store(key)
  }

  /** The move takes `key` out: an `Erase` of it, or a `Clear`. */
  ghost predicate Loses(d: Data, move: Move, key: Key) {
    || (move.Remove? && move.t in d.ops && d.ops[move.t] == Erase(key))
    || (move.Work? && move.t in d.locks.place && d.locks.place[move.t].InAll? && !d.locks.place[move.t].rehash)
  }

  lemma {:induction false} WithoutKeeps(bucket: seq<Key>, key: Key, k: Key)
    ensures k != key ==> (k in Without(bucket, key) <==> k in bucket)
    ensures NoRepeats(bucket) ==> key !in Without(bucket, key)
  {
    if bucket != [] && bucket[0] != key {
      WithoutKeeps(bucket[1..], key, k);
      assert bucket == [bucket[0]] + bucket[1..];
      NoRepeatsCons(bucket[0], bucket[1..]);
    } else if bucket != [] {
      assert bucket == [bucket[0]] + bucket[1..];
      NoRepeatsCons(bucket[0], bucket[1..]);
    }
  }

  lemma RemovedHolding(table: Table, hash: Key -> nat, key: Key, k: Key)
    requires table != [] && InBuckets(table, hash) && Unique(table)
    ensures var b := hash(key) % |table|;
            Holding(table[b := Without(table[b], key)], k) <==> Holding(table, k) && k != key
  {
    var b := hash(key) % |table|;
    var table' := table[b := Without(table[b], key)];
    WithoutKeeps(table[b], key, k);
    HeldWhereItBelongs(table, hash, key);
    hide Without, NoRepeats, InBuckets;
    if Holding(table', k) {
      var c :| 0 <= c < |table'| && k in table'[c];
      assert k in table[c] by {
        WithoutShrinks(table[b], key);
      }
    }
    if Holding(table, k) && k != key {
      var c :| 0 <= c < |table| && k in table[c];
      assert k in table'[c];
    }
  }

  /** A key that is held is in the bucket of its hash and in no other. */
  lemma HeldWhereItBelongs(table: Table, hash: Key -> nat, key: Key)
    requires table != [] && InBuckets(table, hash)
    ensures forall c :: 0 <= c < |table| && key in table[c] ==> c == hash(key) % |table|
    ensures Holding(table, key) <==> key in table[hash(key) % |table|]
  {
    forall c: nat | c < |table| && key in table[c]
      ensures c == hash(key) % |table|
    {
      assert AllHashTo(table[c], hash, |table|, c);
    }
  }

  /** What a move does to the keys held. */
  lemma HeldAfter(d: Data, hash: Key -> nat, move: Move, key: Key)
    requires DataInv(d, hash) && Allowed(d, hash, move) && Unique(d.table)
    ensures Holding(After(d, hash, move).table, key)
        <==> Gains(d, move, key) || (Holding(d.table, key) && !Loses(d, move, key))
  {
    hide DataInv, Unique, Holding, Allowed, After;
    match move
    case Push(t) => HeldAfterPush(d, hash, t, key);
    case Remove(t) => HeldAfterRemove(d, hash, t, key);
    case Work(t) => HeldAfterWork(d, hash, t, key);
    case _ => HeldAfterOther(d, hash, move, key);
  }

  lemma HeldAfterOther(d: Data, hash: Key -> nat, move: Move, key: Key)
    requires Allowed(d, hash, move) && !move.Push? && !move.Remove? && !move.Work?
    ensures After(d, hash, move).table == d.table && !Gains(d, move, key) && !Loses(d, move, key)
  {
    hide HashMapLocks.Apply, HashMapLocks.Enabled;
  }

  lemma HeldAfterPush(d: Data, hash: Key -> nat, t: Thread, key: Key)
    requires DataInv(d, hash) && Allowed(d, hash, Push(t))
    ensures Holding(After(d, hash, Push(t)).table, key) <==> Gains(d, Push(t), key) || Holding(d.table, key)
  {
    AtItsBucket(d, hash, t);
    PushedKeeps(d.table, hash, d.ops[t].key);
    hide InBuckets, Unique, Total, HashMapLocks.Inv, Fits, Pushed, Holding;
  }

  lemma HeldAfterRemove(d: Data, hash: Key -> nat, t: Thread, key: Key)
    requires DataInv(d, hash) && Allowed(d, hash, Remove(t)) && Unique(d.table)
    ensures Holding(After(d, hash, Remove(t)).table, key)
        <==> Holding(d.table, key) && !Loses(d, Remove(t), key)
  {
    AtItsBucket(d, hash, t);
    RemovedHolding(d.table, hash, d.ops[t].key, key);
    HeldWhereItBelongs(d.table, hash, d.ops[t].key);
    hide InBuckets, Unique, Total, HashMapLocks.Inv, Fits, Without, Holding;
  }

  lemma HeldAfterWork(d: Data, hash: Key -> nat, t: Thread, key: Key)
    requires DataInv(d, hash) && Allowed(d, hash, Work(t))
    ensures Holding(After(d, hash, Work(t)).table, key)
        <==> Holding(d.table, key) && !Loses(d, Work(t), key)
  {
    EmptyTable(|d.table|, hash);
    EmptyTable(3 * |d.table|, hash);
    SpreadKeeps(d.table, hash, |d.table|, NoEntries(3 * |d.table|));
    assert d.table[..|d.table|] == d.table;
    hide InBuckets, Unique, Total, HashMapLocks.Inv, Fits, Holding, Spread, NoEntries;
  }

  // ------------------------------------------------------- late insertions

  /** `t` is inserting `key`: it has looked and not found it, and has not stored it yet. */
  predicate Between(d: Data, t: Thread, key: Key) {
    t in d.ops && (d.ops[t] == Missing(key) || d.ops[t] == Store(key))
  }

  /** Another thread has stored `key` at step `k`, while `t` was between looking and
      storing, where it still is at `i`; and since then nobody has erased the key or
      cleared the map. */
  ghost predicate Late(states: seq<Data>, moves: seq<Move>, t: Thread, key: Key, k: nat, i: nat)
    requires i < |states| == |moves| + 1
  {
    && k < i && moves[k].Push? && moves[k].t != t && Gains(states[k], moves[k], key)
    && (forall m :: k <= m <= i ==> Between(states[m], t, key))
    && (forall m :: k < m < i ==> !Loses(states[m], moves[m], key))
  }

  ghost predicate IsLate(states: seq<Data>, moves: seq<Move>, t: Thread, key: Key, i: nat)
    requires i < |states| == |moves| + 1
  {
    exists k: nat :: Late(states, moves, t, key, k, i)
  }

  /** Step `i` stores a key too late. */
  ghost predicate LatePush(states: seq<Data>, hash: Key -> nat, moves: seq<Move>, i: nat)
    requires Run(states, hash, moves) && i < |moves|
  {
    moves[i].Push? && IsLate(states, moves, moves[i].t, states[i].ops[moves[i].t].key, i)
  }

  /** How a thread comes to be between looking and storing, and how it stays there. */
  lemma BetweenBefore(d: Data, hash: Key -> nat, move: Move, t: Thread, key: Key)
    requires Shape(d, hash) && Allowed(d, hash, move) && Between(After(d, hash, move), t, key)
    ensures Between(d, t, key) || (move == Look(t) && d.ops[t] == Find(key))
    ensures Between(d, t, key) ==> !(move.Push? && move.t == t)
  {
    hide HashMapLocks.Inv, HashMapLocks.Apply, HashMapLocks.Enabled, Fits;
    if t != Mover(move) {
      OthersStay(d, hash, move);
    }
  }

  /** A key that was looked for in vain is nowhere in the table. */
  lemma LookedInVain(d: Data, hash: Key -> nat, t: Thread, key: Key)
    requires DataInv(d, hash) && Allowed(d, hash, Look(t)) && d.ops[t] == Find(key)
    ensures Between(After(d, hash, Look(t)), t, key) ==> !Holding(After(d, hash, Look(t)).table, key)
  {
    AtItsBucket(d, hash, t);
    HeldWhereItBelongs(d.table, hash, key);
    hide InBuckets, HashMapLocks.Inv, Fits, Holding, Sized;
  }

  lemma LateStep(states: seq<Data>, moves: seq<Move>, t: Thread, key: Key, k: nat, i: nat)
    requires i < |moves| && |states| == |moves| + 1 && Between(states[i + 1], t, key)
    ensures Between(states[i], t, key) ==>
      (Late(states, moves, t, key, k, i + 1)
       <==> ((k == i && moves[i].Push? && moves[i].t != t && Gains(states[i], moves[i], key))
             || (Late(states, moves, t, key, k, i) && !Loses(states[i], moves[i], key))))
    ensures !Between(states[i], t, key) ==> !Late(states, moves, t, key, k, i + 1)
  {
    hide Between, Gains, Loses;
  }

  lemma IsLateStep(states: seq<Data>, moves: seq<Move>, t: Thread, key: Key, i: nat)
    requires i < |moves| && |states| == |moves| + 1 && Between(states[i + 1], t, key)
    ensures Between(states[i], t, key) ==>
      (IsLate(states, moves, t, key, i + 1)
       <==> ((moves[i].Push? && moves[i].t != t && Gains(states[i], moves[i], key))
             || (IsLate(states, moves, t, key, i) && !Loses(states[i], moves[i], key))))
    ensures !Between(states[i], t, key) ==> !IsLate(states, moves, t, key, i + 1)
  {
    hide Between, Gains, Loses, Late;
    var next := i + 1;
    if Between(states[i], t, key) {
      LateStep(states, moves, t, key, i, i);
      forall k: nat
        ensures Late(states, moves, t, key, k, next)
            <==> ((k == i && moves[i].Push? && moves[i].t != t && Gains(states[i], moves[i], key))
                  || (Late(states, moves, t, key, k, i) && !Loses(states[i], moves[i], key)))
      {
        LateStep(states, moves, t, key, k, i);
      }
    } else {
      forall k: nat
        ensures !Late(states, moves, t, key, k, next)
      {
        LateStep(states, moves, t, key, k, i);
      }
    }
  }

  /** As long as no key is in the table twice: between looking and storing, the key is
      held exactly if the insertion is late. */
  lemma {:induction false} HeldIffLate(states: seq<Data>, hash: Key -> nat, moves: seq<Move>, t: Thread, key: Key,
          i: nat)
    requires Run(states, hash, moves) && i < |states| && Between(states[i], t, key)
    requires forall m :: 0 <= m < i ==> Unique(states[m].table)
    ensures Holding(states[i].table, key) <==> IsLate(states, moves, t, key, i)
  {
    hide Unique, Holding, Allowed, After, IsLate, Gains, Loses, DataInv;
    if i == 0 {
      NotBetweenAtFirst(states[0], t, key);
    } else {
      RunKeepsData(states, hash, moves, i - 1);
      var d, move := states[i - 1], moves[i - 1];
      DataShape(d, hash);
      BetweenBefore(d, hash, move, t, key);
      IsLateStep(states, moves, t, key, i - 1);
      if Between(d, t, key) {
        HeldIffLate(states, hash, moves, t, key, i - 1);
        HeldAfter(d, hash, move, key);
        OnlyPushGains(d, move, key);
      } else {
        LookedInVain(d, hash, t, key);
      }
    }
  }

  lemma NotBetweenAtFirst(d: Data, t: Thread, key: Key)
    requires Init(d)
    ensures !Between(d, t, key)
  {
  }

  lemma DataShape(d: Data, hash: Key -> nat)
    requires DataInv(d, hash)
    ensures Shape(d, hash)
  {
  }

  lemma OnlyPushGains(d: Data, move: Move, key: Key)
    ensures Gains(d, move, key) ==> move.Push?
  {
  }

  /** A thread that stores its key is late exactly if the bucket has the key already. */
  lemma LateIffPushed(states: seq<Data>, hash: Key -> nat, moves: seq<Move>, i: nat)
    requires Run(states, hash, moves) && i < |moves| && forall m :: 0 <= m <= i ==> Unique(states[m].table)
    ensures LatePush(states, hash, moves, i) <==> Duplicates(states[i], hash, moves[i])
  {
    hide Unique, Holding, After, IsLate, InBuckets, HashMapLocks.Inv, Sized;
    if moves[i].Push? {
      var d, t := states[i], moves[i].t;
      RunKeepsData(states, hash, moves, i);
      HeldIffLate(states, hash, moves, t, d.ops[t].key, i);
      AtItsBucket(d, hash, t);
      HeldWhereItBelongs(d.table, hash, d.ops[t].key);
    }
  }

  /** No key is in the table twice in any state up to `n` if and only if no insertion
      before `n` stores a key that another thread has stored since this one looked. */
  lemma {:induction false} UniqueIff(states: seq<Data>, hash: Key -> nat, moves: seq<Move>, n: nat)
    requires Run(states, hash, moves) && n < |states|
    ensures (forall i :: 0 <= i <= n ==> Unique(states[i].table))
        <==> (forall i :: 0 <= i < n ==> !LatePush(states, hash, moves, i))
  {
    hide Unique, Allowed, After, Init, LatePush, Duplicates;
    if n == 0 {
      StartsUnique(states[0], hash);
    } else {
      UniqueIff(states, hash, moves, n - 1);
      UniqueStep(states, hash, moves, n - 1);
      if forall i :: 0 <= i <= n - 1 ==> Unique(states[i].table) {
        LateIffPushed(states, hash, moves, n - 1);
      }
    }
  }

  /** No two threads are between looking and storing with the same key. */
  ghost predicate Apart(d: Data) {
    forall t, u, key :: Between(d, t, key) && Between(d, u, key) ==> t == u
  }

  /** What a caller has to see to: insertions of the same key that do not overlap there. */
  lemma UniqueWhenApart(states: seq<Data>, hash: Key -> nat, moves: seq<Move>, n: nat)
    requires Run(states, hash, moves) && n < |states| && forall i :: 0 <= i < n ==> Apart(states[i])
    ensures forall i :: 0 <= i <= n ==> Unique(states[i].table)
  {
    hide Unique, Allowed, After, Init;
    forall i: nat | i < n
      ensures !LatePush(states, hash, moves, i)
    {
      if moves[i].Push? {
        NotLateWhenApart(states, hash, moves, i);
      }
    }
    UniqueIff(states, hash, moves, n);
  }

  lemma NotLateWhenApart(states: seq<Data>, hash: Key -> nat, moves: seq<Move>, i: nat)
    requires Run(states, hash, moves) && i < |moves| && moves[i].Push?
    requires forall k :: 0 <= k <= i ==> Apart(states[k])
    ensures !LatePush(states, hash, moves, i)
  {
    hide After, Init, HashMapLocks.Enabled;
    var t, key := moves[i].t, states[i].ops[moves[i].t].key;
    forall k: nat
      ensures !Late(states, moves, t, key, k, i)
    {
      if k < i && moves[k].Push? && Gains(states[k], moves[k], key) {
        assert Between(states[k], moves[k].t, key);
        assert Apart(states[k]);
      }
    }
  }

  // ------------------------------------------------- the answers of one set

  ghost predicate SameKeys(d: Data, d': Data) {
    forall k :: Holding(d'.table, k) <==> Holding(d.table, k)
  }

  /** In this move the operation under way does to a set of keys what it should, and takes
      the set's answer: a look that finds the key, or an insertion that adds a key that was
      not there, or a removal that says whether the key was there. */
  ghost predicate ActsOnSet(d: Data, hash: Key -> nat, move: Move)
    requires Allowed(d, hash, move)
  {
    var d' := After(d, hash, move);
    match move
    case Look(t) => t in d'.ops && (d'.ops[t].Present? <==> Holding(d.table, d.ops[t].key)) && SameKeys(d, d')
    case Push(t) =>
      && !Holding(d.table, d.ops[t].key)
      && forall k :: Holding(d'.table, k) <==> Holding(d.table, k) || k == d.ops[t].key
    case Remove(t) =>
      && t in d'.ops && (d'.ops[t].Erased? <==> Holding(d.table, d.ops[t].key))
      && forall k :: Holding(d'.table, k) <==> Holding(d.table, k) && k != d.ops[t].key
    case Work(t) =>
      if t in d.locks.place && d.locks.place[t].InAll? && !d.locks.place[t].rehash
      then forall k :: !Holding(d'.table, k)
      else SameKeys(d, d')
    case _ => SameKeys(d, d')
  }

  lemma ActsOnSetIff(d: Data, hash: Key -> nat, move: Move)
    requires DataInv(d, hash) && Allowed(d, hash, move) && Unique(d.table)
    ensures ActsOnSet(d, hash, move) <==> !Duplicates(d, hash, move)
  {
    forall k
      ensures Holding(After(d, hash, move).table, k)
          <==> Gains(d, move, k) || (Holding(d.table, k) && !Loses(d, move, k))
    {
      HeldAfter(d, hash, move, k);
    }
    if move.Push? || move.Look? || move.Remove? {
      AtItsBucket(d, hash, move.t);
      HeldWhereItBelongs(d.table, hash, d.ops[move.t].key);
    }
    hide InBuckets, Unique, Total, HashMapLocks.Inv, HashMapLocks.Apply, HashMapLocks.Enabled, Fits, Holding, Spread;
  }

  /** Up to step `n` the operations answer as one set would, each at one moment of its
      call, if and only if no insertion before `n` stores its key too late. */
  lemma {:induction false} AnswersOfOneSet(states: seq<Data>, hash: Key -> nat, moves: seq<Move>, n: nat)
    requires Run(states, hash, moves) && n < |states|
    ensures (forall i :: 0 <= i < n ==> ActsOnSet(states[i], hash, moves[i]))
        <==> (forall i :: 0 <= i < n ==> !LatePush(states, hash, moves, i))
  {
    hide Unique, Allowed, After, Init, LatePush, Duplicates, ActsOnSet, DataInv;
    if n > 0 {
      AnswersOfOneSet(states, hash, moves, n - 1);
      if forall i :: 0 <= i < n - 1 ==> !LatePush(states, hash, moves, i) {
        UniqueIff(states, hash, moves, n - 1);
        LateIffPushed(states, hash, moves, n - 1);
        RunKeepsData(states, hash, moves, n - 1);
        ActsOnSetIff(states[n - 1], hash, moves[n - 1]);
      }
    }
  }

  /** So it is whenever insertions of one key keep apart. */
  lemma AnswersWhenApart(states: seq<Data>, hash: Key -> nat, moves: seq<Move>, n: nat)
    requires Run(states, hash, moves) && n < |states| && forall i :: 0 <= i < n ==> Apart(states[i])
    ensures forall i :: 0 <= i < n ==> ActsOnSet(states[i], hash, moves[i])
  {
    UniqueWhenApart(states, hash, moves, n);
    UniqueIff(states, hash, moves, n);
    AnswersOfOneSet(states, hash, moves, n);
    hide Unique, Allowed, After, Init, LatePush, Duplicates, ActsOnSet, Apart;
  }
}
