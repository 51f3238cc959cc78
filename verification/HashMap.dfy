/** `ConcurrentHashMap`, run by one thread: it refines a finite map. */
module HashMaps {
  import opened Options

  type Bucket<K, V> = seq<(K, V)>

  function PowerOf3(n: nat): (p: nat)
    ensures p >= 1
  {
    if n == 0 then 1 else 3 * PowerOf3(n - 1)
  }

  lemma TripleGrowth(locks: nat, r: nat)
    ensures 3 * (locks * PowerOf3(r)) == locks * PowerOf3(r + 1)
  {
  }

  function Total<T>(table: seq<seq<T>>): nat {
    if table == [] then 0 else Total(table[..|table| - 1]) + |table[|table| - 1]|
  }

  lemma {:induction false} TotalUpdate<T>(table: seq<seq<T>>, b: nat, bucket: seq<T>)
    requires b < |table|
    ensures Total(table[b := bucket]) == Total(table) - |table[b]| + |bucket|
  {
    var last := |table| - 1;
    if b < last {
      TotalUpdate(table[..last], b, bucket);
      assert table[b := bucket][..last] == table[..last][b := bucket];
    } else {
      assert table[b := bucket][..last] == table[..last];
    }
  }

  // ------------------------------------ what the operations do to the keys, by bucket

  function KeysOf<K, V>(bucket: Bucket<K, V>): (keys: seq<K>)
    ensures |keys| == |bucket| && forall i :: 0 <= i < |bucket| ==> keys[i] == bucket[i].0
  {
    seq(|bucket|, i requires 0 <= i < |bucket| => bucket[i].0)
  }

  function KeyTable<K, V>(table: seq<Bucket<K, V>>): (keys: seq<seq<K>>)
    ensures |keys| == |table| && forall b :: 0 <= b < |table| ==> keys[b] == KeysOf(table[b])
  {
    seq(|table|, b requires 0 <= b < |table| => KeysOf(table[b]))
  }

  function NoEntries<K>(n: nat): seq<seq<K>> { seq(n, _ => []) }

  function Pushed<K>(table: seq<seq<K>>, b: nat, key: K): seq<seq<K>>
    requires b < |table|
  {
    table[b := table[b] + [key]]
  }

  /** A bucket without the entry that a scan for `key` finds first. */
  function Without<K(==)>(bucket: seq<K>, key: K): seq<K> {
    if bucket == [] then [] else if bucket[0] == key then bucket[1..] else [bucket[0]] + Without(bucket[1..], key)
  }

  /** Every entry of the first `n` buckets pushed into its bucket of `into`. */
  function Spread<K>(table: seq<seq<K>>, hash: K -> nat, n: nat, into: seq<seq<K>>): seq<seq<K>>
    requires n <= |table| && into != []
    ensures |Spread(table, hash, n, into)| == |into|
  {
    if n == 0 then into else SpreadBucket(table[n - 1], hash, |table[n - 1]|, Spread(table, hash, n - 1, into))
  }

  function SpreadBucket<K>(bucket: seq<K>, hash: K -> nat, n: nat, into: seq<seq<K>>): seq<seq<K>>
    requires n <= |bucket| && into != []
    ensures |SpreadBucket(bucket, hash, n, into)| == |into|
  {
    if n == 0 then into
    else
      var key := bucket[n - 1];
      Pushed(SpreadBucket(bucket, hash, n - 1, into), hash(key) % |into|, key)
  }

  lemma KeysPushed<K, V>(table: seq<Bucket<K, V>>, b: nat, key: K, value: V)
    requires b < |table|
    ensures KeyTable(table[b := table[b] + [(key, value)]]) == Pushed(KeyTable(table), b, key)
  {
    hide KeyTable, KeysOf;
    var keys := KeyTable(table[b := table[b] + [(key, value)]]);
    assert keys[b] == KeyTable(table)[b] + [key];
    forall c | 0 <= c < |table|
      ensures keys[c] == Pushed(KeyTable(table), b, key)[c]
    {
    }
  }

  lemma {:induction false} WithoutFirst<K>(bucket: seq<K>, key: K, i: nat)
    requires i < |bucket| && bucket[i] == key && forall j :: 0 <= j < i ==> bucket[j] != key
    ensures Without(bucket, key) == bucket[..i] + bucket[i + 1..]
  {
    if i > 0 {
      WithoutFirst(bucket[1..], key, i - 1);
      assert bucket[..i] == [bucket[0]] + bucket[1..][..i - 1];
      assert bucket[i + 1..] == bucket[1..][i..];
    }
  }

  lemma {:induction false} WithoutNone<K>(bucket: seq<K>, key: K)
    requires forall j :: 0 <= j < |bucket| ==> bucket[j] != key
    ensures Without(bucket, key) == bucket
  {
    if bucket != [] {
      WithoutNone(bucket[1..], key);
    }
  }

  lemma KeysRemoved<K, V>(table: seq<Bucket<K, V>>, b: nat, key: K, i: nat)
    requires b < |table| && i < |table[b]| && table[b][i].0 == key && forall j :: 0 <= j < i ==> table[b][j].0 != key
    ensures KeyTable(table[b := table[b][..i] + table[b][i + 1..]])
         == KeyTable(table)[b := Without(KeyTable(table)[b], key)]
  {
    hide KeyTable, KeysOf, Without;
    WithoutFirst(KeysOf(table[b]), key, i);
    var rest := table[b][..i] + table[b][i + 1..];
    assert KeysOf(rest) == KeysOf(table[b])[..i] + KeysOf(table[b])[i + 1..];
    var before, after := KeyTable(table), KeyTable(table[b := rest]);
    forall c | 0 <= c < |table|
      ensures after[c] == before[b := Without(before[b], key)][c]
    {
    }
  }

  lemma KeysUnremoved<K, V>(table: seq<Bucket<K, V>>, b: nat, key: K)
    requires b < |table| && forall j :: 0 <= j < |table[b]| ==> table[b][j].0 != key
    ensures KeyTable(table) == KeyTable(table)[b := Without(KeyTable(table)[b], key)]
  {
    WithoutNone(KeysOf(table[b]), key);
    hide KeyTable, KeysOf, Without;
  }

  lemma KeysEmpty<K, V>(table: seq<Bucket<K, V>>)
    requires forall b :: 0 <= b < |table| ==> table[b] == []
    ensures KeyTable(table) == NoEntries(|table|)
  {
    hide KeyTable, KeysOf;
    forall b | 0 <= b < |table|
      ensures KeyTable(table)[b] == []
    {
    }
  }

  // ------------------------------------------------------- what the table holds

  ghost predicate HasEntry<K, V>(bucket: Bucket<K, V>, key: K, value: V) {
    exists i :: 0 <= i < |bucket| && bucket[i] == (key, value)
  }

  /** The table holds exactly the entries of `m`: each in the bucket of its hash,
      and no key twice. */
  ghost predicate Holds<K(!new), V(!new)>(table: seq<Bucket<K, V>>, hash: K -> nat, m: map<K, V>) {
    && table != []
    && (forall b, i :: 0 <= b < |table| && 0 <= i < |table[b]| ==> EntryOk(table, hash, m, b, i))
    && (forall b, i, j :: 0 <= b < |table| && 0 <= i < j < |table[b]| ==> table[b][i].0 != table[b][j].0)
    && (forall key :: key in m ==> HasEntry(table[hash(key) % |table|], key, m[key]))
  }

  ghost predicate EntryOk<K(!new), V(!new)>(table: seq<Bucket<K, V>>, hash: K -> nat, m: map<K, V>, b: nat, i: nat)
    requires b < |table| && i < |table[b]|
  {
    var (key, value) := table[b][i];
    hash(key) % |table| == b && key in m && m[key] == value
  }

  lemma HoldsAdded<K(!new), V(!new)>(table: seq<Bucket<K, V>>, hash: K -> nat, m: map<K, V>, key: K, value: V)
    requires Holds(table, hash, m) && key !in m
    ensures var b := hash(key) % |table|;
            Holds(table[b := table[b] + [(key, value)]], hash, m[key := value])
  {
    var b := hash(key) % |table|;
    var table', m' := table[b := table[b] + [(key, value)]], m[key := value];
    forall c, i | 0 <= c < |table'| && 0 <= i < |table'[c]|
      ensures EntryOk(table', hash, m', c, i)
    {
      assert i < |table[c]| ==> EntryOk(table, hash, m, c, i);
    }
    forall k | k in m'
      ensures HasEntry(table'[hash(k) % |table'|], k, m'[k])
    {
      if k == key {
        assert table'[b][|table[b]|] == (key, value);
      } else {
        var c := hash(k) % |table|;
        var i :| 0 <= i < |table[c]| && table[c][i] == (k, m[k]);
        assert table'[c][i] == (k, m[k]);
      }
    }
    forall c, i, j | 0 <= c < |table'| && 0 <= i < j < |table'[c]|
      ensures table'[c][i].0 != table'[c][j].0
    {
      assert EntryOk(table, hash, m, c, i);
    }
  }

  lemma HoldsRemoved<K(!new), V(!new)>(table: seq<Bucket<K, V>>, hash: K -> nat, m: map<K, V>, b: nat, i: nat)
    requires Holds(table, hash, m) && b < |table| && i < |table[b]|
    ensures Holds(table[b := table[b][..i] + table[b][i + 1..]], hash, m - {table[b][i].0})
  {
    var key := table[b][i].0;
    var table', m' := table[b := table[b][..i] + table[b][i + 1..]], m - {key};
    assert EntryOk(table, hash, m, b, i);
    forall c, j | 0 <= c < |table'| && 0 <= j < |table'[c]|
      ensures EntryOk(table', hash, m', c, j)
    {
      var j' := if c == b && j >= i then j + 1 else j;
      assert table'[c][j] == table[c][j'] && EntryOk(table, hash, m, c, j');
    }
    forall k | k in m'
      ensures HasEntry(table'[hash(k) % |table'|], k, m'[k])
    {
      var c := hash(k) % |table|;
      var j :| 0 <= j < |table[c]| && table[c][j] == (k, m[k]);
      assert table'[c][if c == b && j > i then j - 1 else j] == (k, m[k]);
    }
    forall c, j, l | 0 <= c < |table'| && 0 <= j < l < |table'[c]|
      ensures table'[c][j].0 != table'[c][l].0
    {
      var j' := if c == b && j >= i then j + 1 else j;
      var l' := if c == b && l >= i then l + 1 else l;
      assert table'[c][j] == table[c][j'] && table'[c][l] == table[c][l'];
    }
  }

  lemma EntryHeld<K(!new), V(!new)>(table: seq<Bucket<K, V>>, hash: K -> nat, m: map<K, V>, b: nat, i: nat)
    requires Holds(table, hash, m) && b < |table| && i < |table[b]|
    ensures table[b][i].0 in m
  {
    assert EntryOk(table, hash, m, b, i);
  }

  lemma NotHeld<K(!new), V(!new)>(table: seq<Bucket<K, V>>, hash: K -> nat, m: map<K, V>, key: K)
    requires Holds(table, hash, m) && table != []
    requires forall j :: 0 <= j < |table[hash(key) % |table|]| ==> table[hash(key) % |table|][j].0 != key
    ensures key !in m
  {
    assert key in m ==> HasEntry(table[hash(key) % |table|], key, m[key]);
  }

  lemma NotEmpty<K(!new), V(!new)>(table: seq<Bucket<K, V>>, hash: K -> nat, m: map<K, V>)
    requires Holds(table, hash, m)
    ensures table != []
  {
  }

  lemma HoldsNothing<K(!new), V(!new)>(table: seq<Bucket<K, V>>, hash: K -> nat)
    requires table != [] && forall b :: 0 <= b < |table| ==> table[b] == []
    ensures Holds(table, hash, map[]) && Total(table) == 0
  {
    TotalEmpty(table);
  }

  lemma {:induction false} TotalEmpty<T>(table: seq<seq<T>>)
    requires forall b :: 0 <= b < |table| ==> table[b] == []
    ensures Total(table) == 0
  {
    if table != [] {
      TotalEmpty(table[..|table| - 1]);
    }
  }

  class ConcurrentHashMap<K(==, !new), V(!new)> {
    const lockCnt: nat
    const hash: K -> nat
    var table: seq<Bucket<K, V>>
    var size: nat
    var bucketCnt: nat
    ghost var contents: map<K, V>

    /** The load is at most three entries per bucket. */
    ghost predicate Valid()
      reads this
    {
      Structure() && size <= 3 * bucketCnt
    }

    ghost predicate Structure()
      reads this
    {
      && lockCnt > 0 && |table| == bucketCnt
      && (exists r: nat :: Grown(r))
      && Holds(table, hash, contents)
      && size == Total(table) == |contents|
    }

    /** The number of buckets is the number of locks times a power of three. */
    ghost predicate Grown(r: nat)
      reads this
    {
      bucketCnt == lockCnt * PowerOf3(r)
    }

    constructor (expectedSize: nat, expectedThreadsCount: nat, hash: K -> nat)
      requires expectedSize > 0 || expectedThreadsCount > 0
      ensures Valid() && contents == map[] && this.hash == hash
      ensures lockCnt == if expectedSize < expectedThreadsCount then expectedThreadsCount else expectedSize
    {
      var locks := if expectedSize < expectedThreadsCount then expectedThreadsCount else expectedSize;
      lockCnt, this.hash, size, contents := locks, hash, 0, map[];
      bucketCnt, table := locks, seq(locks, _ => []);
      new;
      HoldsNothing(table, hash);
      assert Grown(0);
    }

    method Find(key: K) returns (r: Option<V>)
      requires Valid()
      ensures r == if key in contents then Some(contents[key]) else None
    {
      hide Total, PowerOf3;
      var index := hash(key) % bucketCnt;
      for i := 0 to |table[index]|
        invariant forall j :: 0 <= j < i ==> table[index][j].0 != key
      {
        if table[index][i].0 == key {
          assert EntryOk(table, hash, contents, index, i);
          return Some(table[index][i].1);
        }
      }
      return None;
    }

    /** The keys, by bucket, after `key` has been stored and the table rehashed if need be. */
    ghost function KeysAfterInsert(key: K): seq<seq<K>>
      requires |table| == bucketCnt > 0
      reads this
    {
      var pushed := Pushed(KeyTable(table), hash(key) % bucketCnt, key);
      if size + 1 > 3 * bucketCnt then Spread(pushed, hash, bucketCnt, NoEntries(3 * bucketCnt)) else pushed
    }

    method Insert(key: K, value: V) returns (inserted: bool)
      requires Valid()
      modifies this
      ensures Valid() && inserted == (key !in old(contents))
      ensures contents == if inserted then old(contents)[key := value] else old(contents)
      ensures bucketCnt == if inserted && |contents| > 3 * old(bucketCnt) then 3 * old(bucketCnt) else old(bucketCnt)
      ensures inserted ==> KeyTable(table) == old(KeysAfterInsert(key))
    {
      hide Holds, KeyTable, Pushed, Spread;
      ghost var r: nat :| Grown(r);
      var found := Find(key);
      if found != None {
        return false;
      }
      NotEmpty(table, hash, contents);
      var index := hash(key) % bucketCnt;
      HoldsAdded(table, hash, contents, key, value);
      TotalUpdate(table, index, table[index] + [(key, value)]);
      KeysPushed(table, index, key, value);
      table := table[index := table[index] + [(key, value)]];
      size := size + 1;
      contents := contents[key := value];
      assert Grown(r);
      if size > 3 * bucketCnt {
        Rehash();
      }
      return true;
    }

    method Erase(key: K) returns (erased: bool)
      requires Valid()
      modifies this
      ensures Valid() && erased == (key in old(contents))
      ensures contents == old(contents) - {key} && bucketCnt == old(bucketCnt)
      ensures var b := hash(key) % bucketCnt;
              KeyTable(table) == old(KeyTable(table))[b := Without(old(KeyTable(table))[b], key)]
    {
      hide Holds, Total, PowerOf3, KeyTable, Without;
      NotEmpty(table, hash, contents);
      var index := hash(key) % bucketCnt;
      for i := 0 to |table[index]|
        invariant forall j :: 0 <= j < i ==> table[index][j].0 != key
      {
        if table[index][i].0 == key {
          EntryHeld(table, hash, contents, index, i);
          var rest := table[index][..i] + table[index][i + 1..];
          HoldsRemoved(table, hash, contents, index, i);
          TotalUpdate(table, index, rest);
          KeysRemoved(table, index, key, i);
          ghost var r: nat :| Grown(r);
          table := table[index := rest];
          size := size - 1;
          contents := contents - {key};
          assert Grown(r);
          return true;
        }
      }
      NotHeld(table, hash, contents, key);
      KeysUnremoved(table, index, key);
      assert contents - {key} == contents;
      return false;
    }

    method Clear()
      requires Valid()
      modifies this
      ensures Valid() && contents == map[] && bucketCnt == old(bucketCnt) && KeyTable(table) == NoEntries(bucketCnt)
    {
      hide KeyTable;
      ghost var r: nat :| Grown(r);
      size := 0;
      table := seq(|table|, _ => []);
      contents := map[];
      HoldsNothing(table, hash);
      KeysEmpty(table);
      assert Grown(r);
    }

    /** Three times the buckets, the same contents. */
    method Rehash()
      requires Structure()
      modifies this`table, this`bucketCnt
      ensures Structure() && bucketCnt == 3 * old(bucketCnt)
      ensures KeyTable(table) == Spread(old(KeyTable(table)), hash, old(bucketCnt), NoEntries(bucketCnt))
    {
      hide Holds, Moved, PowerOf3, KeyTable, SpreadBucket;
      ghost var r: nat :| Grown(r);
      assert table != [] by { NotEmpty(table, hash, contents); }
      var newBucketCnt := bucketCnt * 3;
      var newTable: seq<Bucket<K, V>> := seq(newBucketCnt, _ => []);
      ghost var done: map<K, V> := map[];
      HoldsNothing(newTable, hash);
      KeysEmpty(newTable);
      MovedEnds(table, hash, contents, done);
      for index := 0 to bucketCnt
        invariant table == old(table) && bucketCnt == old(bucketCnt) == |table| && table != []
        invariant Holds(table, hash, contents)
        invariant |newTable| == newBucketCnt && Holds(newTable, hash, done)
        invariant Moved(table, hash, contents, done, index, 0)
        invariant Total(newTable) == |done| == Total(table[..index])
        invariant KeyTable(newTable) == Spread(KeyTable(table), hash, index, NoEntries(newBucketCnt))
      {
        newTable, done := MoveBucket(newTable, done, index);
        assert table[..index + 1][..index] == table[..index];
      }
      assert table[..bucketCnt] == table;
      MovedEnds(table, hash, contents, done);
      TripleGrowth(lockCnt, r);
      bucketCnt := newBucketCnt;
      table := newTable;
      assert Grown(r + 1);
    }

    /** The inner loop of `Rehash`. */
    method MoveBucket(into: seq<Bucket<K, V>>, ghost before: map<K, V>, index: nat)
        returns (newTable: seq<Bucket<K, V>>, ghost done: map<K, V>)
      requires Holds(table, hash, contents) && index < |table|
      requires Holds(into, hash, before) && Moved(table, hash, contents, before, index, 0)
      requires Total(into) == |before|
      ensures |newTable| == |into| && Holds(newTable, hash, done) && Moved(table, hash, contents, done, index + 1, 0)
      ensures Total(newTable) == |done| == |before| + |table[index]|
      ensures KeyTable(newTable) == SpreadBucket(KeysOf(table[index]), hash, |table[index]|, KeyTable(into))
    {
      hide Holds, EntryOk, Moved, KeyTable, KeysOf, Pushed;
      NotEmpty(into, hash, before);
      newTable, done := into, before;
      for i := 0 to |table[index]|
        invariant |newTable| == |into| && Holds(newTable, hash, done)
        invariant Moved(table, hash, contents, done, index, i)
        invariant Total(newTable) == |done| == |before| + i
        invariant KeyTable(newTable) == SpreadBucket(KeysOf(table[index]), hash, i, KeyTable(into))
      {
        var (key, value) := table[index][i];
        MovedOne(table, hash, contents, done, index, i);
        var b := hash(key) % |newTable|;
        HoldsAdded(newTable, hash, done, key, value);
        TotalUpdate(newTable, b, newTable[b] + [(key, value)]);
        KeysPushed(newTable, b, key, value);
        newTable := newTable[b := newTable[b] + [(key, value)]];
        done := done[key := value];
      }
      MovedAll(table, hash, contents, done, index);
    }
  }

  /** `done` has the entries of the buckets before `index` and the first `i` of that one. */
  ghost predicate Moved<K(!new), V(!new)>(table: seq<Bucket<K, V>>, hash: K -> nat, m: map<K, V>,
          done: map<K, V>, index: nat, i: nat)
    requires index <= |table| && (i > 0 ==> index < |table|) && (index < |table| ==> i <= |table[index]|) && table != []
  {
    && (forall key :: key in done ==> key in m && done[key] == m[key])
    && (forall key :: key in m ==> (key in done <==> Before(table, hash, key, index, i)))
  }

  ghost predicate Before<K(!new), V(!new)>(table: seq<Bucket<K, V>>, hash: K -> nat, key: K, index: nat, i: nat)
    requires index <= |table| && (i > 0 ==> index < |table|) && (index < |table| ==> i <= |table[index]|) && table != []
  {
    var b := hash(key) % |table|;
    b < index || (b == index && exists j :: 0 <= j < i && table[index][j].0 == key)
  }

  /** Nothing is moved at first, and everything at the end. */
  lemma MovedEnds<K(!new), V(!new)>(table: seq<Bucket<K, V>>, hash: K -> nat, m: map<K, V>, done: map<K, V>)
    requires table != []
    ensures done == map[] ==> Moved(table, hash, m, done, 0, 0)
    ensures Moved(table, hash, m, done, |table|, 0) ==> done == m
  {
  }

  lemma MovedOne<K(!new), V(!new)>(table: seq<Bucket<K, V>>, hash: K -> nat, m: map<K, V>,
          done: map<K, V>, index: nat, i: nat)
    requires Holds(table, hash, m) && index < |table| && i < |table[index]| && Moved(table, hash, m, done, index, i)
    ensures table[index][i].0 !in done
    ensures Moved(table, hash, m, done[table[index][i].0 := table[index][i].1], index, i + 1)
  {
    var (key, value) := table[index][i];
    assert EntryOk(table, hash, m, index, i);
    assert !Before(table, hash, key, index, i);
    forall k | k in m
      ensures Before(table, hash, k, index, i + 1) <==> Before(table, hash, k, index, i) || k == key
    {
      if k == key {
        assert table[index][i].0 == k;
      }
    }
  }

  lemma MovedAll<K(!new), V(!new)>(table: seq<Bucket<K, V>>, hash: K -> nat, m: map<K, V>, done: map<K, V>, index: nat)
    requires Holds(table, hash, m) && index < |table| && Moved(table, hash, m, done, index, |table[index]|)
    ensures Moved(table, hash, m, done, index + 1, 0)
  {
    forall k | k in m
      ensures Before(table, hash, k, index + 1, 0) <==> Before(table, hash, k, index, |table[index]|)
    {
      if hash(k) % |table| == index {
        var j :| 0 <= j < |table[index]| && table[index][j] == (k, m[k]);
        assert table[index][j].0 == k;
      }
    }
  }
}
