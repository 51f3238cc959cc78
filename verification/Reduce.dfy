/** `Reduce`: the input is cut into chunks, each chunk is folded by a thread of its
    own, and the results are folded again. Iterators are positions. */
module Reduces {
  import opened Arithmetic

  /** The sequential left fold. */
  function Fold<T>(func: (T, T) -> T, start: T, s: seq<T>): T {
    if s == [] then start else func(Fold(func, start, s[..|s| - 1]), s[|s| - 1])
  }

  ghost predicate Associative<T(!new)>(func: (T, T) -> T) {
    forall x, y, z :: func(func(x, y), z) == func(x, func(y, z))
  }

  ghost predicate LeftIdentity<T(!new)>(func: (T, T) -> T, e: T) {
    forall x :: func(e, x) == x
  }

  lemma {:induction false} FoldConcat<T>(func: (T, T) -> T, start: T, a: seq<T>, b: seq<T>)
    ensures Fold(func, start, a + b) == Fold(func, Fold(func, start, a), b)
  {
    if b == [] {
      assert a + b == a;
    } else {
      FoldConcat(func, start, a, b[..|b| - 1]);
      assert (a + b)[..|a + b| - 1] == a + b[..|b| - 1];
    }
  }

  /** A non-empty part can be folded by itself first; no right identity is needed. */
  lemma {:induction false} FoldApart<T(!new)>(func: (T, T) -> T, e: T, x: T, s: seq<T>)
    requires Associative(func) && LeftIdentity(func, e) && s != []
    ensures func(x, Fold(func, e, s)) == Fold(func, x, s)
  {
    var front, a := s[..|s| - 1], s[|s| - 1];
    if front == [] {
      assert func(e, a) == a;
    } else {
      FoldApart(func, e, x, front);
      assert func(func(x, Fold(func, e, front)), a) == func(x, func(Fold(func, e, front), a));
    }
  }

  /** The whole part of the square root. */
  function Sqrt(n: nat): (r: nat)
    ensures r * r <= n < (r + 1) * (r + 1)
  {
    if n == 0 then 0 else
      var r := Sqrt(n - 1);
      if (r + 1) * (r + 1) <= n then
        SquareAbove(n, r);
        r + 1
      else r
  }

  lemma SquareAbove(n: nat, r: nat)
    requires n - 1 < (r + 1) * (r + 1)
    ensures n < (r + 2) * (r + 2)
  {
    assert (r + 2) * (r + 2) == (r + 1) * (r + 1) + 2 * r + 3;
  }

  /** The chunk length: `length / count` rounded up. */
  function Step(length: nat, count: nat): nat
    requires count >= 1
  {
    length / count + if length % count != 0 then 1 else 0
  }

  function End(length: nat, position: nat): (r: nat)
    ensures r <= length
  {
    if position < length then position else length
  }

  /** Where chunk `j` begins, or the end of the input. */
  function Start(length: nat, step: nat, j: nat): (r: nat)
    ensures r <= length
  {
    End(length, j * step)
  }

  lemma QuotientAtLeast(length: nat, count: nat)
    requires count >= 1 && count * count <= length
    ensures length / count >= count && length == length / count * count + length % count
  {
    var q := length / count;
    DivisionEquation(length, count);
    assert (q + 1) * count == q * count + count > length;
    ProductsBack(count, q + 1, count);
  }

  /** Because there are at most as many chunks as the square root of the length, every
      chunk starts before the end, and together they reach it. */
  lemma NoEmptyChunk(length: nat, count: nat, k: nat)
    requires count >= 1 && count * count <= length && k < count
    ensures k * Step(length, count) < length <= count * Step(length, count)
    ensures Step(length, count) >= 1
  {
    QuotientAtLeast(length, count);
    var q, r, step := length / count, length % count, Step(length, count);
    Products(k, count - 1, step);
    LastStart(q, count, r, step);
  }

  lemma LastStart(q: nat, count: nat, r: nat, step: nat)
    requires 1 <= count <= q && r < count && step == q + if r != 0 then 1 else 0
    ensures (count - 1) * step < q * count + r <= count * step
  {
    assert (count - 1) * step == count * step - step;
    assert count * (q + 1) == q * count + count;
  }

  /** `result` is what the thread of chunk `j` should find. */
  ghost predicate ChunkDone<T>(func: (T, T) -> T, e: T, input: seq<T>, step: nat, j: nat, result: T) {
    var first, last := Start(|input|, step, j), Start(|input|, step, j + 1);
    first < last && result == Fold(func, e, input[first..last])
  }

  /** Folding the results of the first `k` chunks is folding the input up to there. */
  lemma {:induction false} FoldOfFolds<T(!new)>(func: (T, T) -> T, e: T, input: seq<T>, results: seq<T>, step: nat)
    requires Associative(func) && LeftIdentity(func, e)
    requires forall j :: 0 <= j < |results| ==> ChunkDone(func, e, input, step, j, results[j])
    ensures Fold(func, e, results) == Fold(func, e, input[..Start(|input|, step, |results|)])
  {
    hide Associative, LeftIdentity, Start;
    if results == [] {
      StartOfFirst(|input|, step);
      assert input[..0] == [];
    } else {
      var j := |results| - 1;
      FoldOfFolds(func, e, input, results[..j], step);
      NextChunk(func, e, input, step, j, results[j]);
    }
  }

  lemma StartOfFirst(length: nat, step: nat)
    ensures Start(length, step, 0) == 0
  {
  }

  lemma NextChunk<T(!new)>(func: (T, T) -> T, e: T, input: seq<T>, step: nat, j: nat, result: T)
    requires Associative(func) && LeftIdentity(func, e) && ChunkDone(func, e, input, step, j, result)
    ensures func(Fold(func, e, input[..Start(|input|, step, j)]), result)
        == Fold(func, e, input[..Start(|input|, step, j + 1)])
  {
    hide Associative, LeftIdentity, Start, Fold;
    var a, b := Start(|input|, step, j), Start(|input|, step, j + 1);
    FoldApart(func, e, Fold(func, e, input[..a]), input[a..b]);
    FoldConcat(func, e, input[..a], input[a..b]);
    assert input[..b] == input[..a] + input[a..b];
  }

  /** What one thread computes before it takes the mutex and stores the result. */
  method FoldRange<T>(func: (T, T) -> T, initial: T, input: seq<T>, first: nat, last: nat) returns (r: T)
    requires first <= last <= |input|
    ensures r == Fold(func, initial, input[first..last])
  {
    r := initial;
    var i := first;
    while i != last
      invariant first <= i <= last && r == Fold(func, initial, input[first..i])
    {
      assert input[first..i + 1][..i - first] == input[first..i];
      r, i := func(r, input[i]), i + 1;
    }
  }

  datatype Job = Job(num: nat, first: nat, last: nat)

  /** Thread `j` has chunk `j`, and no chunk is empty. */
  predicate Cut(threads: seq<Job>, length: nat, step: nat) {
    forall j :: 0 <= j < |threads| ==> IsChunk(threads[j], length, step, j)
  }

  predicate IsChunk(job: Job, length: nat, step: nat, j: nat) {
    job.num == j && job.first == Start(length, step, j) < job.last == Start(length, step, j + 1)
  }

  /** Cuts `length` items into `count` jobs. */
  method Spawn(length: nat, count: nat, step: nat) returns (threads: seq<Job>)
    requires count >= 1 && count * count <= length && step == Step(length, count)
    ensures |threads| == count && Cut(threads, length, step) && Start(length, step, count) == length
  {
    hide IsChunk, Step;
    threads := [];
    var iter, num := 0, 0;
    while num < count
      invariant num == |threads| <= count && iter == num * step
      invariant Cut(threads, length, step)
    {
      NoEmptyChunk(length, count, num);
      var job := Job(num, iter, if iter + step < length then iter + step else length);
      NextJob(job, length, step, num);
      threads := threads + [job];
      num, iter := num + 1, iter + step;
    }
    NoEmptyChunk(length, count, 0);
  }

  lemma NextJob(job: Job, length: nat, step: nat, num: nat)
    requires step >= 1 && num * step < length
    requires job == Job(num, num * step, if num * step + step < length then num * step + step else length)
    ensures IsChunk(job, length, step, num) && (num + 1) * step == num * step + step
  {
    assert (num + 1) * step == num * step + step;
  }

  /** The threads store their results in any order: `job` is any one that is not done. */
  method RunAll<T>(func: (T, T) -> T, initial: T, input: seq<T>, step: nat, threads: seq<Job>, results: array<T>)
    requires results.Length == |threads| && Cut(threads, |input|, step)
    modifies results
    ensures forall j :: 0 <= j < |threads| ==> ChunkDone(func, initial, input, step, j, results[j])
  {
    hide Start, Fold;
    var pending := set job | job in threads;
    while pending != {}
      invariant forall job :: job in pending ==> job in threads
      invariant forall j :: 0 <= j < |threads| && threads[j] !in pending ==>
          ChunkDone(func, initial, input, step, j, results[j])
      decreases pending
    {
      var job :| job in pending;
      assert IsChunk(job, |input|, step, job.num);
      var r := FoldRange(func, initial, input, job.first, job.last);
      results[job.num] := r;
      pending := pending - {job};
      assert ChunkDone(func, initial, input, step, job.num, r);
    }
  }

  /** The order in which threads finish does not show, and for an associative function
      with a left identity the result is the sequential fold. */
  method Reduce<T(!new)>(input: seq<T>, initial: T, func: (T, T) -> T, hardwareConcurrency: nat) returns (r: T)
    requires hardwareConcurrency >= 1
    ensures Associative(func) && LeftIdentity(func, initial) ==> r == Fold(func, initial, input)
    ensures input == [] ==> r == initial
    ensures |input| == 1 ==> r == input[0]
  {
    hide Fold, Step, ChunkDone, Cut, Start, Associative, Sqrt;
    var length := |input|;
    FoldSmall(func, initial, input);
    if length == 1 {
      return input[0];
    }
    if length == 0 {
      return initial;
    }
    var count := Sqrt(length);
    SqrtBounds(length, hardwareConcurrency);
    if count > hardwareConcurrency {
      count := hardwareConcurrency;
    }
    var results := new T[count](_ => initial);
    var step := Step(length, count);
    var threads := Spawn(length, count, step);
    RunAll(func, initial, input, step, threads, results);
    ghost var found := results[..];
    r := FoldRange(func, initial, results[..], 0, results.Length);
    Recombined(func, initial, input, found, step);
    assert found[0..results.Length] == found;
  }

  lemma Recombined<T(!new)>(func: (T, T) -> T, e: T, input: seq<T>, found: seq<T>, step: nat)
    requires forall j :: 0 <= j < |found| ==> ChunkDone(func, e, input, step, j, found[j])
    requires Start(|input|, step, |found|) == |input|
    ensures Associative(func) && LeftIdentity(func, e) ==> Fold(func, e, found) == Fold(func, e, input)
  {
    hide Fold, ChunkDone, Associative, LeftIdentity, Start;
    if Associative(func) && LeftIdentity(func, e) {
      FoldOfFolds(func, e, input, found, step);
      assert input[..|input|] == input;
    }
  }

  lemma FoldSmall<T(!new)>(func: (T, T) -> T, e: T, s: seq<T>)
    ensures |s| == 0 ==> Fold(func, e, s) == e
    ensures |s| == 1 && LeftIdentity(func, e) ==> Fold(func, e, s) == s[0]
  {
    if |s| == 1 {
      assert s[..0] == [];
      assert LeftIdentity(func, e) ==> func(e, s[0]) == s[0];
    }
  }

  lemma SqrtBounds(n: nat, cap: nat)
    requires n >= 1 && cap >= 1
    ensures Sqrt(n) >= 1
    ensures Sqrt(n) > cap ==> cap * cap <= n
  {
    hide Sqrt;
    var r := Sqrt(n);
    if r > cap {
      Products(cap, r, cap);
      Products(cap, r, r);
    }
  }
}
