/** `Benchmark::ArgsProduct`: the odometer over the index vector produces the
    cartesian product. */
module ArgsProducts {
  import opened Arithmetic

  /** The digits of `i` in the mixed radix `lens`, the first one least significant. */
  function Digits(lens: seq<nat>, i: nat): (ds: seq<nat>)
    requires forall k :: 0 <= k < |lens| ==> lens[k] > 0
    ensures |ds| == |lens| && InRange(lens, ds)
  {
    if lens == [] then [] else [i % lens[0]] + Digits(lens[1..], i / lens[0])
  }

  predicate InRange(lens: seq<nat>, ds: seq<nat>) {
    |ds| == |lens| && forall k :: 0 <= k < |lens| ==> ds[k] < lens[k]
  }

  function Product(lens: seq<nat>): nat {
    if lens == [] then 1 else lens[0] * Product(lens[1..])
  }

  function FromDigits(lens: seq<nat>, ds: seq<nat>): nat
    requires |ds| == |lens|
  {
    if lens == [] then 0 else ds[0] + lens[0] * FromDigits(lens[1..], ds[1..])
  }

  lemma DivMod(d: nat, n: nat, q: nat)
    requires d < n
    ensures (d + n * q) % n == d && (d + n * q) / n == q
  {
    assert n * q == q * n;
    Division(d + n * q, q, d, n);
  }

  lemma BelowProduct(d: nat, n: nat, q: nat, rest: nat)
    requires d < n
    ensures q < rest <==> d + n * q < n * rest
  {
    if q < rest {
      Products(q + 1, rest, n);
      assert (q + 1) * n == n * q + n && rest * n == n * rest;
    } else {
      Products(rest, q, n);
      assert q * n == n * q && rest * n == n * rest;
    }
  }

  /** Counting up to the product enumerates every tuple of digits exactly once:
      `Digits` and `FromDigits` are inverse to each other. */
  lemma {:induction false} DigitsFromDigits(lens: seq<nat>, ds: seq<nat>)
    requires InRange(lens, ds)
    ensures (forall k :: 0 <= k < |lens| ==> lens[k] > 0) && FromDigits(lens, ds) < Product(lens)
    ensures Digits(lens, FromDigits(lens, ds)) == ds
  {
    assert forall k :: 0 <= k < |lens| ==> ds[k] < lens[k];
    if lens != [] {
      var n, q := lens[0], FromDigits(lens[1..], ds[1..]);
      DigitsFromDigits(lens[1..], ds[1..]);
      DivMod(ds[0], n, q);
      BelowProduct(ds[0], n, q, Product(lens[1..]));
    }
  }

  lemma {:induction false} FromDigitsDigits(lens: seq<nat>, i: nat)
    requires (forall k :: 0 <= k < |lens| ==> lens[k] > 0) && i < Product(lens)
    ensures FromDigits(lens, Digits(lens, i)) == i
  {
    if lens != [] {
      var n, q := lens[0], i / lens[0];
      DivisionEquation(i, n);
      assert i == i % n + n * q;
      BelowProduct(i % n, n, q, Product(lens[1..]));
      FromDigitsDigits(lens[1..], q);
      assert Digits(lens, i)[1..] == Digits(lens[1..], q);
    }
  }

  /** Component `k` of entry `i` is the value of list `k` at the k-th mixed-radix digit of `i`. */
  ghost predicate HasComponent(arglists: seq<seq<int>>, i: nat, k: nat, row: seq<int>)
    requires k < |arglists|
  {
    var lens := Lengths(arglists);
    && |row| == |arglists| && lens[k] > 0 && Product(lens[..k]) > 0
    && row[k] == arglists[k][i / Product(lens[..k]) % lens[k]]
  }

  /** `rows` is the cartesian product, with as many entries as there are choices. */
  ghost predicate Enumerates(arglists: seq<seq<int>>, rows: seq<seq<int>>) {
    && |rows| == Product(Lengths(arglists))
    && forall i, k :: 0 <= i < |rows| && 0 <= k < |arglists| ==> HasComponent(arglists, i, k, rows[i])
  }

  /** One turn of the odometer. */
  function Turn(lens: seq<nat>, ds: seq<nat>): seq<nat>
    requires InRange(lens, ds) && lens != []
  {
    if ds[0] + 1 < lens[0] then [ds[0] + 1] + ds[1..]
    else if |lens| == 1 then [0]
    else [0] + Turn(lens[1..], ds[1..])
  }

  /** Adding one either steps the first digit or carries. */
  lemma AddOne(n: nat, i: nat)
    requires n > 0
    ensures i % n + 1 < n ==> (i + 1) % n == i % n + 1 && (i + 1) / n == i / n
    ensures i % n + 1 >= n ==> (i + 1) % n == 0 && (i + 1) / n == i / n + 1
  {
    var d, q := i % n, i / n;
    DivisionEquation(i, n);
    if d + 1 < n {
      Division(i + 1, q, d + 1, n);
    } else {
      assert (q + 1) * n == q * n + n;
      Division(i + 1, q + 1, 0, n);
    }
  }

  lemma {:induction false} TurnCounts(lens: seq<nat>, i: nat)
    requires (forall k :: 0 <= k < |lens| ==> lens[k] > 0) && lens != []
    ensures Turn(lens, Digits(lens, i)) == Digits(lens, i + 1)
  {
    AddOne(lens[0], i);
    DigitsSplit(lens, i);
    DigitsSplit(lens, i + 1);
    var rest := lens[1..];
    if i % lens[0] + 1 >= lens[0] && |lens| > 1 {
      TurnCounts(rest, i / lens[0]);
    }
    hide Digits, InRange;
  }

  lemma DigitsSplit(lens: seq<nat>, i: nat)
    requires (forall k :: 0 <= k < |lens| ==> lens[k] > 0) && lens != []
    ensures Digits(lens, i)[0] == i % lens[0] && Digits(lens, i)[1..] == Digits(lens[1..], i / lens[0])
    ensures Digits(lens, i) == [i % lens[0]] + Digits(lens[1..], i / lens[0])
    ensures |lens| == 1 ==> Digits(lens, i) == [i % lens[0]]
  {
  }

  lemma DivDiv(i: nat, a: nat, b: nat)
    requires a > 0 && b > 0
    ensures a * b > 0 && i / (a * b) == i / a / b
  {
    var q, r := i / a, i % a;
    var q', r' := q / b, q % b;
    DivisionEquation(i, a);
    DivisionEquation(q, b);
    Products(r', b - 1, a);
    assert r' * a + r < b * a by { assert (b - 1) * a == b * a - a; }
    assert i == q' * (a * b) + (r' * a + r) by { assert (q' * b + r') * a == q' * (a * b) + r' * a; }
    assert a * b == b * a;
    Division(i, q', r' * a + r, a * b);
  }

  /** Digit `k` by itself: the digits before it count up to the product of their lengths. */
  lemma {:induction false} DigitAt(lens: seq<nat>, i: nat, k: nat)
    requires (forall m :: 0 <= m < |lens| ==> lens[m] > 0) && k < |lens|
    ensures Product(lens[..k]) > 0 && Digits(lens, i)[k] == i / Product(lens[..k]) % lens[k]
  {
    DigitsSplit(lens, i);
    if k == 0 {
      assert lens[..0] == [];
    } else {
      var rest := lens[1..];
      DigitAt(rest, i / lens[0], k - 1);
      assert lens[..k][1..] == rest[..k - 1] && lens[..k][0] == lens[0];
      DivDiv(i, lens[0], Product(rest[..k - 1]));
    }
  }

  function Lengths(arglists: seq<seq<int>>): (lens: seq<nat>)
    ensures |lens| == |arglists| && forall k :: 0 <= k < |lens| ==> lens[k] == |arglists[k]|
  {
    seq(|arglists|, k requires 0 <= k < |arglists| => |arglists[k]|)
  }

  lemma {:induction false} ProductPositive(lens: seq<nat>)
    ensures Product(lens) > 0 <==> forall k :: 0 <= k < |lens| ==> lens[k] > 0
  {
    if lens != [] {
      ProductPositive(lens[1..]);
      assert forall k :: 1 <= k < |lens| ==> lens[k] == lens[1..][k - 1];
      if lens[0] > 0 && Product(lens[1..]) > 0 {
        assert lens[0] * Product(lens[1..]) >= 1 * Product(lens[1..]);
      }
    }
  }

  lemma {:induction false} ProductSnoc(lens: seq<nat>, k: nat)
    requires k < |lens|
    ensures Product(lens[..k + 1]) == Product(lens[..k]) * lens[k]
  {
    if k == 0 {
      assert lens[..1] == [lens[0]] && lens[..0] == [];
      assert [lens[0]][1..] == [];
    } else {
      ProductSnoc(lens[1..], k - 1);
      assert lens[..k + 1][1..] == lens[1..][..k] && lens[..k][1..] == lens[1..][..k - 1];
      assert lens[0] * (Product(lens[1..][..k - 1]) * lens[k]) == (lens[0] * Product(lens[1..][..k - 1])) * lens[k];
    }
  }

  /** Stepping digit `arg` either carries or finishes the turn. */
  lemma TurnOneDigit(lens: seq<nat>, was: seq<nat>, arg: nat)
    requires InRange(lens, was) && arg < |lens|
    ensures var now := was[arg := (was[arg] + 1) % lens[arg]];
            was[..arg] + Turn(lens[arg..], was[arg..])
            == if now[arg] == 0 && arg + 1 < |lens| then now[..arg + 1] + Turn(lens[arg + 1..], now[arg + 1..]) else now
  {
    var n, d := lens[arg], was[arg];
    var now := was[arg := (d + 1) % n];
    assert (d + 1) % n == if d + 1 < n then d + 1 else 0;
    assert lens[arg..][1..] == lens[arg + 1..];
    assert was[arg..][1..] == was[arg + 1..] == now[arg + 1..];
    assert now[..arg + 1] == was[..arg] + [now[arg]];
    assert now == was[..arg] + [now[arg]] + now[arg + 1..];
  }

  /** The inner loop of `ArgsProduct`: step the index vector. */
  method Advance(lens: seq<nat>, indices0: seq<nat>) returns (indices: seq<nat>)
    requires lens != [] && InRange(lens, indices0)
    ensures indices == Turn(lens, indices0)
  {
    hide Turn;
    indices := indices0;
    var arg, more := 0, true;
    assert lens[0..] == lens && indices0[0..] == indices0
        && indices0[..0] + Turn(lens, indices0) == Turn(lens, indices0);
    while more
      invariant arg <= |lens| && (more ==> arg < |lens|) && InRange(lens, indices)
      invariant more ==> Turn(lens, indices0) == indices[..arg] + Turn(lens[arg..], indices[arg..])
      invariant !more ==> Turn(lens, indices0) == indices
      decreases more, |lens| - arg
    {
      TurnOneDigit(lens, indices, arg);
      indices := indices[arg := (indices[arg] + 1) % lens[arg]];
      more := indices[arg] == 0 && arg + 1 < |lens|;
      arg := arg + 1;
    }
  }

  class Benchmark {
    var args: seq<seq<int>>
    var argNames: seq<string>

    function ArgsCnt(): int
      reads this
    {
      if args != [] then |args[0]| else if argNames != [] then |argNames| else -1
    }

    /** False stands for the failing `CHECK`. */
    method ArgsProduct(arglists: seq<seq<int>>) returns (ok: bool)
      requires arglists != []
      modifies this`args
      ensures ok == (old(ArgsCnt()) == -1 || old(ArgsCnt()) == |arglists|)
      ensures !ok ==> args == old(args)
      ensures ok ==> old(args) <= args && Enumerates(arglists, args[|old(args)|..])
    {
      hide Enumerates;
      if !(ArgsCnt() == -1 || ArgsCnt() == |arglists|) {
        return false;
      }
      var lens := Lengths(arglists);
      var total := Count(lens);
      ProductPositive(lens);
      var rows := [];
      if total > 0 {
        rows := Rows(arglists, lens, total);
      }
      RowsByQuotients(arglists, rows);
      args := args + rows;
      assert args[|old(args)|..] == rows;
      return true;
    }
  }

  method Count(lens: seq<nat>) returns (total: nat)
    ensures total == Product(lens)
  {
    total := 1;
    for k := 0 to |lens|
      invariant total == Product(lens[..k])
    {
      ProductSnoc(lens, k);
      total := total * lens[k];
    }
    assert lens[..|lens|] == lens;
  }

  /** One value from each list, at the indices `ds`. */
  ghost predicate IsRow(arglists: seq<seq<int>>, ds: seq<nat>, row: seq<int>)
    requires InRange(Lengths(arglists), ds)
  {
    |row| == |arglists| && forall k :: 0 <= k < |row| ==> row[k] == arglists[k][ds[k]]
  }

  lemma RowsByQuotients(arglists: seq<seq<int>>, rows: seq<seq<int>>)
    requires |rows| == Product(Lengths(arglists))
    requires rows != [] ==> forall k :: 0 <= k < |arglists| ==> |arglists[k]| > 0
    requires var lens := Lengths(arglists); forall i :: 0 <= i < |rows| ==> IsRow(arglists, Digits(lens, i), rows[i])
    ensures Enumerates(arglists, rows)
  {
    hide Digits, Product, IsRow, HasComponent;
    forall i: nat, k: nat | i < |rows| && k < |arglists|
      ensures HasComponent(arglists, i, k, rows[i])
    {
      RowHasComponent(arglists, i, k, rows[i]);
    }
  }

  lemma RowHasComponent(arglists: seq<seq<int>>, i: nat, k: nat, row: seq<int>)
    requires k < |arglists| && forall m :: 0 <= m < |arglists| ==> |arglists[m]| > 0
    requires IsRow(arglists, Digits(Lengths(arglists), i), row)
    ensures HasComponent(arglists, i, k, row)
  {
    hide Digits, Product;
    DigitAt(Lengths(arglists), i, k);
  }

  /** The outer loop of `ArgsProduct`. */
  method Rows(arglists: seq<seq<int>>, lens: seq<nat>, total: nat) returns (rows: seq<seq<int>>)
    requires arglists != [] && lens == Lengths(arglists) && forall k :: 0 <= k < |lens| ==> lens[k] > 0
    ensures |rows| == total
    ensures forall i :: 0 <= i < total ==> IsRow(arglists, Digits(lens, i), rows[i])
  {
    hide Digits, IsRow, Turn;
    rows := [];
    var indices := seq(|lens|, _ => 0);
    DigitsOfZero(lens);
    for i := 0 to total
      invariant |rows| == i && indices == Digits(lens, i)
      invariant forall j :: 0 <= j < i ==> IsRow(arglists, Digits(lens, j), rows[j])
    {
      var args := OneRow(arglists, indices);
      rows := rows + [args];
      TurnCounts(lens, i);
      indices := Advance(lens, indices);
    }
  }

  /** The inner `for` loop of `ArgsProduct`. */
  method OneRow(arglists: seq<seq<int>>, indices: seq<nat>) returns (args: seq<int>)
    requires |indices| == |arglists| && forall k :: 0 <= k < |indices| ==> indices[k] < |arglists[k]|
    ensures IsRow(arglists, indices, args)
  {
    args := [];
    for arg := 0 to |arglists|
      invariant |args| == arg && forall k :: 0 <= k < arg ==> args[k] == arglists[k][indices[k]]
    {
      args := args + [arglists[arg][indices[arg]]];
    }
  }

  lemma {:induction false} DigitsOfZero(lens: seq<nat>)
    requires forall k :: 0 <= k < |lens| ==> lens[k] > 0
    ensures Digits(lens, 0) == seq(|lens|, _ => 0)
  {
    if lens != [] {
      DigitsOfZero(lens[1..]);
    }
  }

  /** Of the entries that `ArgsProduct` adds, `rows`, exactly one is for each choice `ds` of
      one place per list, and it holds the values at those places. */
  lemma EveryTupleOnce(arglists: seq<seq<int>>, rows: seq<seq<int>>, ds: seq<nat>)
    requires InRange(Lengths(arglists), ds) && Enumerates(arglists, rows)
    ensures var lens := Lengths(arglists);
            && (forall k :: 0 <= k < |lens| ==> lens[k] > 0)
            && (exists i :: 0 <= i < |rows| && Digits(lens, i) == ds)
            && (forall i, j :: 0 <= i < |rows| && 0 <= j < |rows| ==>
                  Digits(lens, i) == ds && Digits(lens, j) == ds ==> i == j)
            && (forall i, k :: 0 <= i < |rows| && 0 <= k < |arglists| && Digits(lens, i) == ds ==>
                  |rows[i]| == |arglists| && rows[i][k] == arglists[k][ds[k]])
  {
    hide Digits, Product;
    var lens := Lengths(arglists);
    DigitsFromDigits(lens, ds);
    forall i | 0 <= i < |rows| && Digits(lens, i) == ds
      ensures i == FromDigits(lens, ds)
    {
      FromDigitsDigits(lens, i);
    }
    forall i: nat, k: nat | i < |rows| && k < |arglists| && Digits(lens, i) == ds
      ensures |rows[i]| == |arglists| && rows[i][k] == arglists[k][ds[k]]
    {
      assert HasComponent(arglists, i, k, rows[i]);
      DigitAt(lens, i, k);
    }
  }
}
