/** `AddRange` and its helpers, over a signed integer type whose largest value is
    `max` and whose smallest is `-max - 1`. */
module AddRanges {
  predicate InT(max: int, x: int) { -max - 1 <= x <= max }

  /** Arithmetic of the type: overflowing it is a violated precondition. */
  function MulT(max: int, a: int, b: int): int
    requires InT(max, a * b)
  {
    a * b
  }

  function NegT(max: int, a: int): int
    requires InT(max, -a)
  {
    -a
  }

  function AddT(max: int, a: int, b: int): int
    requires InT(max, a + b)
  {
    a + b
  }

  function Pow(m: nat, e: nat): nat {
    if e == 0 then 1 else m * Pow(m, e - 1)
  }

  ghost predicate IsPower(m: nat, x: int) {
    exists e: nat :: Pow(m, e) == x
  }

  lemma {:induction false} PowGrows(m: nat, e: nat, f: nat)
    requires m >= 2 && e < f
    ensures 1 <= Pow(m, e) < Pow(m, f)
  {
    if e < f - 1 {
      PowGrows(m, e, f - 1);
    } else {
      PowPositive(m, e);
    }
    var p := Pow(m, f - 1);
    assert m * p == 2 * p + (m - 2) * p;
    PowPositive(m, f - 1);
    assert (m - 2) * p >= 0;
  }

  lemma {:induction false} PowPositive(m: nat, e: nat)
    requires m >= 2
    ensures Pow(m, e) >= 1
  {
    if e > 0 {
      PowPositive(m, e - 1);
      assert m * Pow(m, e - 1) >= 2 * Pow(m, e - 1);
    }
  }

  predicate Ascending(s: seq<int>) {
    forall i, j :: 0 <= i < j < |s| ==> s[i] < s[j]
  }

  /** `s` lists, in order, exactly the powers of `m` from `lo` to `hi`. */
  ghost predicate PowersIn(s: seq<int>, lo: int, hi: int, m: nat) {
    Ascending(s) && forall x :: x in s <==> lo <= x <= hi && IsPower(m, x)
  }

  /** The same for negated powers. */
  ghost predicate NegatedPowersIn(s: seq<int>, lo: int, hi: int, m: nat) {
    Ascending(s) && forall x :: x in s <==> lo <= x <= hi && IsPower(m, -x)
  }

  ghost predicate PowerBelow(m: nat, e: nat, x: int) {
    exists f: nat :: f < e && Pow(m, f) == x
  }

  lemma PowerBelowNext(m: nat, e: nat, x: int)
    ensures PowerBelow(m, e + 1, x) <==> PowerBelow(m, e, x) || x == Pow(m, e)
  {
    if PowerBelow(m, e, x) {
      var f: nat :| f < e && Pow(m, f) == x;
      assert f < e + 1 && Pow(m, f) == x;
    }
    assert e < e + 1;
  }

  /** The powers below exponent `e` that lie between `lo` and `hi`. */
  ghost predicate PowersBelow(s: seq<int>, lo: int, hi: int, m: nat, e: nat) {
    && Ascending(s)
    && (forall k :: 0 <= k < |s| ==> s[k] < Pow(m, e))
    && (forall x :: x in s <==> lo <= x <= hi && PowerBelow(m, e, x))
  }

  lemma PowersBelowNext(s: seq<int>, lo: int, hi: int, m: nat, e: nat)
    requires m >= 2 && PowersBelow(s, lo, hi, m, e)
    ensures PowersBelow(if lo <= Pow(m, e) <= hi then s + [Pow(m, e)] else s, lo, hi, m, e + 1)
  {
    PowGrows(m, e, e + 1);
    var p := Pow(m, e);
    hide PowerBelow, Pow;
    forall x
      ensures PowerBelow(m, e + 1, x) <==> PowerBelow(m, e, x) || x == p
    {
      PowerBelowNext(m, e, x);
    }
    AscendingAppended(s, p);
  }

  lemma AscendingAppended(s: seq<int>, p: int)
    requires Ascending(s) && forall k :: 0 <= k < |s| ==> s[k] < p
    ensures Ascending(s + [p])
    ensures forall x :: x in s + [p] <==> x in s || x == p
  {
  }

  lemma PowersBelowAll(s: seq<int>, lo: int, hi: int, m: nat, e: nat)
    requires m >= 2 && PowersBelow(s, lo, hi, m, e) && Pow(m, e) > hi
    ensures PowersIn(s, lo, hi, m)
  {
    forall x | lo <= x <= hi
      ensures PowerBelow(m, e, x) <==> IsPower(m, x)
    {
      if IsPower(m, x) {
        var f: nat :| Pow(m, f) == x;
        if f > e {
          PowGrows(m, e, f);
        }
        assert f < e;
      }
    }
  }

  /** The powers go behind what was there. */
  method AddPowers(max: int, dst0: seq<int>, lo: int, hi: int, mult: nat) returns (dst: seq<int>, start: nat)
    requires 0 <= lo <= hi <= max && 2 <= mult
    ensures start == |dst0| <= |dst| && dst[..start] == dst0 && PowersIn(dst[start..], lo, hi, mult)
  {
    hide PowersBelow, PowersIn;
    dst, start := dst0, |dst0|;
    ghost var added: seq<int> := [];
    ghost var e: nat := 0;
    var i: int := 1;
    PowersBelowNone(lo, hi, mult);
    while i <= hi
      invariant i == Pow(mult, e) && i >= 1 && dst == dst0 + added
      invariant PowersBelow(added, lo, hi, mult, e)
      decreases hi - i
    {
      PowersBelowNext(added, lo, hi, mult, e);
      PowGrows(mult, e, e + 1);
      e := e + 1;
      if i >= lo {
        dst := dst + [i];
        added := added + [i];
      }
      if i > max / mult {
        NextTooLarge(max, i, mult);
        break;
      }
      NextFits(max, i, mult);
      i := MulT(max, i, mult);
    }
    PowersBelowAll(added, lo, hi, mult, e);
    assert dst[start..] == added;
  }

  lemma PowersBelowNone(lo: int, hi: int, m: nat)
    ensures PowersBelow([], lo, hi, m, 0)
  {
  }

  lemma NextTooLarge(max: int, i: nat, mult: nat)
    requires max >= 0 && mult >= 2 && i > max / mult
    ensures mult * i > max
  {
    assert max == mult * (max / mult) + max % mult;
    assert mult * i >= mult * (max / mult + 1);
  }

  lemma NextFits(max: int, i: nat, mult: nat)
    requires max >= 0 && mult >= 2 && i <= max / mult
    ensures 0 <= i * mult <= max
  {
    assert max == mult * (max / mult) + max % mult;
    assert mult * i <= mult * (max / mult);
  }

  function Reversed(s: seq<int>): (r: seq<int>)
    ensures |r| == |s|
  {
    seq(|s|, k requires 0 <= k < |s| => s[|s| - 1 - k])
  }

  method AddNegatedPowers(max: int, dst0: seq<int>, lo: int, hi: int, mult: nat) returns (dst: seq<int>)
    requires -max <= lo <= hi <= 0 && 2 <= mult
    ensures |dst0| <= |dst| && dst[..|dst0|] == dst0 && NegatedPowersIn(dst[|dst0|..], lo, hi, mult)
  {
    hide NegatedPowersIn;
    var start;
    dst, start := AddPowers(max, dst0, NegT(max, hi), NegT(max, lo), mult);
    ghost var powers := dst[start..];
    for k := start to |dst|
      invariant |dst| == start + |powers| && dst[..start] == dst0
      invariant forall j :: start <= j < k ==> dst[j] == -powers[j - start]
      invariant forall j :: k <= j < |dst| ==> dst[j] == powers[j - start]
    {
      assert powers[k - start] in powers;
      dst := dst[k := MulT(max, dst[k], -1)];
    }
    ghost var added := Reversed(dst[start..]);
    dst := dst[..start] + Reversed(dst[start..]);
    NegatedAndReversed(powers, added, lo, hi, mult);
    assert dst[start..] == added;
  }

  lemma NegatedAndReversed(powers: seq<int>, s: seq<int>, lo: int, hi: int, mult: nat)
    requires PowersIn(powers, -hi, -lo, mult)
    requires |s| == |powers| && forall k :: 0 <= k < |s| ==> s[k] == -powers[|s| - 1 - k]
    ensures NegatedPowersIn(s, lo, hi, mult)
  {
    forall x
      ensures x in s <==> -x in powers
    {
      if x in s {
        var k :| 0 <= k < |s| && s[k] == x;
        assert powers[|s| - 1 - k] == -x;
      }
      if -x in powers {
        var k :| 0 <= k < |powers| && powers[k] == -x;
        assert s[|s| - 1 - k] == x;
      }
    }
  }

  /** What a range should contain. */
  ghost predicate Wanted(x: int, lo: int, hi: int, m: nat) {
    x == lo || x == hi || (lo <= x <= hi && x == 0) || (lo < x < hi && (IsPower(m, x) || IsPower(m, -x)))
  }

  predicate Sorted(s: seq<int>) {
    forall i, j :: 0 <= i < j < |s| ==> s[i] <= s[j]
  }

  /** The three middle parts of a range of at least three values. */
  ghost predicate Parts(negative: seq<int>, zero: seq<int>, positive: seq<int>, lo: int, hi: int, m: nat) {
    && (if lo + 1 < 0 then NegatedPowersIn(negative, lo + 1, if hi - 1 < -1 then hi - 1 else -1, m) else negative == [])
    && zero == (if lo <= 0 <= hi then [0] else [])
    && (if hi - 1 > 0 then PowersIn(positive, if lo + 1 > 1 then lo + 1 else 1, hi - 1, m) else positive == [])
  }

  lemma SortedConcat(a: seq<int>, b: seq<int>)
    requires forall x, y :: x in a && y in b ==> x <= y
    ensures Sorted(a) && Sorted(b) ==> Sorted(a + b)
    ensures Ascending(a) && Ascending(b) && (forall x, y :: x in a && y in b ==> x < y) ==> Ascending(a + b)
  {
    forall i, j | 0 <= i < |a| && 0 <= j < |b|
      ensures a[i] in a && b[j] in b
    {
    }
  }

  lemma PartsBounds(negative: seq<int>, zero: seq<int>, positive: seq<int>, lo: int, hi: int, m: nat)
    requires m >= 2 && lo + 1 < hi && Parts(negative, zero, positive, lo, hi, m)
    ensures Ascending(negative) && Ascending(positive)
    ensures forall x :: x in negative <==> lo < x < hi && IsPower(m, -x)
    ensures forall x :: x in positive <==> lo < x < hi && IsPower(m, x)
    ensures forall x :: x in negative ==> x < 0
    ensures forall x :: x in positive ==> x > 0
  {
    forall x | IsPower(m, x)
      ensures x >= 1
    {
      var e: nat :| Pow(m, e) == x;
      PowPositive(m, e);
    }
  }

  lemma RangeAssembled(negative: seq<int>, zero: seq<int>, positive: seq<int>, lo: int, hi: int, m: nat)
    requires m >= 2 && lo + 1 < hi && Parts(negative, zero, positive, lo, hi, m)
    ensures Fulfils(Assembled(negative, zero, positive, lo, hi), lo, hi, m)
  {
    PartsBounds(negative, zero, positive, lo, hi, m);
    AssembledMembers(negative, zero, positive, lo, hi);
    AssembledOrder(negative, zero, positive, lo, hi);
    hide IsPower, Assembled, Sorted, Ascending;
  }

  lemma AssembledOrder(negative: seq<int>, zero: seq<int>, positive: seq<int>, lo: int, hi: int)
    requires lo + 1 < hi && Ascending(negative) && Ascending(positive) && zero == (if lo <= 0 <= hi then [0] else [])
    requires forall x :: x in negative ==> lo < x < hi && x < 0
    requires forall x :: x in positive ==> lo < x < hi && x > 0
    ensures Sorted(Assembled(negative, zero, positive, lo, hi))
    ensures Ascending(Assembled(negative, zero, positive, lo, hi)) <==> lo != 0
  {
    hide Sorted, Ascending;
    SortedTrivial();
    LowerHalf(negative, zero, lo);
    UpperHalf(positive, lo, hi);
    SortedConcat([lo] + negative + zero, positive + (if hi == 0 then [] else [hi]));
    assert Assembled(negative, zero, positive, lo, hi)
        == [lo] + negative + zero + (positive + (if hi == 0 then [] else [hi]));
    NothingNegative(negative, lo);
    if lo == 0 {
      NotAscending(Assembled(negative, zero, positive, lo, hi));
    }
  }

  lemma LowerHalf(negative: seq<int>, zero: seq<int>, lo: int)
    requires Ascending(negative) && (forall x :: x in zero ==> x == 0 && lo <= 0) && Ascending(zero)
    requires forall x :: x in negative ==> lo < x < 0
    ensures Sorted([lo] + negative + zero)
    ensures lo != 0 ==> Ascending([lo] + negative + zero)
  {
    hide Sorted, Ascending;
    SortedTrivial();
    AscendingIsSorted(negative);
    AscendingIsSorted(zero);
    SortedConcat([lo], negative);
    SortedConcat([lo] + negative, zero);
  }

  lemma UpperHalf(positive: seq<int>, lo: int, hi: int)
    requires Ascending(positive) && forall x :: x in positive ==> lo < x < hi && x > 0
    ensures Sorted(positive + if hi == 0 then [] else [hi])
    ensures Ascending(positive + if hi == 0 then [] else [hi])
  {
    hide Sorted, Ascending;
    SortedTrivial();
    AscendingIsSorted(positive);
    SortedConcat(positive, if hi == 0 then [] else [hi]);
  }

  lemma NothingNegative(s: seq<int>, lo: int)
    requires forall x :: x in s ==> lo < x < 0
    ensures lo >= -1 ==> s == []
  {
    if s != [] {
      var x := s[0];
      assert x in s;
    }
  }

  lemma SortedTrivial()
    ensures Sorted([]) && Ascending([]) && forall x :: Sorted([x]) && Ascending([x])
  {
  }

  lemma AscendingIsSorted(s: seq<int>)
    requires Ascending(s)
    ensures Sorted(s)
  {
  }

  lemma NotAscending(s: seq<int>)
    requires |s| >= 2 && s[0] == s[1]
    ensures !Ascending(s)
  {
  }

  function Assembled(negative: seq<int>, zero: seq<int>, positive: seq<int>, lo: int, hi: int): seq<int> {
    [lo] + negative + zero + positive + (if hi == 0 then [] else [hi])
  }

  lemma AssembledMembers(negative: seq<int>, zero: seq<int>, positive: seq<int>, lo: int, hi: int)
    ensures forall x :: x in Assembled(negative, zero, positive, lo, hi)
                        <==> x == lo || x in negative || x in zero || x in positive || (hi != 0 && x == hi)
  {
  }

  /** `s` is sorted, has the wanted members, and no member twice except that 0 is
      doubled when the range starts there and is not trivial. */
  ghost predicate Fulfils(s: seq<int>, lo: int, hi: int, m: nat) {
    && Sorted(s)
    && (forall x :: x in s <==> Wanted(x, lo, hi, m))
    && (Ascending(s) <==> !(lo == 0 && hi >= 2))
  }

  /** False stands for a failing `CHECK`. */
  method AddRange(max: int, dst0: seq<int>, lo: int, hi: int, mult: int) returns (dst: seq<int>, ok: bool)
    requires max >= 1 && InT(max, lo) && InT(max, hi)
    ensures ok <==> lo <= hi && 2 <= mult
    ensures ok ==> |dst0| <= |dst| && dst[..|dst0|] == dst0 && Fulfils(dst[|dst0|..], lo, hi, mult)
  {
    hide NegatedPowersIn, PowersIn;
    dst := dst0;
    if !(hi >= lo) || !(mult >= 2) {
      return dst, false;
    }
    ok := true;
    dst := dst + [lo];
    if lo == hi {
      assert dst[|dst0|..] == [lo];
      return;
    }
    if AddT(max, lo, 1) == hi {
      dst := dst + [hi];
      assert dst[|dst0|..] == [lo, hi];
      return;
    }
    hide Fulfils;
    var loInner, hiInner := AddT(max, lo, 1), AddT(max, hi, -1);
    ghost var negative, zero, positive := [], [], [];
    if loInner < 0 {
      ghost var before := dst;
      dst := AddNegatedPowers(max, dst, loInner, if hiInner < -1 then hiInner else -1, mult);
      negative := dst[|before|..];
      TakeDrop(before, dst);
    }
    assert dst == dst0 + [lo] + negative;
    if lo <= 0 && hi >= 0 {
      dst, zero := dst + [0], [0];
    }
    assert dst == dst0 + [lo] + negative + zero;
    if hiInner > 0 {
      var start;
      ghost var before := dst;
      dst, start := AddPowers(max, dst, if loInner > 1 then loInner else 1, hiInner, mult);
      positive := dst[start..];
      TakeDrop(before, dst);
    }
    assert dst == dst0 + [lo] + negative + zero + positive;
    ghost var soFar := [lo] + negative + zero + positive;
    PartsJoined(dst0, lo, negative, zero, positive);
    LastBeforeHi(negative, zero, positive, lo, hi, mult);
    assert dst == dst0 + soFar;
    if hi != dst[|dst| - 1] {
      dst := dst + [hi];
    }
    ghost var added := Assembled(negative, zero, positive, lo, hi);
    assert dst == dst0 + added by {
      assert hi == 0 ==> added == soFar;
      SameTail(dst0, soFar, [hi]);
    }
    DropTake(dst0, added);
    RangeAssembled(negative, zero, positive, lo, hi, mult);
  }

  lemma TakeDrop(a: seq<int>, b: seq<int>)
    requires |a| <= |b| && b[..|a|] == a
    ensures b == a + b[|a|..]
  {
  }

  lemma DropTake(a: seq<int>, b: seq<int>)
    ensures (a + b)[..|a|] == a && (a + b)[|a|..] == b
  {
  }

  lemma PartsJoined(dst0: seq<int>, lo: int, negative: seq<int>, zero: seq<int>, positive: seq<int>)
    ensures var s := [lo] + negative + zero + positive;
            && dst0 + [lo] + negative + zero + positive == dst0 + s
            && (dst0 + s)[|dst0 + s| - 1] == s[|s| - 1]
  {
  }

  lemma SameTail(a: seq<int>, b: seq<int>, c: seq<int>)
    ensures a + b + c == a + (b + c)
  {
  }

  /** `hi` is there already exactly when it is 0. */
  lemma LastBeforeHi(negative: seq<int>, zero: seq<int>, positive: seq<int>, lo: int, hi: int, m: nat)
    requires m >= 2 && lo + 1 < hi && Parts(negative, zero, positive, lo, hi, m)
    ensures var s := [lo] + negative + zero + positive; s[|s| - 1] == hi <==> hi == 0
  {
    PartsBounds(negative, zero, positive, lo, hi, m);
    hide IsPower, PowersIn, NegatedPowersIn;
    if positive != [] {
      assert positive[|positive| - 1] in positive;
    } else if zero == [] && negative != [] {
      assert negative[|negative| - 1] in negative;
    }
  }
}
