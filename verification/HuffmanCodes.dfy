/** The code tables of ITU-T T.81, section C.2, built arithmetically: the
    reference that the tree-building search of `HuffmanTree` is measured
    against. `counts[i]` is the number of codes of length `i + 1`. */
module HuffmanCodes {
  import opened Bits

  /** How many codes are no longer than `i`. */
  function Before(counts: seq<byte>, i: nat): nat
    requires i <= |counts|
  {
    if i == 0 then 0 else Before(counts, i - 1) + counts[i - 1]
  }

  function Total(counts: seq<byte>): nat { Before(counts, |counts|) }

  lemma {:induction false} BeforeMonotone(counts: seq<byte>, i: nat, j: nat)
    requires i <= j <= |counts|
    ensures Before(counts, i) <= Before(counts, j)
  {
    if i < j {
      BeforeMonotone(counts, i, j - 1);
    }
  }

  ghost predicate Ascending(sizes: seq<nat>) {
    forall a, b :: 0 <= a <= b < |sizes| ==> 1 <= sizes[a] <= sizes[b]
  }

  /** HUFFSIZE: `counts[0]` ones, then `counts[1]` twos, and so on. */
  function HuffSize(counts: seq<byte>): (sizes: seq<nat>)
    ensures |sizes| == Total(counts) && Ascending(sizes)
    ensures forall k :: 0 <= k < |sizes| ==> sizes[k] <= |counts|
  {
    HuffSizeUpTo(counts, |counts|)
  }

  function HuffSizeUpTo(counts: seq<byte>, i: nat): (sizes: seq<nat>)
    requires i <= |counts|
    ensures |sizes| == Before(counts, i) && Ascending(sizes)
    ensures forall k :: 0 <= k < |sizes| ==> sizes[k] <= i
  {
    if i == 0 then [] else HuffSizeUpTo(counts, i - 1) + seq(counts[i - 1], _ => i)
  }

  /** HUFFSIZE(k) is the length class that k falls into. */
  lemma {:induction false} HuffSizeClass(counts: seq<byte>, k: nat)
    requires k < Total(counts)
    ensures var L := HuffSize(counts)[k];
            1 <= L <= |counts| && Before(counts, L - 1) <= k < Before(counts, L)
  {
    HuffSizeClassUpTo(counts, |counts|, k);
  }

  lemma {:induction false} HuffSizeClassUpTo(counts: seq<byte>, i: nat, k: nat)
    requires i <= |counts| && k < Before(counts, i)
    ensures var L := HuffSizeUpTo(counts, i)[k];
            1 <= L <= i && Before(counts, L - 1) <= k < Before(counts, L)
  {
    if k < Before(counts, i - 1) {
      HuffSizeClassUpTo(counts, i - 1, k);
    }
  }

  /** HUFFCODE: add one for the next code, and shift left when the length grows. */
  function HuffCode(sizes: seq<nat>, k: nat): nat
    requires Ascending(sizes) && k < |sizes|
  {
    if k == 0 then 0
    else Shl(HuffCode(sizes, k - 1) + 1, sizes[k] - sizes[k - 1])
  }

  /** The code tables are usable when every code fits its own length. */
  ghost predicate Fits(sizes: seq<nat>, k: nat)
    requires Ascending(sizes) && k < |sizes|
  {
    HuffCode(sizes, k) < Pow2(sizes[k])
  }

  /** The k-th code as a bit string. */
  function CodeWord(sizes: seq<nat>, k: nat): (bits: seq<bool>)
    requires Ascending(sizes) && k < |sizes| && Fits(sizes, k)
    ensures |bits| == sizes[k]
  {
    ToBits(HuffCode(sizes, k), sizes[k])
  }

  /** How many of the 2^n words of length n the first `k` codes take up. */
  function KraftTaken(sizes: seq<nat>, n: nat, k: nat): nat
    requires k <= |sizes| && forall j :: 0 <= j < |sizes| ==> sizes[j] <= n
  {
    if k == 0 then 0 else KraftTaken(sizes, n, k - 1) + Pow2(n - sizes[k - 1])
  }

  /** The same, counted per code length: the Kraft sum scaled by 2^|counts|. */
  function KraftSum(counts: seq<byte>, i: nat): nat
    requires i <= |counts|
  {
    if i == 0 then 0 else KraftSum(counts, i - 1) + Shl(counts[i - 1], |counts| - i)
  }

  /** Each canonical code is exactly the space used up by the codes before it. */
  lemma {:induction false} HuffCodeIsKraftTaken(sizes: seq<nat>, n: nat, k: nat)
    requires Ascending(sizes) && k < |sizes|
    requires forall j :: 0 <= j < |sizes| ==> sizes[j] <= n
    ensures Shl(HuffCode(sizes, k), n - sizes[k]) == KraftTaken(sizes, n, k)
  {
    if k > 0 {
      var before, rest := HuffCode(sizes, k - 1), n - sizes[k - 1];
      ShlShl(before + 1, sizes[k] - sizes[k - 1], n - sizes[k]);
      ShlAdd(before, 1, rest);
      ShlPow2(0, rest);
      HuffCodeIsKraftTaken(sizes, n, k - 1);
    } else {
      ShlPow2(0, n);
      ShlAdd(0, 0, n - sizes[0]);
    }
  }

  /** A code fits its length exactly when the codes up to it obey Kraft's inequality. */
  lemma {:induction false} FitsIffKraft(sizes: seq<nat>, n: nat, k: nat)
    requires Ascending(sizes) && k < |sizes|
    requires forall j :: 0 <= j < |sizes| ==> sizes[j] <= n
    ensures Fits(sizes, k) <==> KraftTaken(sizes, n, k + 1) <= Pow2(n)
  {
    var code, rest := HuffCode(sizes, k), n - sizes[k];
    HuffCodeIsKraftTaken(sizes, n, k);
    ShlAdd(code, 1, rest);
    ShlPow2(0, rest);
    ShlPow2(sizes[k], rest);
    ShlCompare(code + 1, Pow2(sizes[k]), rest);
  }

  lemma {:induction false} KraftTakenMonotone(sizes: seq<nat>, n: nat, k: nat, m: nat)
    requires k <= m <= |sizes| && forall j :: 0 <= j < |sizes| ==> sizes[j] <= n
    ensures KraftTaken(sizes, n, k) <= KraftTaken(sizes, n, m)
  {
    if k < m {
      KraftTakenMonotone(sizes, n, k, m - 1);
    }
  }

  /** Both ways of adding up the Kraft sum agree. */
  lemma {:induction false} KraftTakenIsKraftSum(counts: seq<byte>, i: nat)
    requires i <= |counts|
    ensures KraftTaken(HuffSizeUpTo(counts, i), |counts|, Before(counts, i)) == KraftSum(counts, i)
  {
    hide Shl, Pow2, Ascending;
    if i > 0 {
      KraftTakenIsKraftSum(counts, i - 1);
      var shorter, sizes := HuffSizeUpTo(counts, i - 1), HuffSizeUpTo(counts, i);
      KraftTakenPrefix(shorter, sizes, |counts|, |shorter|);
      KraftTakenRun(sizes, |counts|, |shorter|, counts[i - 1], i);
    }
  }

  lemma {:induction false} KraftTakenPrefix(shorter: seq<nat>, sizes: seq<nat>, n: nat, k: nat)
    requires shorter <= sizes && k <= |shorter|
    requires forall j :: 0 <= j < |sizes| ==> sizes[j] <= n
    requires forall j :: 0 <= j < |shorter| ==> shorter[j] <= n
    ensures KraftTaken(shorter, n, k) == KraftTaken(sizes, n, k)
  {
    if k > 0 {
      KraftTakenPrefix(shorter, sizes, n, k - 1);
      assert shorter[k - 1] == sizes[k - 1];
    }
  }

  lemma {:induction false} KraftTakenRun(sizes: seq<nat>, n: nat, k: nat, run: nat, size: nat)
    requires k + run <= |sizes| && size <= n
    requires forall j :: 0 <= j < |sizes| ==> sizes[j] <= n
    requires forall j :: k <= j < k + run ==> sizes[j] == size
    ensures KraftTaken(sizes, n, k + run) == KraftTaken(sizes, n, k) + Shl(run, n - size)
  {
    if run > 0 {
      KraftTakenRun(sizes, n, k, run - 1, size);
      ShlAdd(run - 1, 1, n - size);
      ShlPow2(0, n - size);
    } else {
      ShlAdd(0, 0, n - size);
    }
  }

  /** Every code fits its length if and only if the table obeys Kraft's inequality. */
  lemma {:induction false} AllFitIffKraft(counts: seq<byte>)
    ensures (forall k :: 0 <= k < Total(counts) ==> Fits(HuffSize(counts), k))
            <==> KraftSum(counts, |counts|) <= Pow2(|counts|)
  {
    var sizes, n, total := HuffSize(counts), |counts|, Total(counts);
    KraftTakenIsKraftSum(counts, n);
    forall k | 0 <= k < total
      ensures KraftTaken(sizes, n, total) <= Pow2(n) ==> Fits(sizes, k)
    {
      FitsIffKraft(sizes, n, k);
      KraftTakenMonotone(sizes, n, k + 1, total);
    }
    if total > 0 {
      FitsIffKraft(sizes, n, total - 1);
    }
  }
}
