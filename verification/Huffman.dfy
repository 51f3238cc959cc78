/** `HuffmanTree`: code construction by depth-first search, and the bit-by-bit
    decoding automaton. */
module Huffman {
  import opened Options
  import opened Bits
  import opened HuffmanCodes


  /** The shape of a tree of nodes; a null pointer is `Empty`. */
  datatype Tree = Empty | Leaf(value: byte) | Fork(left: Tree, right: Tree)

  /** The value of the leaf that `path` leads to, if it leads to one. */
  function Lookup(t: Tree, path: seq<bool>): Option<byte> {
    match t
    case Empty => None
    case Leaf(v) => if path == [] then Some(v) else None
    case Fork(l, r) => if path == [] then None else Lookup(if path[0] then r else l, path[1..])
  }

  /** `path` meets no leaf, and nothing hangs below its end. */
  ghost predicate Open(t: Tree, path: seq<bool>) {
    match t
    case Empty => true
    case Leaf(_) => false
    case Fork(l, r) => if path == [] then l == r == Empty else Open(if path[0] then r else l, path[1..])
  }

  /** `t` with a new leaf at the end of `path`. */
  ghost function Put(t: Tree, path: seq<bool>, v: byte): Tree
    requires Open(t, path)
  {
    if path == [] then Leaf(v)
    else
      var l := if t.Fork? then t.left else Empty;
      var r := if t.Fork? then t.right else Empty;
      if path[0] then Fork(l, Put(r, path[1..], v)) else Fork(Put(l, path[1..], v), r)
  }

  /** Adding a leaf changes what one path finds, and no other. */
  lemma {:induction false} LookupPut(t: Tree, path: seq<bool>, v: byte, q: seq<bool>)
    requires Open(t, path)
    ensures Lookup(Put(t, path, v), q) == if q == path then Some(v) else Lookup(t, q)
  {
    if path != [] && q != [] && q[0] == path[0] {
      var child := if t.Fork? then (if path[0] then t.right else t.left) else Empty;
      LookupPut(child, path[1..], v, q[1..]);
      assert q == path <==> q[1..] == path[1..];
    }
  }

  /** Of the 2^h places at depth `h` of `t`, counted from the left, exactly the
      first `c` lie at or below a leaf, and nothing else has been grown. */
  ghost predicate FilledPrefix(t: Tree, h: nat, c: nat) {
    match t
    case Empty => c == 0
    case Leaf(_) => c == Pow2(h)
    case Fork(l, r) =>
      if h == 0 then c == 0 && l == r == Empty
      else
        var half := Pow2(h - 1);
        && FilledPrefix(l, h - 1, if c <= half then c else half)
        && FilledPrefix(r, h - 1, if c <= half then 0 else c - half)
  }

  /** The first free place can take a leaf, and then it counts as filled. */
  lemma {:induction false} PutExtendsPrefix(t: Tree, h: nat, c: nat, v: byte)
    requires FilledPrefix(t, h, c) && c < Pow2(h)
    ensures Open(t, ToBits(c, h)) && FilledPrefix(Put(t, ToBits(c, h), v), h, c + 1)
  {
    if h > 0 {
      var half := Pow2(h - 1);
      var l := if t.Fork? then t.left else Empty;
      var r := if t.Fork? then t.right else Empty;
      if c < half {
        PutExtendsPrefix(l, h - 1, c, v);
      } else {
        PutExtendsPrefix(r, h - 1, c - half, v);
      }
    }
  }

  lemma HalvesDeeper(h: nat, c: nat, more: nat)
    requires h > 0
    ensures Shl(Pow2(h - 1), more) == Pow2(h - 1 + more) && Shl(0, more) == 0
    ensures c <= Pow2(h - 1) <==> Shl(c, more) <= Pow2(h - 1 + more)
    ensures c > Pow2(h - 1) ==> Shl(c - Pow2(h - 1), more) == Shl(c, more) - Pow2(h - 1 + more)
  {
    hide Shl;
    var half := Pow2(h - 1);
    ShlPow2(h - 1, more);
    ShlCompare(c, half, more);
    ShlAdd(0, 0, more);
    if c > half {
      ShlAdd(c - half, half, more);
    }
  }

  /** Looking `more` levels deeper multiplies the filled places. */
  lemma {:induction false} FilledPrefixDeeper(t: Tree, h: nat, c: nat, more: nat)
    requires FilledPrefix(t, h, c)
    ensures FilledPrefix(t, h + more, Shl(c, more))
  {
    hide Shl;
    if t.Fork? && h > 0 {
      HalvesDeeper(h, c, more);
      var half := Pow2(h - 1);
      FilledPrefixDeeper(t.left, h - 1, if c <= half then c else half, more);
      FilledPrefixDeeper(t.right, h - 1, if c <= half then 0 else c - half, more);
    } else {
      ShlPow2(h, more);
      ShlAdd(0, 0, more);
    }
  }

  /** Whether `t` has a leaf. */
  predicate Bears(t: Tree) {
    t.Leaf? || (t.Fork? && (Bears(t.left) || Bears(t.right)))
  }

  /** Every branch of `t` has a leaf. */
  predicate Trimmed(t: Tree) {
    t.Fork? ==>
      && (t.left == Empty || Bears(t.left)) && Trimmed(t.left)
      && (t.right == Empty || Bears(t.right)) && Trimmed(t.right)
  }

  lemma {:induction false} PutTrimmed(t: Tree, path: seq<bool>, v: byte)
    requires Open(t, path) && Trimmed(t)
    ensures Trimmed(Put(t, path, v)) && Bears(Put(t, path, v))
  {
    if path != [] {
      PutTrimmed(if t.Fork? then (if path[0] then t.right else t.left) else Empty, path[1..], v);
    }
  }

  lemma {:induction false} BearsSomewhere(t: Tree) returns (path: seq<bool>)
    requires Bears(t)
    ensures Lookup(t, path) != None
  {
    if t.Leaf? {
      path := [];
    } else {
      var bit := !Bears(t.left);
      var p := BearsSomewhere(if bit then t.right else t.left);
      path := [bit] + p;
    }
  }

  /** A node without children serves as well as a missing one. */
  lemma FreshNode(h: nat, c: nat, v: byte)
    ensures FilledPrefix(Empty, h, c) ==> FilledPrefix(Fork(Empty, Empty), h, c) && c < Pow2(h)
    ensures c < Pow2(h) ==>
      && Open(Empty, ToBits(c, h)) && Open(Fork(Empty, Empty), ToBits(c, h))
      && Put(Fork(Empty, Empty), ToBits(c, h), v) == Put(Empty, ToBits(c, h), v)
  {
  }

  class Node {
    var value: byte
    var left: Node?
    var right: Node?
    var isLeaf: bool
    ghost var Repr: set<Node>

    ghost predicate Valid()
      reads this, Repr
      decreases Repr
    {
      && this in Repr
      && (left != null ==> left in Repr && this !in left.Repr && left.Repr <= Repr && left.Valid())
      && (right != null ==> right in Repr && this !in right.Repr && right.Repr <= Repr && right.Valid())
      && (left != null && right != null ==> left.Repr !! right.Repr)
      && (isLeaf ==> left == null && right == null)
    }

    function Child(bit: bool): Node?
      reads this
    {
      if bit then right else left
    }

    ghost function ChildModel(bit: bool): Tree
      requires Valid()
      reads this, Repr
      decreases Repr, 0
    {
      if Child(bit) == null then Empty else Child(bit).Model()
    }

    ghost function Model(): (t: Tree)
      requires Valid()
      reads this, Repr
      ensures t != Empty
      decreases Repr, 1
    {
      if isLeaf then Leaf(value) else Fork(ChildModel(false), ChildModel(true))
    }

    lemma NoChildren()
      requires Valid() && FilledPrefix(Model(), 0, 0)
      ensures !isLeaf ==> left == null && right == null
    {
      assert !isLeaf ==> ChildModel(false) == Empty && ChildModel(true) == Empty;
    }

    constructor ()
      ensures Valid() && Repr == {this} && Model() == Fork(Empty, Empty) && !isLeaf
    {
      left, right, isLeaf, value := null, null, false, 0;
      Repr := {this};
    }

    /** Creates the child on the `bit` side unless it is there already. */
    method Grow(bit: bool) returns (child: Node)
      requires Valid() && !isLeaf
      modifies this
      ensures Valid() && !isLeaf && fresh(Repr - old(Repr))
      ensures child == Child(bit) && child in Repr && child.Valid() && this !in child.Repr
      ensures fresh(child.Repr - old(Repr))
      ensures child.Model() == if old(ChildModel(bit)) == Empty then Fork(Empty, Empty) else old(ChildModel(bit))
      ensures ChildModel(!bit) == old(ChildModel(!bit)) && Child(!bit) == old(Child(!bit))
    {
      if Child(bit) == null {
        child := new Node();
        if bit { right := child; } else { left := child; }
        Repr := Repr + child.Repr;
      } else {
        child := Child(bit);
      }
    }
  }

  /** `Try` on the child on the `bit` side, which is created if it is missing. */
  method Descend(curr: Node, bit: bool, value: byte, cl: seq<byte>, filled: array<byte>, depth: int, ghost d: nat,
          ghost c: nat)
    returns (ok: bool)
    requires curr.Valid() && !curr.isLeaf && filled.Length == |cl|
    requires -1 <= depth < d < |cl|
    requires (forall i :: 0 <= i < d ==> filled[i] == cl[i]) && filled[d] < cl[d]
    requires FilledPrefix(curr.ChildModel(bit), d - depth - 1, c)
    modifies curr.Repr, filled
    decreases d - depth, 0
    ensures curr.Valid() && !curr.isLeaf && fresh(curr.Repr - old(curr.Repr))
    ensures ok <==> c < Pow2(d - depth - 1)
    ensures ok ==> Open(old(curr.ChildModel(bit)), ToBits(c, d - depth - 1))
    ensures ok ==> curr.ChildModel(bit) == Put(old(curr.ChildModel(bit)), ToBits(c, d - depth - 1), value)
    ensures ok ==> filled[..] == old(filled[..])[d := old(filled[d]) + 1]
    ensures !ok ==> curr.ChildModel(bit) == old(curr.ChildModel(bit)) && filled[..] == old(filled[..])
    ensures curr.ChildModel(!bit) == old(curr.ChildModel(!bit))
  {
    hide FilledPrefix, Open, Put, ToBits, Pow2;
    FreshNode(d - depth - 1, c, value);
    var child := curr.Grow(bit);
    ok := Try(child, value, cl, filled, depth + 1, d, c);
    curr.Repr := curr.Repr + child.Repr;
  }

  /** Places `value` at the first free place of length class `d`, which is the
      shortest one that still misses leaves. */
  method Try(curr: Node, value: byte, cl: seq<byte>, filled: array<byte>, depth: int, ghost d: nat, ghost c: nat)
    returns (ok: bool)
    requires curr.Valid() && filled.Length == |cl|
    requires -1 <= depth <= d < |cl|
    requires (forall i :: 0 <= i < d ==> filled[i] == cl[i]) && filled[d] < cl[d]
    requires FilledPrefix(curr.Model(), d - depth, c)
    modifies curr.Repr, filled
    decreases d - depth, 1
    ensures curr.Valid() && fresh(curr.Repr - old(curr.Repr))
    ensures ok <==> c < Pow2(d - depth)
    ensures ok ==> Open(old(curr.Model()), ToBits(c, d - depth))
    ensures ok ==> curr.Model() == Put(old(curr.Model()), ToBits(c, d - depth), value)
    ensures ok ==> filled[..] == old(filled[..])[d := old(filled[d]) + 1]
    ensures !ok ==> curr.Model() == old(curr.Model()) && filled[..] == old(filled[..])
  {
    ghost var h := d - depth;
    if curr.isLeaf {
      return false;
    }
    if depth >= 0 && cl[depth] != filled[depth] {
      assert depth == d;
      curr.NoChildren();
      curr.value := value;
      filled[depth] := filled[depth] + 1;
      curr.isLeaf := true;
      return true;
    }
    ghost var half := Pow2(h - 1);
    ok := Descend(curr, false, value, cl, filled, depth, d, if c <= half then c else half);
    if ok {
      return true;
    }
    ok := Descend(curr, true, value, cl, filled, depth, d, c - half);
  }

  /** How many leaves each length class has received after `k` values. */
  ghost function Filled(counts: seq<byte>, k: nat): (filled: seq<nat>)
    ensures |filled| == |counts| && forall i :: 0 <= i < |counts| ==> filled[i] == FilledAt(counts, k, i)
  {
    seq(|counts|, i requires 0 <= i < |counts| => FilledAt(counts, k, i))
  }

  ghost function FilledAt(counts: seq<byte>, k: nat, i: nat): nat
    requires i < |counts|
  {
    var before := Before(counts, i);
    if k <= before then 0 else if k - before <= counts[i] then k - before else counts[i]
  }

  /** The k-th value goes to the shortest class that still misses leaves. */
  lemma FilledStep(counts: seq<byte>, k: nat)
    requires k < Total(counts)
    ensures var d := HuffSize(counts)[k] - 1;
            && 0 <= d < |counts|
            && (forall i :: 0 <= i < d ==> Filled(counts, k)[i] == counts[i])
            && Filled(counts, k)[d] < counts[d]
            && Filled(counts, k + 1) == Filled(counts, k)[d := Filled(counts, k)[d] + 1]
  {
    hide HuffSize, HuffSizeUpTo, Before, Filled, Ascending;
    HuffSizeClass(counts, k);
    FilledInClass(counts, k, HuffSize(counts)[k] - 1);
  }

  /** The same, told by the class `d` that `k` falls into. */
  lemma FilledInClass(counts: seq<byte>, k: nat, d: nat)
    requires d < |counts| && Before(counts, d) <= k < Before(counts, d + 1)
    ensures forall i :: 0 <= i < d ==> Filled(counts, k)[i] == counts[i]
    ensures Filled(counts, k)[d] < counts[d]
    ensures Filled(counts, k + 1) == Filled(counts, k)[d := Filled(counts, k)[d] + 1]
  {
    hide Before, FilledAt, Filled;
    FilledHere(counts, k, d);
    forall i: nat | i < |counts| && i != d
      ensures FilledAt(counts, k + 1, i) == FilledAt(counts, k, i) == if i < d then counts[i] else 0
    {
      FilledElsewhere(counts, k, d, i);
    }
    OneUpdated(Filled(counts, k), Filled(counts, k + 1), d);
  }

  lemma OneUpdated(before: seq<nat>, after: seq<nat>, d: nat)
    requires d < |before| == |after| && forall i :: 0 <= i < |before| && i != d ==> after[i] == before[i]
    ensures after == before[d := after[d]]
  {
  }

  lemma FilledHere(counts: seq<byte>, k: nat, d: nat)
    requires d < |counts| && Before(counts, d) <= k < Before(counts, d + 1)
    ensures FilledAt(counts, k, d) < counts[d] && FilledAt(counts, k + 1, d) == FilledAt(counts, k, d) + 1
  {
  }

  lemma FilledElsewhere(counts: seq<byte>, k: nat, d: nat, i: nat)
    requires d < |counts| && i < |counts| && i != d && Before(counts, d) <= k < Before(counts, d + 1)
    ensures FilledAt(counts, k + 1, i) == FilledAt(counts, k, i) == if i < d then counts[i] else 0
  {
    if i < d {
      BeforeMonotone(counts, i + 1, d);
    } else {
      BeforeMonotone(counts, d + 1, i);
    }
  }

  lemma {:induction false} FilledEnd(counts: seq<byte>)
    ensures Filled(counts, Total(counts)) == counts
  {
    forall i | 0 <= i < |counts|
      ensures FilledAt(counts, Total(counts), i) == counts[i]
    {
      BeforeMonotone(counts, i + 1, |counts|);
    }
  }

  /** `t` finds the first `k` values at their canonical codes, and nothing else. */
  ghost predicate Canonical(t: Tree, sizes: seq<nat>, values: seq<byte>, k: nat)
    requires Ascending(sizes) && k <= |sizes| == |values|
  {
    && (forall j :: 0 <= j < k ==> Fits(sizes, j))
    && (forall j :: 0 <= j < k ==> Lookup(t, CodeWord(sizes, j)) == Some(values[j]))
    && (forall p :: Lookup(t, p) != None ==> exists j :: 0 <= j < k && CodeWord(sizes, j) == p)
  }

  /** What holds of the tree after `k` successful placements. */
  ghost predicate Grown(t: Tree, sizes: seq<nat>, values: seq<byte>, k: nat)
    requires Ascending(sizes) && k <= |sizes| == |values|
  {
    && t.Fork? && Trimmed(t)
    && Canonical(t, sizes, values, k)
    && if k == 0 then t == Fork(Empty, Empty) else FilledPrefix(t, sizes[k - 1], HuffCode(sizes, k - 1) + 1)
  }

  lemma {:induction false} OpenFindsNothing(t: Tree, path: seq<bool>)
    requires Open(t, path)
    ensures Lookup(t, path) == None
  {
    if t.Fork? && path != [] {
      OpenFindsNothing(if path[0] then t.right else t.left, path[1..]);
    }
  }

  /** Seen from the length of the next code, the filled places are its number. */
  lemma {:induction false} BuiltReady(t: Tree, sizes: seq<nat>, values: seq<byte>, k: nat)
    requires Ascending(sizes) && k < |sizes| == |values| && Grown(t, sizes, values, k)
    ensures FilledPrefix(t, sizes[k], HuffCode(sizes, k))
  {
    if k > 0 {
      FilledPrefixDeeper(t, sizes[k - 1], HuffCode(sizes, k - 1) + 1, sizes[k] - sizes[k - 1]);
    }
  }

  lemma {:induction false} BuiltNext(t: Tree, sizes: seq<nat>, values: seq<byte>, k: nat)
    requires Ascending(sizes) && k < |sizes| == |values| && Grown(t, sizes, values, k) && Fits(sizes, k)
    ensures Open(t, CodeWord(sizes, k))
    ensures Grown(Put(t, CodeWord(sizes, k), values[k]), sizes, values, k + 1)
  {
    BuiltReady(t, sizes, values, k);
    PutExtendsPrefix(t, sizes[k], HuffCode(sizes, k), values[k]);
    PutTrimmed(t, CodeWord(sizes, k), values[k]);
    hide Trimmed, Bears;
    var word := CodeWord(sizes, k);
    var t' := Put(t, word, values[k]);
    OpenFindsNothing(t, word);
    forall q {
      LookupPut(t, word, values[k], q);
    }
    forall p | Lookup(t', p) != None
      ensures exists j :: 0 <= j < k + 1 && CodeWord(sizes, j) == p
    {
      if p != word {
        var j :| 0 <= j < k && CodeWord(sizes, j) == p;
      }
    }
  }

  datatype BuildResult = Success | TooManyLengths | WrongValueCount | NoFreePlace | MissingLeaves

  /** One round of the loop in `Build`. */
  method PlaceNext(tree: Node, counts: seq<byte>, values: seq<byte>, filled: array<byte>, k: nat) returns (ok: bool)
    requires tree.Valid() && k < |values| == Total(counts) && filled.Length == |counts|
    requires Grown(tree.Model(), HuffSize(counts), values, k) && filled[..] == Filled(counts, k)
    modifies tree.Repr, filled
    ensures tree.Valid() && fresh(tree.Repr - old(tree.Repr))
    ensures ok <==> Fits(HuffSize(counts), k)
    ensures ok ==> Grown(tree.Model(), HuffSize(counts), values, k + 1) && filled[..] == Filled(counts, k + 1)
    ensures !ok ==> tree.Model() == old(tree.Model())
  {
    hide Grown, Canonical, FilledPrefix, Filled, FilledAt, HuffSize, Before, Ascending;
    hide Pow2, ToBits, HuffCode, Put, Open;
    ghost var sizes, before := HuffSize(counts), tree.Model();
    FilledStep(counts, k);
    assert forall i :: 0 <= i < |counts| ==> filled[i] == filled[..][i];
    BuiltReady(before, sizes, values, k);
    ok := Try(tree, values[k], counts, filled, -1, sizes[k] - 1, HuffCode(sizes, k));
    if ok {
      BuiltNext(before, sizes, values, k);
    }
  }

  /** The placing loop of `Build` and the check that follows it. */
  method Fill(tree: Node, counts: seq<byte>, values: seq<byte>) returns (r: BuildResult)
    requires tree.Valid() && tree.Model() == Fork(Empty, Empty) && |values| == Total(counts)
    modifies tree.Repr
    ensures tree.Valid() && fresh(tree.Repr - old(tree.Repr)) && !tree.isLeaf
    ensures r == if KraftSum(counts, |counts|) <= Pow2(|counts|) then Success else NoFreePlace
    ensures r == Success ==> Grown(tree.Model(), HuffSize(counts), values, |values|)
    ensures r == NoFreePlace ==> FilledUntilFull(tree.Model(), counts, values)
  {
    ghost var sizes := HuffSize(counts);
    var filled := new byte[|counts|](_ => 0);
    AllFitIffKraft(counts);
    for k := 0 to |values|
      invariant tree.Valid() && fresh(tree.Repr - old(tree.Repr)) && Grown(tree.Model(), sizes, values, k)
      invariant fresh(filled) && filled.Length == |counts| && filled[..] == Filled(counts, k)
    {
      var ok := PlaceNext(tree, counts, values, filled, k);
      if !ok {
        return NoFreePlace;
      }
    }
    FilledEnd(counts);
    for i := 0 to |counts|
    {
      if filled[i] != counts[i] {
        return MissingLeaves;
      }
    }
    return Success;
  }

  /** All values up to the first that found no place are in the tree. */
  ghost predicate FilledUntilFull(t: Tree, counts: seq<byte>, values: seq<byte>)
    requires |values| == Total(counts)
  {
    exists k :: 0 <= k < |values| && !Fits(HuffSize(counts), k) && Grown(t, HuffSize(counts), values, k)
  }

  /** What one bit does to the automaton; `None` is the null pointer. */
  datatype MoveResult = Throws | Inner | Found(value: byte)

  function Step(root: Tree, cursor: Option<Tree>, bit: bool): (MoveResult, Option<Tree>) {
    match cursor
    case None => (Throws, None)
    case Some(t) =>
      var next := if !t.Fork? then Empty else if bit then t.right else t.left;
      if next.Empty? then (Throws, None)
      else if next.Leaf? then (Found(next.value), Some(root))
      else (Inner, Some(next))
  }

  /** The results of a run of `Move` calls, and where the automaton ends up. */
  function Feed(root: Tree, cursor: Option<Tree>, bits: seq<bool>): (seq<MoveResult>, Option<Tree>)
    decreases |bits|
  {
    if bits == [] then ([], cursor)
    else
      var (r, next) := Step(root, cursor, bits[0]);
      var (rs, last) := Feed(root, next, bits[1..]);
      ([r] + rs, last)
  }

  lemma {:induction false} FeedConcat(root: Tree, cursor: Option<Tree>, a: seq<bool>, b: seq<bool>)
    ensures var (rs, mid) := Feed(root, cursor, a);
            var (qs, last) := Feed(root, mid, b);
            Feed(root, cursor, a + b) == (rs + qs, last)
    decreases |a|
  {
    if a == [] {
      assert a + b == b;
      assert [] + Feed(root, cursor, b).0 == Feed(root, cursor, b).0;
    } else {
      var (r, next) := Step(root, cursor, a[0]);
      FeedConcat(root, next, a[1..], b);
      assert (a + b)[1..] == a[1..] + b;
      var (rs, mid) := Feed(root, next, a[1..]);
      var (qs, last) := Feed(root, mid, b);
      assert [r] + (rs + qs) == ([r] + rs) + qs;
    }
  }

  /** Along one code word only the last bit reports, and it reports the value. */
  function Report(length: nat, v: byte): seq<MoveResult>
    requires length > 0
  {
    seq(length - 1, _ => Inner) + [Found(v)]
  }

  lemma {:induction false} FeedCodeWord(root: Tree, t: Tree, path: seq<bool>, v: byte)
    requires t.Fork? && Lookup(t, path) == Some(v)
    ensures |path| > 0 && Feed(root, Some(t), path) == (Report(|path|, v), Some(root))
  {
    var next := if path[0] then t.right else t.left;
    if next.Leaf? {
      assert path[1..] == [];
      assert Step(root, Some(t), path[0]) == (Found(v), Some(root));
      assert [Found(v)] + [] == Report(|path|, v);
    } else {
      FeedCodeWord(root, next, path[1..], v);
      assert [Inner] + Report(|path| - 1, v) == Report(|path|, v);
      assert Step(root, Some(t), path[0]) == (Inner, Some(next));
    }
  }

  /** The code words of the symbols with indices `ks`, one after the other. */
  function Codewords(sizes: seq<nat>, ks: seq<nat>): seq<bool>
    requires Ascending(sizes) && forall i :: 0 <= i < |ks| ==> ks[i] < |sizes| && Fits(sizes, ks[i])
  {
    if ks == [] then [] else CodeWord(sizes, ks[0]) + Codewords(sizes, ks[1..])
  }

  function Reports(sizes: seq<nat>, values: seq<byte>, ks: seq<nat>): seq<MoveResult>
    requires Ascending(sizes) && |sizes| == |values| && forall i :: 0 <= i < |ks| ==> ks[i] < |sizes|
  {
    if ks == [] then [] else Report(sizes[ks[0]], values[ks[0]]) + Reports(sizes, values, ks[1..])
  }

  /** Fed the code words of any symbols, a built tree reports each symbol at the
      last bit of its word and is back at the root at the end. */
  lemma {:induction false} FeedSymbols(root: Tree, sizes: seq<nat>, values: seq<byte>, ks: seq<nat>)
    requires Ascending(sizes) && |sizes| == |values| && Grown(root, sizes, values, |values|)
    requires forall i :: 0 <= i < |ks| ==> ks[i] < |sizes|
    ensures Feed(root, Some(root), Codewords(sizes, ks)) == (Reports(sizes, values, ks), Some(root))
  {
    if ks != [] {
      FeedCodeWord(root, root, CodeWord(sizes, ks[0]), values[ks[0]]);
      FeedConcat(root, Some(root), CodeWord(sizes, ks[0]), Codewords(sizes, ks[1..]));
      FeedSymbols(root, sizes, values, ks[1..]);
    }
  }

  /** Once the automaton has run off the tree, it throws on every later bit. */
  lemma {:induction false} FeedStuck(root: Tree, bits: seq<bool>)
    ensures var (rs, last) := Feed(root, None, bits);
            last == None && |rs| == |bits| && forall i :: 0 <= i < |rs| ==> rs[i] == Throws
  {
    if bits != [] {
      FeedStuck(root, bits[1..]);
    }
  }

  /** `inside` bits that stay in the tree, and `lost` ones that do not. */
  function Lost(inside: nat, lost: nat): seq<MoveResult> {
    seq(inside, _ => Inner) + seq(lost, _ => Throws)
  }

  /** Bits that lead into the tree, and one more that leads to no leaf any more. */
  lemma {:induction false} FeedOffTree(root: Tree, t: Tree, path: seq<bool>, more: seq<bool>, bit: bool,
          rest: seq<bool>)
    requires t.Fork? && Trimmed(t) && (path == [] || (path < more && Lookup(t, more) != None))
    requires forall p :: path + [bit] <= p ==> Lookup(t, p) == None
    ensures Feed(root, Some(t), path + ([bit] + rest)) == (Lost(|path|, 1 + |rest|), None)
    decreases |path|
  {
    var bits := path + ([bit] + rest);
    var next := if bits[0] then t.right else t.left;
    if path == [] {
      if Bears(next) {
        var p := BearsSomewhere(next);
        assert ([bit] + p)[1..] == p && path + [bit] <= [bit] + p;
        assert Lookup(t, [bit] + p) != None;
      }
      assert bits[0] == bit && bits[1..] == rest && next == Empty;
      FeedStuck(root, rest);
      assert [Throws] + Feed(root, None, rest).0 == Lost(0, 1 + |rest|);
    } else {
      assert next.Fork? && Lookup(next, more[1..]) != None;
      forall p | path[1..] + [bit] <= p
        ensures Lookup(next, p) == None
      {
        assert ([path[0]] + p)[1..] == p && path + [bit] <= [path[0]] + p;
        assert Lookup(t, [path[0]] + p) == None;
      }
      assert bits[1..] == path[1..] + ([bit] + rest);
      FeedOffTree(root, next, path[1..], more[1..], bit, rest);
      assert [Inner] + Lost(|path| - 1, 1 + |rest|) == Lost(|path|, 1 + |rest|);
    }
  }

  /** After any symbols, bits that begin a code word and a bit with which they begin none:
      from that bit on, every bit throws. With `FeedSymbols` this says what the automaton
      does on every input. */
  lemma FeedOffCode(root: Tree, sizes: seq<nat>, values: seq<byte>, ks: seq<nat>, path: seq<bool>, bit: bool,
          rest: seq<bool>)
    requires Ascending(sizes) && |sizes| == |values| && Grown(root, sizes, values, |values|)
    requires forall i :: 0 <= i < |ks| ==> ks[i] < |sizes|
    requires path == [] || exists k :: 0 <= k < |sizes| && path < CodeWord(sizes, k)
    requires forall k :: 0 <= k < |sizes| ==> !(path + [bit] <= CodeWord(sizes, k))
    ensures Feed(root, Some(root), Codewords(sizes, ks) + (path + ([bit] + rest)))
         == (Reports(sizes, values, ks) + Lost(|path|, 1 + |rest|), None)
  {
    FeedSymbols(root, sizes, values, ks);
    FeedConcat(root, Some(root), Codewords(sizes, ks), path + ([bit] + rest));
    var more := path;
    if path != [] {
      var k :| 0 <= k < |sizes| && path < CodeWord(sizes, k);
      more := CodeWord(sizes, k);
    }
    FeedOffTree(root, root, path, more, bit, rest);
  }

  class HuffmanTree {
    var tree: Node?
    var movePtr: Node?

    ghost function Nodes(): set<Node>
      reads this, tree
    {
      if tree == null then {} else tree.Repr
    }

    ghost predicate Valid()
      reads this, tree, Nodes()
    {
      && (tree != null ==> tree.Valid() && !tree.isLeaf)
      && (movePtr != null ==>
          tree != null && movePtr in tree.Repr && movePtr.Repr <= tree.Repr && movePtr.Valid() && !movePtr.isLeaf)
    }

    /** The tree of codes; `Empty` before the first `Build`. */
    ghost function Root(): Tree
      requires Valid()
      reads this, tree, Nodes()
    {
      if tree == null then Empty else tree.Model()
    }

    /** Where the automaton stands; `None` if it has run off the tree. */
    ghost function Cursor(): Option<Tree>
      requires Valid()
      reads this, tree, Nodes()
    {
      if movePtr == null then None else Some(movePtr.Model())
    }

    constructor ()
      ensures Valid() && Root() == Empty && Cursor() == None
    {
      tree, movePtr := null, null;
    }

    method Build(counts: seq<byte>, values: seq<byte>) returns (r: BuildResult)
      modifies this
      ensures r == Success || r == TooManyLengths || r == WrongValueCount || r == NoFreePlace
      ensures r == TooManyLengths <==> |counts| > 16
      ensures r == WrongValueCount <==> |counts| <= 16 && Total(counts) != |values|
      ensures r == NoFreePlace
          <==> |counts| <= 16 && Total(counts) == |values| && KraftSum(counts, |counts|) > Pow2(|counts|)
      ensures r == TooManyLengths || r == WrongValueCount ==> tree == old(tree) && movePtr == old(movePtr)
      ensures r == Success || r == NoFreePlace ==> Valid() && fresh(Nodes()) && Cursor() == Some(Root())
      ensures r == Success ==> Grown(Root(), HuffSize(counts), values, |values|)
      ensures r == NoFreePlace ==> FilledUntilFull(Root(), counts, values)
    {
      if |counts| > 16 {
        return TooManyLengths;
      }
      var sum: int := 0;
      for i := 0 to |counts|
        invariant sum == Before(counts, i)
      {
        sum := sum + counts[i];
      }
      if sum != |values| {
        return WrongValueCount;
      }
      tree := new Node();
      movePtr := tree;
      r := Fill(tree, counts, values);
    }

    method Move(bit: bool) returns (r: MoveResult)
      requires Valid()
      modifies this`movePtr
      ensures Valid() && Root() == old(Root())
      ensures (r, Cursor()) == Step(Root(), old(Cursor()), bit)
    {
      if movePtr == null {
        return Throws;
      }
      assert movePtr.Model() == Fork(movePtr.ChildModel(false), movePtr.ChildModel(true));
      movePtr := if bit then movePtr.right else movePtr.left;
      if movePtr == null {
        return Throws;
      }
      if movePtr.isLeaf {
        assert movePtr.Model() == Leaf(movePtr.value);
        r := Found(movePtr.value);
        movePtr := tree;
        return;
      }
      return Inner;
    }
  }
}
