/** A whole baseline scan over bit strings: components interleaved as in
    section A.2.3 of ITU-T T.81, DC prediction per component as in section F.1.1.5.1. */
module ScanSpec {
  import opened Options
  import opened Bits
  import opened HuffmanCodes
  import opened Huffman
  import opened EntropyCoding
  import opened BitReading

  /** What a decoder knows of one component: blocks per MCU, trees, quantisers. */
  datatype Component = Component(area: nat, dc: Tree, ac: Tree, q: seq<nat>)

  type Block = s: seq<int> | |s| == 64 witness seq(64, _ => 0)

  ghost predicate Usable(comps: seq<Component>) {
    && comps != []
    && forall c :: 0 <= c < |comps| ==> comps[c].area > 0 && |comps[c].q| == 64
  }

  /** The components of the blocks of one MCU, in order, by index from 0. */
  ghost function McuOrder(comps: seq<Component>, from: nat): seq<nat>
    requires from <= |comps|
    decreases |comps| - from
  {
    if from == |comps| then [] else seq(comps[from].area, _ => from) + McuOrder(comps, from + 1)
  }

  lemma {:induction false} McuOrderInRange(comps: seq<Component>, from: nat)
    requires from <= |comps|
    ensures forall i :: 0 <= i < |McuOrder(comps, from)| ==> McuOrder(comps, from)[i] < |comps|
    decreases |comps| - from
  {
    if from < |comps| {
      McuOrderInRange(comps, from + 1);
    }
  }

  /** The component that the j-th block of the scan belongs to. */
  ghost function ComponentOf(comps: seq<Component>, j: nat): (c: nat)
    requires Usable(comps)
    ensures c < |comps|
  {
    var order := McuOrder(comps, 0);
    assert order[0] == 0;
    McuOrderInRange(comps, 0);
    order[j % |order|]
  }

  function Quantised(first: int): Block {
    [first] + seq(63, _ => 0)
  }

  /** Blocks `j` to `n` of a scan; `preds[c]` is the DC value of the last block of `c`. */
  ghost function DecodeScan(comps: seq<Component>, j: nat, n: nat, preds: seq<int>,
          bits: seq<bool>): Decoded<seq<Block>>
    requires Usable(comps) && |preds| == |comps| && j <= n
    decreases n - j
  {
    if j == n then Ok([], bits)
    else
      var c := ComponentOf(comps, j);
      match DecodeBlock(comps[c], preds[c], bits)
      case Fail => Fail
      case Ok((dc, block), rest) =>
        match DecodeScan(comps, j + 1, n, preds[c := dc], rest)
        case Fail => Fail
        case Ok(blocks, end) => Ok([block] + blocks, end)
  }

  /** One block, and its DC value before dequantisation. */
  ghost function DecodeBlock(comp: Component, pred: int, bits: seq<bool>): Decoded<(int, Block)>
    requires |comp.q| == 64
  {
    match DecodeDc(comp.dc, bits)
    case Fail => Fail
    case Ok(diff, afterDc) =>
      var dc := pred + diff;
      match DecodeAc(comp.ac, comp.q, 1, Quantised(dc * comp.q[0]), afterDc)
      case Fail => Fail
      case Ok(block, rest) => Ok((dc, block), rest)
  }

  // ---------------------------------------------------------------- encoding

  datatype Tables = Tables(dc: CodeTable, ac: CodeTable)

  ghost predicate TreesOf(comps: seq<Component>, tables: seq<Tables>) {
    && |comps| == |tables|
    && forall c :: 0 <= c < |comps| ==> TreeOf(comps[c].dc, tables[c].dc) && TreeOf(comps[c].ac, tables[c].ac)
  }

  ghost function EncodeBlock(tables: Tables, pred: int, block: Block): Option<seq<bool>>
    requires tables.dc.Valid() && tables.ac.Valid()
  {
    Join(EncodeDc(tables.dc, block[0] - pred), EncodeAc(tables.ac, block, 1, 0))
  }

  /** The bits of blocks `j` on; `None` if a value is out of range or has no code. */
  ghost function EncodeScan(comps: seq<Component>, tables: seq<Tables>, j: nat, preds: seq<int>,
          blocks: seq<Block>): Option<seq<bool>>
    requires Usable(comps) && TreesOf(comps, tables) && |preds| == |comps|
    decreases |blocks|
  {
    if blocks == [] then Some([])
    else
      var c := ComponentOf(comps, j);
      Join(EncodeBlock(tables[c], preds[c], blocks[0]),
           EncodeScan(comps, tables, j + 1, preds[c := blocks[0][0]], blocks[1..]))
  }

  /** The predictions after `blocks`, the first of which is the j-th of the scan. */
  ghost function PredsAfter(comps: seq<Component>, j: nat, preds: seq<int>, blocks: seq<Block>): (after: seq<int>)
    requires Usable(comps) && |preds| == |comps|
    ensures |after| == |comps|
    decreases |blocks|
  {
    if blocks == [] then preds
    else PredsAfter(comps, j + 1, preds[ComponentOf(comps, j) := blocks[0][0]], blocks[1..])
  }

  /** What block `n` of a scan is predicted from. */
  ghost function Prediction(comps: seq<Component>, blocks: seq<Block>, n: nat): int
    requires Usable(comps) && n <= |blocks|
  {
    PredsAfter(comps, 0, Zeros(|comps|), blocks[..n])[ComponentOf(comps, n)]
  }

  /** One more block of an encoded scan adds the code of that block, predicted from the DC
      value of the last block before it of the same component, or from zero if it has none. */
  lemma {:induction false} CodedBlock(comps: seq<Component>, tables: seq<Tables>, blocks: seq<Block>, n: nat)
    requires Usable(comps) && TreesOf(comps, tables) && n < |blocks|
    ensures EncodeScan(comps, tables, 0, Zeros(|comps|), blocks[..n + 1])
         == Join(EncodeScan(comps, tables, 0, Zeros(|comps|), blocks[..n]),
                 EncodeBlock(tables[ComponentOf(comps, n)], Prediction(comps, blocks, n), blocks[n]))
    ensures var c := ComponentOf(comps, n);
            && ((forall i :: 0 <= i < n ==> ComponentOf(comps, i) != c) ==> Prediction(comps, blocks, n) == 0)
            && (forall i :: 0 <= i < n && LastOf(comps, c, i, n) ==> Prediction(comps, blocks, n) == blocks[i][0])
  {
    hide ComponentOf, EncodeBlock;
    assert blocks[..n + 1] == blocks[..n] + [blocks[n]];
    CodedOneMore(comps, tables, 0, Zeros(|comps|), blocks[..n], blocks[n]);
    LastPrediction(comps, blocks, n, ComponentOf(comps, n));
  }

  lemma {:induction false} CodedOneMore(comps: seq<Component>, tables: seq<Tables>, j: nat, preds: seq<int>,
          blocks: seq<Block>, block: Block)
    requires Usable(comps) && TreesOf(comps, tables) && |preds| == |comps|
    ensures var c := ComponentOf(comps, j + |blocks|);
            EncodeScan(comps, tables, j, preds, blocks + [block])
            == Join(EncodeScan(comps, tables, j, preds, blocks),
                    EncodeBlock(tables[c], PredsAfter(comps, j, preds, blocks)[c], block))
    decreases |blocks|
  {
    hide ComponentOf, EncodeBlock, Join;
    var c := ComponentOf(comps, j);
    if blocks == [] {
      assert blocks + [block] == [block] && [block][1..] == [];
      JoinNothing(EncodeBlock(tables[c], preds[c], block));
      NothingJoin(EncodeBlock(tables[c], preds[c], block));
    } else {
      assert (blocks + [block])[1..] == blocks[1..] + [block];
      var preds', d := preds[c := blocks[0][0]], ComponentOf(comps, j + |blocks|);
      CodedOneMore(comps, tables, j + 1, preds', blocks[1..], block);
      JoinJoin(EncodeBlock(tables[c], preds[c], blocks[0]), EncodeScan(comps, tables, j + 1, preds', blocks[1..]),
               EncodeBlock(tables[d], PredsAfter(comps, j + 1, preds', blocks[1..])[d], block));
    }
  }

  lemma NothingJoin(a: Option<seq<bool>>)
    ensures Join(a, Some([])) == a
  {
    if a.Some? {
      assert a.value + [] == a.value;
    }
  }

  lemma {:induction false} PredsSnoc(comps: seq<Component>, j: nat, preds: seq<int>, blocks: seq<Block>, block: Block)
    requires Usable(comps) && |preds| == |comps|
    ensures PredsAfter(comps, j, preds, blocks + [block])
         == PredsAfter(comps, j, preds, blocks)[ComponentOf(comps, j + |blocks|) := block[0]]
    decreases |blocks|
  {
    hide ComponentOf;
    if blocks == [] {
      assert blocks + [block] == [block] && [block][1..] == [];
    } else {
      assert (blocks + [block])[1..] == blocks[1..] + [block];
      PredsSnoc(comps, j + 1, preds[ComponentOf(comps, j) := blocks[0][0]], blocks[1..], block);
    }
  }

  /** Block `i` is the last one of component `c` before block `n`. */
  ghost predicate LastOf(comps: seq<Component>, c: nat, i: nat, n: nat)
    requires Usable(comps)
  {
    i < n && ComponentOf(comps, i) == c && forall k :: i < k < n ==> ComponentOf(comps, k) != c
  }

  lemma {:induction false} LastPrediction(comps: seq<Component>, blocks: seq<Block>, n: nat, c: nat)
    requires Usable(comps) && n <= |blocks| && c < |comps|
    ensures var pred := PredsAfter(comps, 0, Zeros(|comps|), blocks[..n])[c];
            && ((forall i :: 0 <= i < n ==> ComponentOf(comps, i) != c) ==> pred == 0)
            && (forall i :: 0 <= i < n && LastOf(comps, c, i, n) ==> pred == blocks[i][0])
  {
    hide ComponentOf;
    if n > 0 {
      LastPrediction(comps, blocks, n - 1, c);
      assert blocks[..n] == blocks[..n - 1] + [blocks[n - 1]];
      PredsSnoc(comps, 0, Zeros(|comps|), blocks[..n - 1], blocks[n - 1]);
      forall i: nat | i < n && LastOf(comps, c, i, n)
        ensures if ComponentOf(comps, n - 1) == c then i == n - 1 else i < n - 1 && LastOf(comps, c, i, n - 1)
      {
      }
    }
  }

  /** `out` is `block` with every coefficient multiplied by its quantiser. */
  ghost predicate Dequantises(out: Block, block: Block, q: seq<nat>)
    requires |q| == 64
  {
    forall i :: 0 <= i < 64 ==> out[i] == block[i] * q[i]
  }

  lemma DecodeBlockInverts(comp: Component, tables: Tables, pred: int, block: Block, rest: seq<bool>)
    requires |comp.q| == 64 && TreeOf(comp.dc, tables.dc) && TreeOf(comp.ac, tables.ac)
    requires EncodeBlock(tables, pred, block) != None
    ensures var d := DecodeBlock(comp, pred, EncodeBlock(tables, pred, block).value + rest);
            d.Ok? && d.rest == rest && d.value.0 == block[0] && Dequantises(d.value.1, block, comp.q)
  {
    hide DecodeDc, DecodeAc, EncodeDc, EncodeAc;
    var dc, ac := EncodeDc(tables.dc, block[0] - pred).value, EncodeAc(tables.ac, block, 1, 0).value;
    assert dc + ac + rest == dc + (ac + rest);
    DecodeDcInverts(comp.dc, tables.dc, block[0] - pred, ac + rest);
    var first := block[0] * comp.q[0];
    assert DecodedUpTo(first, Quantised(first), block, comp.q, 1);
    DecodeAcInverts(first, comp.ac, tables.ac, comp.q, block, 1, 0, Quantised(first), rest);
  }

  /** Every block of `outs` dequantises the block of `blocks` at its place in
      the scan, where the first of them is the j-th of the scan. */
  ghost predicate AllDequantise(comps: seq<Component>, j: nat, outs: seq<Block>, blocks: seq<Block>)
    requires Usable(comps)
  {
    && |outs| == |blocks|
    && forall k :: 0 <= k < |blocks| ==> Dequantises(outs[k], blocks[k], comps[ComponentOf(comps, j + k)].q)
  }

  lemma AllDequantiseCons(comps: seq<Component>, j: nat, out: Block, outs: seq<Block>, blocks: seq<Block>)
    requires Usable(comps) && blocks != [] && Dequantises(out, blocks[0], comps[ComponentOf(comps, j)].q)
    requires AllDequantise(comps, j + 1, outs, blocks[1..])
    ensures AllDequantise(comps, j, [out] + outs, blocks)
  {
    hide ComponentOf, Dequantises;
    forall k | 1 <= k < |blocks|
      ensures Dequantises(outs[k - 1], blocks[k], comps[ComponentOf(comps, j + k)].q)
    {
      assert blocks[1..][k - 1] == blocks[k] && j + 1 + (k - 1) == j + k;
    }
  }

  /** Decoding an encoded scan gives back every coefficient times its quantiser. */
  lemma {:induction false} DecodeScanInverts(comps: seq<Component>, tables: seq<Tables>, j: nat, preds: seq<int>,
          blocks: seq<Block>, rest: seq<bool>)
    requires Usable(comps) && TreesOf(comps, tables) && |preds| == |comps|
    requires EncodeScan(comps, tables, j, preds, blocks) != None
    ensures var bits := EncodeScan(comps, tables, j, preds, blocks).value;
            var d := DecodeScan(comps, j, j + |blocks|, preds, bits + rest);
            d.Ok? && d.rest == rest && AllDequantise(comps, j, d.value, blocks)
    decreases |blocks|
  {
    hide EncodeBlock, DecodeBlock, ComponentOf, Dequantises, AllDequantise;
    if blocks == [] {
      assert [] + rest == rest;
      assert AllDequantise(comps, j, [], []) by { AllDequantiseNone(comps, j); }
    } else {
      var c := ComponentOf(comps, j);
      var preds' := preds[c := blocks[0][0]];
      var head, more := EncodeBlock(tables[c], preds[c], blocks[0]).value,
          EncodeScan(comps, tables, j + 1, preds', blocks[1..]).value;
      assert head + more + rest == head + (more + rest);
      DecodeBlockInverts(comps[c], tables[c], preds[c], blocks[0], more + rest);
      DecodeScanInverts(comps, tables, j + 1, preds', blocks[1..], rest);
      AllDequantiseCons(comps, j, DecodeBlock(comps[c], preds[c], head + (more + rest)).value.1,
                        DecodeScan(comps, j + 1, j + |blocks|, preds', more + rest).value, blocks);
    }
  }

  lemma AllDequantiseNone(comps: seq<Component>, j: nat)
    requires Usable(comps)
    ensures AllDequantise(comps, j, [], [])
  {
  }

  // ----------------------------------------------- what can be encoded

  /** The table has a code for every DC category up to `size`. */
  ghost predicate DcComplete(table: CodeTable, size: nat) {
    table.Valid() && forall c: nat :: c <= size ==> Code(table, c) != None
  }

  /** The table has a code for the end of a block, for sixteen zeros, and for every run
      with every AC category up to `size`. */
  ghost predicate AcComplete(table: CodeTable, size: nat) {
    && table.Valid() && Code(table, 0x00) != None && Code(table, 0xF0) != None
    && forall run: nat, c: nat :: run <= 15 && 1 <= c <= size ==> RunCode(table, run, c) != None
  }

  ghost function RunCode(table: CodeTable, run: nat, size: nat): Option<seq<bool>>
    requires table.Valid()
  {
    Code(table, 16 * run + size)
  }

  /** Differences of DC coefficients have at most `dc` bits, AC coefficients at most `ac`. */
  ghost predicate InCodingRange(block: Block, dc: nat, ac: nat) {
    && InDcRange(block[0], dc)
    && forall i :: 1 <= i < 64 ==> Abs(block[i]) < Pow2(ac)
  }

  predicate InDcRange(value: int, dc: nat) {
    0 <= Pow2(dc) + 2 * value && 2 * value < Pow2(dc)
  }

  lemma CategoryBound(d: int, size: nat)
    requires Abs(d) < Pow2(size)
    ensures Category(d) <= size
  {
    if Category(d) > size {
      Pow2Monotone(size, Category(d) - 1);
    }
  }

  lemma {:induction false} AcCanBeEncoded(table: CodeTable, block: Block, k: nat, run: nat, ac: nat)
    requires AcComplete(table, ac) && ac <= 15 && 1 <= k <= 64
    requires forall i :: 1 <= i < 64 ==> Abs(block[i]) < Pow2(ac)
    ensures EncodeAc(table, block, k, run) != None
    decreases 64 - k, run
  {
    hide Pow2;
    if k == 64 {
    } else if block[k] == 0 {
      if k < 63 {
        AcCanBeEncoded(table, block, k + 1, run + 1, ac);
      }
    } else if run > 15 {
      AcCanBeEncoded(table, block, k, run - 16, ac);
    } else {
      CategoryBound(block[k], ac);
      assert RunCode(table, run, Category(block[k])) != None;
      AcCanBeEncoded(table, block, k + 1, 0, ac);
    }
  }

  lemma DcCanBeEncoded(table: CodeTable, last: int, value: int, dc: nat)
    requires DcComplete(table, dc) && dc <= 16 && InDcRange(last, dc) && InDcRange(value, dc)
    ensures EncodeDc(table, value - last) != None
  {
    hide Pow2, Code;
    CategoryBound(value - last, dc);
  }

  /** Every sequence of blocks in range can be encoded with tables that cover the range,
      so that the theorems on decoding what was encoded are about all of them. For
      8-bit baseline pictures `dc` is 11 and `ac` is 10, the ranges of the usual tables
      with 12 DC and 162 AC codes; the decoder takes up to 16 and 15. */
  lemma {:induction false} InRangeCanBeEncoded(comps: seq<Component>, tables: seq<Tables>, j: nat, preds: seq<int>,
          blocks: seq<Block>, dc: nat, ac: nat)
    requires Usable(comps) && TreesOf(comps, tables) && |preds| == |comps| && dc <= 16 && ac <= 15
    requires forall c :: 0 <= c < |tables| ==> DcComplete(tables[c].dc, dc) && AcComplete(tables[c].ac, ac)
    requires forall c :: 0 <= c < |preds| ==> InDcRange(preds[c], dc)
    requires forall k :: 0 <= k < |blocks| ==> InCodingRange(blocks[k], dc, ac)
    ensures EncodeScan(comps, tables, j, preds, blocks) != None
    decreases |blocks|
  {
    hide ComponentOf, DcComplete, AcComplete, EncodeAc, EncodeDc, InDcRange, Pow2;
    if blocks != [] {
      var c := ComponentOf(comps, j);
      AcCanBeEncoded(tables[c].ac, blocks[0], 1, 0, ac);
      DcCanBeEncoded(tables[c].dc, preds[c], blocks[0][0], dc);
      InRangeCanBeEncoded(comps, tables, j + 1, preds[c := blocks[0][0]], blocks[1..], dc, ac);
    }
  }

  // ------------------------------------------------- bytes in the file

  /** Section F.1.2.3: fill up the last byte with 1-bits. */
  function Pack(bits: seq<bool>): seq<byte>
    decreases |bits|
  {
    if bits == [] then []
    else if |bits| < 8 then [PackByte(bits + seq(8 - |bits|, _ => true))]
    else [PackByte(bits[..8])] + Pack(bits[8..])
  }

  function PackByte(bits: seq<bool>): (b: byte)
    requires |bits| == 8
    ensures ByteBits(b) == bits
  {
    ToBitsValue(bits);
    assert Pow2(8) == 256 by { assert Pow2(4) == 16; }
    Value(bits)
  }

  lemma {:induction false} PackKeepsBits(bits: seq<bool>)
    ensures bits <= BitsOf(Pack(bits))
    decreases |bits|
  {
    hide ByteBits, PackByte;
    if |bits| >= 8 {
      PackKeepsBits(bits[8..]);
      assert bits == bits[..8] + bits[8..];
    } else if bits != [] {
      assert Pack(bits)[1..] == [];
    }
  }

  lemma {:induction false} BitsOfConcat(a: seq<byte>, b: seq<byte>)
    ensures BitsOf(a + b) == BitsOf(a) + BitsOf(b)
  {
    hide ByteBits;
    if a == [] {
      assert a + b == b;
      assert [] + BitsOf(b) == BitsOf(b);
    } else {
      BitsOfConcat(a[1..], b);
      assert (a + b)[0] == a[0] && (a + b)[1..] == a[1..] + b;
      assert ByteBits(a[0]) + (BitsOf(a[1..]) + BitsOf(b)) == ByteBits(a[0]) + BitsOf(a[1..]) + BitsOf(b);
    }
  }

  /** Packing takes as many bytes as the bits need. */
  lemma {:induction false} PackLength(bits: seq<bool>)
    ensures bits != [] ==> Pack(bits) != [] && 8 * (|Pack(bits)| - 1) < |bits| <= 8 * |Pack(bits)|
    decreases |bits|
  {
    hide PackByte;
    if |bits| >= 8 {
      PackLength(bits[8..]);
    }
  }

  /** Every block takes at least one bit. */
  lemma {:induction false} DecodeScanShortens(comps: seq<Component>, j: nat, n: nat, preds: seq<int>, bits: seq<bool>)
    requires Usable(comps) && |preds| == |comps| && j <= n
    ensures var d := DecodeScan(comps, j, n, preds, bits);
            d.Ok? ==> |d.rest| <= |bits| && (j < n ==> |d.rest| < |bits|)
    decreases n - j
  {
    hide ComponentOf, DecodeBlock;
    if j < n {
      var c := ComponentOf(comps, j);
      BlockShortens(comps[c], preds[c], bits);
      var d := DecodeBlock(comps[c], preds[c], bits);
      if d.Ok? {
        DecodeScanShortens(comps, j + 1, n, preds[c := d.value.0], d.rest);
      }
    }
  }

  lemma BlockShortens(comp: Component, pred: int, bits: seq<bool>)
    requires |comp.q| == 64
    ensures DecodeBlock(comp, pred, bits).Ok? ==> |DecodeBlock(comp, pred, bits).rest| < |bits|
  {
    hide DecodeDc, DecodeAc;
  }

  /** The whole way: blocks encoded, packed and stuffed, read back by a reader
      whose previous byte was `last`. Whatever follows the data in the file, the
      decoder recovers the dequantised blocks. */
  lemma ScanInvertsEncoding(comps: seq<Component>, tables: seq<Tables>, blocks: seq<Block>, last: byte, tail: seq<byte>)
    requires Usable(comps) && TreesOf(comps, tables)
    requires EncodeScan(comps, tables, 0, Zeros(|comps|), blocks) != None
    requires !DropsFirst(last, Pack(EncodeScan(comps, tables, 0, Zeros(|comps|), blocks).value))
    ensures var file := Stuff(Pack(EncodeScan(comps, tables, 0, Zeros(|comps|), blocks).value)) + tail;
            var d := DecodeScan(comps, 0, |blocks|, Zeros(|comps|), BitsOf(Unstuff(last, file)));
            d.Ok? && AllDequantise(comps, 0, d.value, blocks)
    ensures var bits := EncodeScan(comps, tables, 0, Zeros(|comps|), blocks).value;
            var file := BitsOf(Unstuff(last, Stuff(Pack(bits)) + tail));
            && |bits| <= |file|
            && DecodeScan(comps, 0, |blocks|, Zeros(|comps|), file).rest == file[|bits|..]
  {
    hide EncodeScan, DecodeScan, Pack, Stuff, Unstuff, BitsOf, AllDequantise;
    var bits := EncodeScan(comps, tables, 0, Zeros(|comps|), blocks).value;
    var data := Pack(bits);
    var after := Unstuff(LastByte(last, data), Unread(data, tail));
    UnstuffStuff(last, data, tail);
    BitsOfConcat(data, after);
    PackKeepsBits(bits);
    var rest := BitsOf(data)[|bits|..] + BitsOf(after);
    assert BitsOf(data) + BitsOf(after) == bits + rest;
    DecodeScanInverts(comps, tables, 0, Zeros(|comps|), blocks, rest);
  }

  function Zeros(n: nat): (zs: seq<int>)
    ensures |zs| == n && forall i :: 0 <= i < n ==> zs[i] == 0
  {
    seq(n, _ => 0)
  }

  // ------------------------------------------------------ the end of a scan

  predicate IsEnd(rest: seq<byte>) {
    |rest| >= 2 && rest[0] == 0xFF && rest[1] == 0xD9
  }

  /** After a scan the end marker is next in the stream exactly if the last data byte is
      not 0xFF: the zero stuffed after that one has not been read. */
  lemma EndIsNextIff(data: seq<byte>, tail: seq<byte>)
    requires data != [] && IsEnd(tail)
    ensures IsEnd(Unread(data, tail)) <==> data[|data| - 1] != 0xFF
  {
  }

  // A scan whose last byte is 0xFF: one block of zeros, with two codes of one bit.

  const TWO_CODES: CodeTable := CodeTable([1, 1], [5, 0])
  const TWO_LEAVES: Tree := Fork(Leaf(5), Leaf(0))

  lemma TwoCodes()
    ensures Ascending([1, 1]) && HuffCode([1, 1], 0) == 0 && HuffCode([1, 1], 1) == 1
    ensures Fits([1, 1], 0) && Fits([1, 1], 1)
    ensures CodeWord([1, 1], 0) == [false] && CodeWord([1, 1], 1) == [true]
  {
    assert ToBits(0, 1) == [false] && ToBits(1, 1) == [true];
  }

  lemma TwoLeaves()
    ensures TreeOf(TWO_LEAVES, TWO_CODES)
  {
    TwoCodes();
    var sizes: seq<nat>, values: seq<byte> := [1, 1], [5, 0];
    NothingGrown(sizes, values);
    BuiltNext(Fork(Empty, Empty), sizes, values, 0);
    BuiltNext(Fork(Leaf(5), Empty), sizes, values, 1);
    TwoPuts();
    hide Grown, Canonical, FilledPrefix, Fits, HuffCode;
  }

  lemma NothingGrown(sizes: seq<nat>, values: seq<byte>)
    requires Ascending(sizes) && |sizes| == |values|
    ensures Grown(Fork(Empty, Empty), sizes, values, 0)
  {
    forall p
      ensures Lookup(Fork(Empty, Empty), p) == None
    {
    }
  }

  lemma TwoPuts()
    ensures Put(Fork(Empty, Empty), [false], 5) == Fork(Leaf(5), Empty)
    ensures Put(Fork(Leaf(5), Empty), [true], 0) == TWO_LEAVES
  {
  }

  lemma CodeOfZero()
    requires TWO_CODES.Valid()
    ensures Code(TWO_CODES, 0) == Some([true])
  {
    TwoCodes();
    assert TWO_CODES.values[1] == 0;
  }

  /** Zeros up to the end of a block take one code. */
  lemma {:induction false} ZerosTakeOneCode(table: CodeTable, block: Block, k: nat, run: nat)
    requires table.Valid() && 1 <= k < 64 && forall i :: k <= i < 64 ==> block[i] == 0
    ensures EncodeAc(table, block, k, run) == Code(table, 0x00)
    decreases 64 - k
  {
    if k < 63 {
      ZerosTakeOneCode(table, block, k + 1, run + 1);
    }
  }

  const ONE_BLOCK: seq<Block> := [seq(64, _ => 0)]
  const ONE_COMPONENT: seq<Component> := [Component(1, TWO_LEAVES, TWO_LEAVES, seq(64, _ => 1))]
  const ONE_TABLES: seq<Tables> := [Tables(TWO_CODES, TWO_CODES)]

  /** It does happen. */
  lemma LastByteCanBeFF()
    ensures Usable(ONE_COMPONENT) && TreesOf(ONE_COMPONENT, ONE_TABLES)
    ensures EncodeScan(ONE_COMPONENT, ONE_TABLES, 0, Zeros(1), ONE_BLOCK) == Some([true, true])
    ensures Pack([true, true]) == [0xFF]
  {
    TwoLeaves();
    CodeOfZero();
    ZerosTakeOneCode(TWO_CODES, ONE_BLOCK[0], 1, 0);
    OneComponent();
    AllOnes();
    hide TreeOf, Code, EncodeAc, EncodeDc, Pack, Grown;
    ZeroDifference(TWO_CODES);
    assert ONE_BLOCK[0][0] - 0 == 0 && [true] + [true] == [true, true];
    assert EncodeBlock(ONE_TABLES[0], 0, ONE_BLOCK[0]) == Some([true, true]);
    assert [true, true] + [] == [true, true];
  }

  lemma OneComponent()
    ensures Usable(ONE_COMPONENT) && ComponentOf(ONE_COMPONENT, 0) == 0
  {
    assert McuOrder(ONE_COMPONENT, 1) == [];
    assert McuOrder(ONE_COMPONENT, 0) == [0];
  }

  lemma ZeroDifference(table: CodeTable)
    requires table.Valid() && Code(table, 0).Some?
    ensures EncodeDc(table, 0) == Code(table, 0)
  {
    assert Category(0) == 0;
    assert Magnitude(0) == [];
    assert Code(table, 0).value + [] == Code(table, 0).value;
    hide Code;
  }

  lemma {:induction false} OnesValue(n: nat)
    ensures Value(seq(n, _ => true)) == Pow2(n) - 1
  {
    if n > 0 {
      OnesValue(n - 1);
      var ones := seq(n, _ => true);
      ValueFront(ones);
      assert ones[..n - 1] == seq(n - 1, _ => true);
    }
  }

  lemma AllOnes()
    ensures Pack([true, true]) == [0xFF]
  {
    OnesValue(8);
    var ones := seq(8, _ => true);
    assert [true, true] + seq(6, _ => true) == ones;
    assert Pow2(8) == 256 by { assert Pow2(4) == 16; }
    hide Value;
  }
}
