/** `JpegReader::Scan`: the decoding loops over the bit reader and the Huffman
    automata, proved to compute `ScanSpec.DecodeScan`. */
module Scanning {
  import opened Options
  import opened Bits
  import opened Huffman
  import opened EntropyCoding
  import opened BitReading
  import opened ScanSpec
  import opened FrameStats
  import opened Layouts

  /** `t` holds the codes of `root` and its automaton stands at the root. */
  ghost predicate TableOf(t: HuffmanTree, root: Tree)
    reads t, t.tree, t.Nodes()
  {
    t.Valid() && root.Fork? && t.Root() == root && t.Cursor() == Some(root)
  }

  /** Feeds bits to the automaton until it reports a symbol. */
  method NextSymbol(table: HuffmanTree, reader: BitReader, ghost root: Tree) returns (symbol: byte, ok: bool)
    requires TableOf(table, root) && reader.Valid()
    modifies table`movePtr, reader
    ensures reader.Valid() && reader.mark == old(reader.mark) && (ok ==> reader.eof == old(reader.eof))
    ensures match DecodeSymbol(root, old(reader.Pending()))
            case Fail => !ok
            case Ok(v, rest) => ok && symbol == v && reader.Pending() == rest && TableOf(table, root)
  {
    hide PendingBits;
    symbol, ok := 0, false;
    ghost var cur := root;
    while !ok
      invariant reader.mark == old(reader.mark) && reader.eof == old(reader.eof)
        invariant reader.Valid() && table.Valid() && table.Root() == root
      invariant !ok ==> cur.Fork? && table.Cursor() == Some(cur)
      invariant !ok ==> DecodeSymbol(root, old(reader.Pending())) == DecodeSymbol(cur, reader.Pending())
      invariant ok ==> table.Cursor() == Some(root)
      invariant ok ==> DecodeSymbol(root, old(reader.Pending())) == Ok(symbol, reader.Pending())
      decreases !ok, |reader.Pending()|
    {
      var bit, got := reader.GetBit();
      if !got {
        return;
      }
      var r := table.Move(bit);
      match r
      case Throws => return;
      case Inner => cur := if bit then cur.right else cur.left;
      case Found(v) => symbol, ok := v, true;
    }
  }

  /** `size` bits as a signed difference. */
  method ReceiveExtend(reader: BitReader, size: nat) returns (diff: int, ok: bool)
    requires reader.Valid()
    modifies reader
    ensures reader.Valid() && reader.mark == old(reader.mark) && (ok ==> reader.eof == old(reader.eof))
    ensures match Receive(size, old(reader.Pending()))
            case Fail => !ok
            case Ok(d, rest) => ok && diff == d && reader.Pending() == rest
  {
    hide PendingBits;
    var r := reader.GetBits(size);
    match r
    case WrongCount => return 0, false;
    case NoMoreBits => return 0, false;
    case Got(value, firstBit) =>
      diff, ok := value, true;
      if !firstBit {
        diff := diff - Pow2(size) + 1;
      }
  }

  class JpegReader {
    const reader: BitReader
    const qtables: seq<Option<seq<nat>>>
    const channels: seq<Option<Channel>>
    const dc: seq<HuffmanTree?>
    const ac: seq<HuffmanTree?>
    const mcuBlockCnt: nat
    const imgBlockCnt: nat

    constructor (reader: BitReader, qtables: seq<Option<seq<nat>>>, channels: seq<Option<Channel>>,
                 dc: seq<HuffmanTree?>, ac: seq<HuffmanTree?>, mcuBlockCnt: nat, imgBlockCnt: nat)
      ensures this.reader == reader && this.qtables == qtables && this.channels == channels
      ensures this.dc == dc && this.ac == ac && this.mcuBlockCnt == mcuBlockCnt && this.imgBlockCnt == imgBlockCnt
    {
      this.reader, this.qtables, this.channels := reader, qtables, channels;
      this.dc, this.ac, this.mcuBlockCnt, this.imgBlockCnt := dc, ac, mcuBlockCnt, imgBlockCnt;
    }

    ghost function Tables(): set<HuffmanTree> {
      (set i | 0 <= i < |dc| && dc[i] != null :: dc[i] as HuffmanTree)
          + (set i | 0 <= i < |ac| && ac[i] != null :: ac[i] as HuffmanTree)
    }

    /** The header, once read and checked, describes `comps`: component ids are
        1, 2, ... and every table a component refers to is there. */
    ghost predicate Describes(comps: seq<Component>) {
      && Usable(comps) && |comps| <= 3 && |channels| == 256
      && (forall c :: 0 <= c < |comps| ==> DescribesOne(c, comps[c]))
      && mcuBlockCnt == |McuOrder(comps, 0)|
    }

    ghost predicate DescribesOne(c: nat, comp: Component) {
      && c + 1 < |channels| && channels[c + 1].Some?
      && var ch := channels[c + 1].value;
      && ch.h * ch.v == comp.area
      && ch.qtableId < |qtables| && qtables[ch.qtableId] == Some(comp.q)
      && ch.dcId < |dc| && dc[ch.dcId] != null
      && ch.acId < |ac| && ac[ch.acId] != null
    }

    /** The tables of component `c` hold its trees, and stand ready at the roots. */
    ghost predicate TablesOf(c: nat, comp: Component)
      reads Frame(c, comp)
    {
      DescribesOne(c, comp) && TableOf(Dc(c, comp), comp.dc) && TableOf(Ac(c, comp), comp.ac)
    }

    ghost function Frame(c: nat, comp: Component): set<object?>
      reads if DescribesOne(c, comp) then {Dc(c, comp), Dc(c, comp).tree, Ac(c, comp), Ac(c, comp).tree} else {}
    {
      if !DescribesOne(c, comp) then {}
      else {Dc(c, comp), Dc(c, comp).tree, Ac(c, comp), Ac(c, comp).tree} + Dc(c, comp).Nodes() + Ac(c, comp).Nodes()
    }

    ghost function Dc(c: nat, comp: Component): (t: HuffmanTree)
      requires DescribesOne(c, comp)
      ensures t in Tables()
    {
      dc[channels[c + 1].value.dcId]
    }

    ghost function Ac(c: nat, comp: Component): (t: HuffmanTree)
      requires DescribesOne(c, comp)
      ensures t in Tables()
    {
      ac[channels[c + 1].value.acId]
    }

    /** The number of the component that a block belongs to, from 1. */
    method ChannelNum(index0: nat, ghost comps: seq<Component>) returns (ret: nat)
      requires Describes(comps) && forall k :: 0 <= k < |comps| ==> TablesOf(k, comps[k])
      ensures ret == ComponentOf(comps, index0) + 1
      ensures forall k :: 0 <= k < |comps| ==> TablesOf(k, comps[k])
    {
      assert McuOrder(comps, 0)[0] == 0;
      var index: int := index0 % mcuBlockCnt;
      ghost var place := index;
      ret := 1;
      while ret < |channels|
        invariant 1 <= ret <= |comps| && 0 <= index < |McuOrder(comps, ret - 1)|
        invariant McuOrder(comps, ret - 1)[index] == McuOrder(comps, 0)[place]
      {
        assert DescribesOne(ret - 1, comps[ret - 1]);
        index := index - channels[ret].value.h * channels[ret].value.v;
        if index < 0 {
          return;
        }
        ret := ret + 1;
      }
    }

    /** The next symbol of component `c`, from its DC or from its AC table. */
    method NextOf(c: nat, useDc: bool, ghost comps: seq<Component>) returns (symbol: byte, ok: bool)
      requires Describes(comps) && c < |comps| && reader.Valid()
      requires forall k :: 0 <= k < |comps| ==> TablesOf(k, comps[k])
      modifies reader, Tables()`movePtr
      ensures reader.Valid() && reader.mark == old(reader.mark) && (ok ==> reader.eof == old(reader.eof))
      ensures match DecodeSymbol(if useDc then comps[c].dc else comps[c].ac, old(reader.Pending()))
              case Fail => !ok
              case Ok(v, rest) => ok && symbol == v && reader.Pending() == rest
      ensures ok ==> forall k :: 0 <= k < |comps| ==> TablesOf(k, comps[k])
    {
      hide PendingBits, TableOf, DecodeSymbol;
      assert DescribesOne(c, comps[c]) && TablesOf(c, comps[c]);
      var table := if useDc then dc[channels[c + 1].value.dcId] else ac[channels[c + 1].value.acId];
      ghost var root := if useDc then comps[c].dc else comps[c].ac;
      forall k | 0 <= k < |comps|
        ensures Dc(k, comps[k]) == table ==> comps[k].dc == root
        ensures Ac(k, comps[k]) == table ==> comps[k].ac == root
      {
        assert TablesOf(k, comps[k]);
        SameRoot(table, root, comps[k].dc);
        SameRoot(table, root, comps[k].ac);
      }
      symbol, ok := NextSymbol(table, reader, root);
      if ok {
        forall k | 0 <= k < |comps|
          ensures TablesOf(k, comps[k])
        {
          assert old(TablesOf(k, comps[k]));
          var t, u := Dc(k, comps[k]), Ac(k, comps[k]);
          assert unchanged(t.Nodes()) && unchanged(u.Nodes());
        }
      }
    }

    /** `ReceiveExtend`, which leaves the tables alone. */
    method ReceiveBits(size: nat, ghost comps: seq<Component>) returns (diff: int, ok: bool)
      requires reader.Valid() && forall k :: 0 <= k < |comps| ==> TablesOf(k, comps[k])
      modifies reader
      ensures reader.Valid() && reader.mark == old(reader.mark) && (ok ==> reader.eof == old(reader.eof))
      ensures forall k :: 0 <= k < |comps| ==> TablesOf(k, comps[k])
      ensures match Receive(size, old(reader.Pending()))
              case Fail => !ok
              case Ok(d, rest) => ok && diff == d && reader.Pending() == rest
    {
      hide PendingBits, TableOf, Receive;
      diff, ok := ReceiveExtend(reader, size);
      forall k | 0 <= k < |comps|
        ensures TablesOf(k, comps[k])
      {
        assert old(TablesOf(k, comps[k]));
        var t, u := Dc(k, comps[k]), Ac(k, comps[k]);
        assert unchanged(t) && unchanged(u) && unchanged(t.Nodes()) && unchanged(u.Nodes());
      }
    }

    /** The AC loop of one block. */
    method ScanAc(c: nat, block0: Block, ghost comps: seq<Component>) returns (block: Block, ok: bool)
      requires Describes(comps) && c < |comps| && reader.Valid()
      requires forall k :: 0 <= k < |comps| ==> TablesOf(k, comps[k])
      modifies reader, Tables()`movePtr
      ensures reader.Valid() && reader.mark == old(reader.mark) && (ok ==> reader.eof == old(reader.eof))
      ensures match DecodeAc(comps[c].ac, comps[c].q, 1, block0, old(reader.Pending()))
              case Fail => !ok
              case Ok(b, rest) => ok && block == b && reader.Pending() == rest
      ensures ok ==> forall k :: 0 <= k < |comps| ==> TablesOf(k, comps[k])
    {
      hide PendingBits, TablesOf;
      assert DescribesOne(c, comps[c]);
      var q := qtables[channels[c + 1].value.qtableId].value;
      ghost var goal, tree := DecodeAc(comps[c].ac, comps[c].q, 1, block0, reader.Pending()), comps[c].ac;
      block := block0;
      var i := 1;
      while i < 64
        invariant reader.Valid() && reader.mark == old(reader.mark) && reader.eof == old(reader.eof)
        invariant forall k :: 0 <= k < |comps| ==> TablesOf(k, comps[k])
        invariant goal == DecodeAc(tree, q, i, block, reader.Pending())
      {
        var value, got := NextOf(c, false, comps);
        if !got {
          return block, false;
        }
        if value == 0 {
          return block, true;
        }
        var run, size := value / 16, value % 16;
        i := i + run;
        var diff, received := ReceiveBits(size, comps);
        if !received || i > 64 {
          return block, false;
        }
        if i == 64 {
          return block, true;
        }
        block := block[i := diff * q[i]];
        i := i + 1;
      }
      ok := true;
    }

    /** One block: its DC coefficient, predicted from `last`, and then the rest. */
    method ScanBlock(c: nat, last: int, ghost comps: seq<Component>) returns (pred: int, block: Block, ok: bool)
      requires Describes(comps) && c < |comps| && reader.Valid()
      requires forall k :: 0 <= k < |comps| ==> TablesOf(k, comps[k])
      modifies reader, Tables()`movePtr
      ensures reader.Valid() && reader.mark == old(reader.mark) && (ok ==> reader.eof == old(reader.eof))
      ensures match DecodeBlock(comps[c], last, old(reader.Pending()))
              case Fail => !ok
              case Ok((dc, b), rest) => ok && pred == dc && block == b && reader.Pending() == rest
      ensures ok ==> forall k :: 0 <= k < |comps| ==> TablesOf(k, comps[k])
    {
      hide PendingBits, TablesOf, DecodeAc, DecodeSymbol;
      assert DescribesOne(c, comps[c]);
      var q := qtables[channels[c + 1].value.qtableId].value;
      pred, block := last, Quantised(0);
      var value, got := NextOf(c, true, comps);
      if !got {
        return pred, block, false;
      }
      if value != 0 {
        var diff, received := ReceiveBits(value, comps);
        if !received {
          return pred, block, false;
        }
        pred := last + diff;
      }
      block := block[0 := pred * q[0]];
      assert block == Quantised(pred * q[0]);
      block, ok := ScanAc(c, block, comps);
    }

    method Scan(ghost comps: seq<Component>) returns (output: seq<Block>, ok: bool)
      requires Describes(comps) && reader.Valid()
      requires forall k :: 0 <= k < |comps| ==> TablesOf(k, comps[k])
      modifies reader, Tables()`movePtr
      ensures reader.Valid() && reader.mark == old(reader.mark) && (ok ==> reader.eof == old(reader.eof))
      ensures match DecodeScan(comps, 0, imgBlockCnt, Zeros(|comps|), old(reader.Pending()))
              case Fail => !ok
              case Ok(blocks, rest) => ok && output == blocks && reader.Pending() == rest
    {
      hide PendingBits, DecodeBlock, ComponentOf, TablesOf, Reaches, DescribesOne;
      var lastDcs := Zeros(4);
      ghost var preds := Zeros(|comps|);
      output := [];
      PrependNothing(DecodeScan(comps, 0, imgBlockCnt, preds, reader.Pending()));
      for j := 0 to imgBlockCnt
        invariant reader.mark == old(reader.mark) && reader.eof == old(reader.eof)
        invariant reader.Valid() && |output| == j && |preds| == |comps| && |lastDcs| == 4
        invariant forall k :: 0 <= k < |comps| ==> TablesOf(k, comps[k])
        invariant forall k :: 0 <= k < |comps| ==> lastDcs[k + 1] == preds[k]
        invariant DecodeScan(comps, 0, imgBlockCnt, Zeros(|comps|), old(reader.Pending()))
               == Prepend(output, DecodeScan(comps, j, imgBlockCnt, preds, reader.Pending()))
      {
        var channel := ChannelNum(j, comps);
        ghost var c := channel - 1;
        var pred, block, got := ScanBlock(channel - 1, lastDcs[channel], comps);
        if !got {
          return output, false;
        }
        PrependOne(output, block, DecodeScan(comps, j + 1, imgBlockCnt, preds[c := pred], reader.Pending()));
        lastDcs := lastDcs[channel := pred];
        preds := preds[c := pred];
        output := output + [block];
      }
      ok := true;
    }

    /** `Scan` on what an encoder wrote: from a byte boundary, with the buffered byte not
        followed by a dropped one, it returns every block dequantised, whatever follows
        the data in the stream. */
    method ScanEncoded(ghost comps: seq<Component>, ghost tables: seq<Tables>, ghost blocks: seq<Block>,
            ghost tail: seq<byte>)
      returns (output: seq<Block>, ok: bool)
      requires Describes(comps) && reader.Valid() && TreesOf(comps, tables)
      requires forall k :: 0 <= k < |comps| ==> TablesOf(k, comps[k])
      requires |blocks| == imgBlockCnt && EncodeScan(comps, tables, 0, Zeros(|comps|), blocks) != None
      requires var data := Pack(EncodeScan(comps, tables, 0, Zeros(|comps|), blocks).value);
               && reader.bufferPtr == 0 && reader.stream[reader.pos..] == Stuff(data) + tail
               && !DropsFirst(reader.buffer, data)
      modifies reader, Tables()`movePtr
      ensures reader.Valid() && ok && AllDequantise(comps, 0, output, blocks)
      ensures blocks != [] ==>
        reader.stream[reader.pos..] == Unread(Pack(EncodeScan(comps, tables, 0, Zeros(|comps|), blocks).value), tail)
    {
      hide EncodeScan, DecodeScan, Pack, Stuff, Unstuff, BitsOf, AllDequantise, TreesOf, Reaches, PendingBits, Behind;
      ghost var bits := EncodeScan(comps, tables, 0, Zeros(|comps|), blocks).value;
      ghost var from := reader.Here();
      PendingAtByte(from);
      if blocks != [] {
        SomeBits(comps, tables, blocks);
        PackLength(bits);
        StuffedFront(Pack(bits), tail);
      }
      assert blocks != [] ==> !reader.eof;
      reader.SetMark();
      ScanInvertsEncoding(comps, tables, blocks, reader.buffer, tail);
      DecodeScanShortens(comps, 0, |blocks|, Zeros(|comps|), reader.Pending());
      output, ok := Scan(comps);
      if blocks != [] {
        StopsBehind(from, reader.Here(), bits, tail);
      }
    }

    /** Whether the end marker comes next in the stream. */
    method CheckEnd() returns (ok: bool)
      requires reader.InStream()
      modifies reader`pos, reader`eof
      ensures ok <==> IsEnd(old(reader.stream[reader.pos..]))
    {
      var high := reader.Get();
      var low := reader.Get();
      ok := high == 0xFF && low == 0xD9;
    }

    /** The two together: a picture whose blocks are all there and whose end marker follows
        them is accepted exactly if its last data byte is not 0xFF. */
    method ScanToEnd(ghost comps: seq<Component>, ghost tables: seq<Tables>, ghost blocks: seq<Block>,
            ghost tail: seq<byte>)
      returns (output: seq<Block>, accepted: bool)
      requires Describes(comps) && reader.Valid() && TreesOf(comps, tables)
      requires forall k :: 0 <= k < |comps| ==> TablesOf(k, comps[k])
      requires blocks != [] && |blocks| == imgBlockCnt && IsEnd(tail)
      requires EncodeScan(comps, tables, 0, Zeros(|comps|), blocks) != None
      requires var data := Pack(EncodeScan(comps, tables, 0, Zeros(|comps|), blocks).value);
               && reader.bufferPtr == 0 && reader.stream[reader.pos..] == Stuff(data) + tail
               && !DropsFirst(reader.buffer, data)
      modifies reader, Tables()`movePtr
      ensures AllDequantise(comps, 0, output, blocks)
      ensures var data := Pack(EncodeScan(comps, tables, 0, Zeros(|comps|), blocks).value);
              data != [] && (accepted <==> data[|data| - 1] != 0xFF)
    {
      hide EncodeScan, DecodeScan, Pack, Stuff, Unstuff, BitsOf, AllDequantise, TablesOf, TreesOf, Reaches, PendingBits;
      ghost var bits := EncodeScan(comps, tables, 0, Zeros(|comps|), blocks).value;
      SomeBits(comps, tables, blocks);
      PackLength(bits);
      EndIsNextIff(Pack(bits), tail);
      var ok;
      output, ok := ScanEncoded(comps, tables, blocks, tail);
      accepted := CheckEnd();
    }
  }

  lemma PendingAtByte(p: Place)
    requires p.used == 0
    ensures p.Bits() == BitsOf(Unstuff(p.buffer, p.rest))
  {
  }

  lemma SomeBits(comps: seq<Component>, tables: seq<Tables>, blocks: seq<Block>)
    requires Usable(comps) && TreesOf(comps, tables) && blocks != []
    requires EncodeScan(comps, tables, 0, Zeros(|comps|), blocks) != None
    ensures EncodeScan(comps, tables, 0, Zeros(|comps|), blocks).value != []
  {
    hide EncodeScan, DecodeScan, AllDequantise, TreesOf, Usable;
    var bits := EncodeScan(comps, tables, 0, Zeros(|comps|), blocks).value;
    DecodeScanInverts(comps, tables, 0, Zeros(|comps|), blocks, []);
    assert bits + [] == bits;
    DecodeScanShortens(comps, 0, |blocks|, Zeros(|comps|), bits);
  }

  /** A reader that has taken exactly the bits of a scan stands behind its data. */
  lemma StopsBehind(p: Place, q: Place, bits: seq<bool>, tail: seq<byte>)
    requires p.used == 0 && p.rest == Stuff(Pack(bits)) + tail && !DropsFirst(p.buffer, Pack(bits))
    requires Reaches(p, q) && q.used < 8 && 0 < |bits| <= |p.Bits()| && |q.Bits()| == |p.Bits()| - |bits|
    ensures q.rest == Unread(Pack(bits), tail)
  {
    hide Pack, Stuff, PendingBits, Reaches, Taken, Unread;
    PackLength(bits);
    PlaceOfBits(p, q, |bits|);
    ReadsThrough(p, Pack(bits), tail, |bits|);
  }

  /** A reader set up from what `ReadStats` read describes the scan, and the components
      it describes are laid out as `ConstructImage` expects. */
  lemma ReadHeaderDescribes(reader: JpegReader, stats: Stats, declared: seq<Declared>, comps: seq<Component>)
    requires |declared| == 3 && Covered(declared) && stats.Keeps(declared) && Usable(comps) && |comps| == 3
    requires |reader.channels| == 256 && reader.mcuBlockCnt == stats.mcuBlockCnt
    requires forall c :: 0 <= c < 3 ==>
        reader.DescribesOne(c, comps[c]) && SameFactors(reader.channels, stats.channels, c + 1)
    ensures reader.Describes(comps)
    ensures LumaLeads(declared) && stats.width >= 0 && stats.height >= 0 ==> ComponentsOf(stats.Sizes(), comps)
  {
    hide Covered, McuOrder;
    forall c: nat | c < 3
      ensures AreaOf(stats.channels, c, comps[c])
    {
      assert reader.DescribesOne(c, comps[c]) && SameFactors(reader.channels, stats.channels, c + 1);
    }
    KeptComponents(stats, declared, comps);
  }

  /** The scan header adds the table ids of a channel and leaves its factors. */
  ghost predicate SameFactors(a: seq<Option<Channel>>, b: seq<Option<Channel>>, id: nat) {
    && id < |a| && id < |b| && a[id].Some? && b[id].Some?
    && a[id].value.h == b[id].value.h && a[id].value.v == b[id].value.v
  }

  lemma SameRoot(t: HuffmanTree, a: Tree, b: Tree)
    requires TableOf(t, a)
    ensures TableOf(t, b) ==> a == b
  {
  }

  ghost function Prepend(done: seq<Block>, d: Decoded<seq<Block>>): Decoded<seq<Block>> {
    match d
    case Fail => Fail
    case Ok(blocks, rest) => Ok(done + blocks, rest)
  }

  lemma PrependNothing(d: Decoded<seq<Block>>)
    ensures Prepend([], d) == d
  {
    if d.Ok? {
      assert [] + d.value == d.value;
    }
  }

  lemma PrependOne(done: seq<Block>, block: Block, d: Decoded<seq<Block>>)
    ensures Prepend(done + [block], d) == Prepend(done, Prepend([block], d))
  {
    if d.Ok? {
      assert done + [block] + d.value == done + ([block] + d.value);
    }
  }
}
