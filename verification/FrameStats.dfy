/** The sizes that `ReadStats` derives from a frame header. */
module FrameStats {
  import opened Options
  import opened Arithmetic
  import opened BitReading
  import opened Layouts
  import opened ScanSpec

  datatype Channel = Channel(h: nat, v: nat, qtableId: nat, dcId: nat, acId: nat, hSampling: nat, vSampling: nat)

  /** A component as the header declares it. */
  datatype Declared = Declared(id: nat, h: nat, v: nat, qtableId: nat)

  const SIZE_T: int := 0x1_0000_0000_0000_0000

  /** A signed value converted to `size_t`. */
  function ToSize(x: int): (r: nat)
    requires -SIZE_T <= x < SIZE_T
  {
    if x < 0 then x + SIZE_T else x
  }

  function MulSize(a: nat, b: nat): nat { a * b % SIZE_T }

  /** How the code counts MCUs along one side. */
  function McuCount(length: nat, size: nat): nat
    requires size > 0
  {
    length / size + if length % size != 0 then 1 else 0
  }

  lemma McuCountCovers(length: nat, size: nat)
    requires size > 0
    ensures Covers(McuCount(length, size), size, length)
  {
    DivisionEquation(length, size);
    assert (length / size + 1) * size == length / size * size + size;
  }

  /** The header's 16-bit sizes are kept in a signed 16-bit field, so the MCUs along a
      side are counted right exactly for sizes below 32768. */
  lemma CountedRightIff(length: nat, size: nat)
    requires length < 0x1_0000 && (size == 8 || size == 16)
    ensures Covers(McuCount(ToSize(Int16(length)), size), size, length) <==> length < 0x8000
  {
    McuCountCovers(ToSize(Int16(length)), size);
    if length < 0x8000 {
      assert Int16(length) == length;
    } else {
      assert Int16(length) == length - 0x1_0000;
    }
  }

  predicate FactorsOk(d: Declared) {
    (d.h == 1 || d.h == 2) && (d.v == 1 || d.v == 2)
  }

  predicate HasId(declared: seq<Declared>, id: nat) {
    exists k :: 0 <= k < |declared| && declared[k].id == id
  }

  /** Each of the ids 1, 2 and 3 is declared. */
  predicate Covered(declared: seq<Declared>) {
    HasId(declared, 1) && HasId(declared, 2) && HasId(declared, 3)
  }

  /** Luma, with id 1, has the largest factors, and chroma has one block per MCU. */
  predicate LumaLeads(declared: seq<Declared>) {
    forall k :: 0 <= k < |declared| && declared[k].id != 1 ==> declared[k].h == declared[k].v == 1
  }

  /** What the first `n` declarations leave in channel `id`. */
  function Declaration(declared: seq<Declared>, n: nat, id: nat): Option<Channel>
    requires n <= |declared|
  {
    if n == 0 then None
    else if declared[n - 1].id == id then Some(Unsampled(declared[n - 1]))
    else Declaration(declared, n - 1, id)
  }

  lemma {:induction false} DeclarationIff(declared: seq<Declared>, n: nat, id: nat)
    requires n <= |declared|
    ensures Declaration(declared, n, id) != None <==> HasId(declared[..n], id)
  {
    if n > 0 {
      DeclarationIff(declared, n - 1, id);
      assert declared[..n] == declared[..n - 1] + [declared[n - 1]];
      if HasId(declared[..n - 1], id) {
        var k :| 0 <= k < n - 1 && declared[..n - 1][k].id == id;
        assert declared[..n][k].id == id;
      }
      if declared[n - 1].id == id {
        assert declared[..n][n - 1].id == id;
      }
    }
  }

  /** At most three declarations that cover the three ids are a permutation of them. */
  lemma Permutation(declared: seq<Declared>)
    requires |declared| <= 3 && Covered(declared)
    ensures |declared| == 3
    ensures forall k :: 0 <= k < 3 ==> 1 <= declared[k].id <= 3
    ensures forall k :: 0 <= k < 3 ==> Declaration(declared, 3, declared[k].id) == Some(Unsampled(declared[k]))
  {
    var a :| 0 <= a < |declared| && declared[a].id == 1;
    var b :| 0 <= b < |declared| && declared[b].id == 2;
    var c :| 0 <= c < |declared| && declared[c].id == 3;
    assert |declared| == 3 && a != b && b != c && a != c;
    forall k: nat | k < 3
      ensures Declaration(declared, 3, declared[k].id) == Some(Unsampled(declared[k]))
    {
      assert k == a || k == b || k == c;
      DeclarationOfThree(declared, k);
    }
  }

  lemma DeclarationOfThree(declared: seq<Declared>, k: nat)
    requires |declared| == 3 && k < 3 && forall j :: 0 <= j < 3 && j != k ==> declared[j].id != declared[k].id
    ensures Declaration(declared, 3, declared[k].id) == Some(Unsampled(declared[k]))
  {
    var id := declared[k].id;
    assert Declaration(declared, 3, id)
        == if k == 2 then Some(Unsampled(declared[2])) else Declaration(declared, 2, id);
    assert Declaration(declared, 2, id)
        == if declared[1].id == id then Some(Unsampled(declared[1])) else Declaration(declared, 1, id);
  }

  function Max(a: nat, b: nat): nat { if a < b then b else a }

  /** The largest of 1 and the factors of the first `n` components. */
  function MaxH(declared: seq<Declared>, n: nat): nat
    requires n <= |declared|
  {
    if n == 0 then 1 else Max(MaxH(declared, n - 1), declared[n - 1].h)
  }

  function MaxV(declared: seq<Declared>, n: nat): nat
    requires n <= |declared|
  {
    if n == 0 then 1 else Max(MaxV(declared, n - 1), declared[n - 1].v)
  }

  /** The blocks of one MCU that the first `n` components have. */
  function BlocksPerMcu(declared: seq<Declared>, n: nat): nat
    requires n <= |declared|
  {
    if n == 0 then 0 else BlocksPerMcu(declared, n - 1) + declared[n - 1].h * declared[n - 1].v
  }

  lemma LumaLeadsMax(declared: seq<Declared>)
    requires |declared| == 3 && Covered(declared) && forall k :: 0 <= k < 3 ==> FactorsOk(declared[k])
    ensures 1 <= MaxH(declared, 3) <= 2 && 1 <= MaxV(declared, 3) <= 2
    ensures LumaLeads(declared) ==> forall k :: 0 <= k < 3 && declared[k].id == 1 ==>
      && MaxH(declared, 3) == declared[k].h && MaxV(declared, 3) == declared[k].v
      && BlocksPerMcu(declared, 3) == declared[k].h * declared[k].v + 2
  {
    assert FactorsOk(declared[0]) && FactorsOk(declared[1]) && FactorsOk(declared[2]);
    MaxOfThree(declared);
    hide MaxH, MaxV, BlocksPerMcu;
    Permutation(declared);
  }

  lemma MaxOfThree(declared: seq<Declared>)
    requires |declared| == 3
    ensures MaxH(declared, 3) == Max(Max(Max(1, declared[0].h), declared[1].h), declared[2].h)
    ensures MaxV(declared, 3) == Max(Max(Max(1, declared[0].v), declared[1].v), declared[2].v)
    ensures BlocksPerMcu(declared, 3)
         == declared[0].h * declared[0].v + declared[1].h * declared[1].v + declared[2].h * declared[2].v
  {
    assert MaxH(declared, 1) == Max(1, declared[0].h) && MaxV(declared, 1) == Max(1, declared[0].v);
    assert MaxH(declared, 2) == Max(MaxH(declared, 1), declared[1].h);
    assert MaxV(declared, 2) == Max(MaxV(declared, 1), declared[1].v);
    assert BlocksPerMcu(declared, 1) == declared[0].h * declared[0].v;
    assert BlocksPerMcu(declared, 2) == BlocksPerMcu(declared, 1) + declared[1].h * declared[1].v;
  }

  lemma McuCountBound(length: nat, size: nat)
    requires length < 0x8000 && size >= 8
    ensures McuCount(length, size) <= 4096
  {
    DivisionEquation(length, size);
    McuCountCovers(length, size);
    var n := McuCount(length, size);
    if n > 4096 {
      Products(4096, n - 1, size);
    }
  }

  lemma MulFits(a: nat, b: nat)
    requires a * b < SIZE_T
    ensures MulSize(a, b) == a * b
  {
  }

  lemma FewMcus(across: nat, down: nat, perMcu: nat)
    requires across <= 4096 && down <= 4096 && perMcu <= 6
    ensures MulSize(MulSize(across, down), perMcu) == down * across * perMcu
  {
    hide MulSize;
    Products(across, 4096, down);
    assert across * down == down * across;
    MulFits(across, down);
    Products(perMcu, 6, down * across);
    assert perMcu * (down * across) == down * across * perMcu;
    MulFits(across * down, perMcu);
  }

  /** No product wraps around for sizes that the 16-bit field can hold. */
  lemma DerivedRegular(g: Grid)
    requires (g.h == 1 || g.h == 2) && (g.v == 1 || g.v == 2) && g.perMcu == g.h * g.v + 2
    requires g.width < 0x8000 && g.height < 0x8000
    requires g.across == McuCount(g.width, g.h * 8) && g.down == McuCount(g.height, g.v * 8)
    requires g.blocks == MulSize(MulSize(g.across, g.down), g.perMcu)
    ensures Regular(g)
  {
    hide McuCount, Covers, MulSize;
    McuCountCovers(g.width, g.h * 8);
    McuCountCovers(g.height, g.v * 8);
    McuCountBound(g.width, g.h * 8);
    McuCountBound(g.height, g.v * 8);
    assert g.h * g.v <= 4;
    FewMcus(g.across, g.down, g.perMcu);
  }

  /** `Rejected` stands for `std::invalid_argument`; `Undefined` for touching a channel
      that is not there. */
  datatype ReadResult = Accepted | Rejected | Undefined

  class Stats {
    var width: int
    var height: int
    var hMax: nat
    var vMax: nat
    var imgWidthInMcu: nat
    var imgHeightInMcu: nat
    var imgMcuCnt: nat
    var mcuBlockCnt: nat
    var imgBlockCnt: nat
    var channels: seq<Option<Channel>>

    constructor ()
      ensures channels == seq(256, _ => None)
    {
      channels := seq(256, _ => None);
    }

    /** What is kept of the declared components. */
    ghost predicate Keeps(declared: seq<Declared>)
      reads this
    {
      && |channels| == 256 && hMax == MaxH(declared, |declared|) && vMax == MaxV(declared, |declared|)
      && mcuBlockCnt == BlocksPerMcu(declared, |declared|)
      && forall k :: 0 <= k < |declared| ==> KeepsOne(channels, declared[k], hMax, vMax)
    }

    ghost function Sizes(): Grid
      requires width >= 0 && height >= 0
      reads this
    {
      Grid(width, height, hMax, vMax, imgWidthInMcu, imgHeightInMcu, mcuBlockCnt, imgBlockCnt)
    }

    /** The first loop, once the number of components has been checked. */
    method ReadComponents(declared: seq<Declared>) returns (ok: bool)
      requires channels == seq(256, _ => None) && forall k :: 0 <= k < |declared| ==> declared[k].id < 256
      modifies this`channels, this`hMax, this`vMax, this`mcuBlockCnt
      ensures |channels| == 256 && (ok <==> forall k :: 0 <= k < |declared| ==> FactorsOk(declared[k]))
      ensures ok ==> hMax == MaxH(declared, |declared|) && vMax == MaxV(declared, |declared|)
      ensures ok ==> mcuBlockCnt == BlocksPerMcu(declared, |declared|)
      ensures ok ==> forall id :: 0 <= id < 256 ==> channels[id] == Declaration(declared, |declared|, id)
    {
      hMax, vMax, mcuBlockCnt := 1, 1, 0;
      for i := 0 to |declared|
        invariant |channels| == 256
        invariant hMax == MaxH(declared, i) && vMax == MaxV(declared, i)
        invariant mcuBlockCnt == BlocksPerMcu(declared, i)
        invariant forall k :: 0 <= k < i ==> FactorsOk(declared[k])
        invariant forall id :: 0 <= id < 256 ==> channels[id] == Declaration(declared, i, id)
      {
        var d := declared[i];
        channels := channels[d.id := Some(Unsampled(d))];
        if (d.h != 1 && d.h != 2) || (d.v != 1 && d.v != 2) {
          return false;
        }
        mcuBlockCnt := mcuBlockCnt + d.h * d.v;
        if hMax < d.h {
          hMax := d.h;
        }
        if vMax < d.v {
          vMax := d.v;
        }
      }
      ok := true;
    }

    /** The second loop: the sampling ratios of channels 1 to 3; false if one is not there. */
    method Sample() returns (ok: bool)
      requires |channels| == 256
      requires forall id :: 1 <= id <= 3 && channels[id].Some? ==> channels[id].value.h > 0 && channels[id].value.v > 0
      modifies this`channels
      ensures |channels| == 256
      ensures ok <==> forall id :: 1 <= id <= 3 ==> old(channels)[id].Some?
      ensures ok ==> forall id :: 1 <= id <= 3 ==> channels[id] == Some(Sampled(old(channels)[id].value, hMax, vMax))
    {
      for i := 1 to 4
        invariant |channels| == 256
        invariant forall id :: 1 <= id < i ==>
          old(channels)[id].Some? && channels[id] == Some(Sampled(old(channels)[id].value, hMax, vMax))
        invariant forall id :: i <= id <= 3 ==> channels[id] == old(channels)[id]
      {
        if channels[i] == None {
          return false;
        }
        channels := channels[i := Some(Sampled(channels[i].value, hMax, vMax))];
      }
      ok := true;
    }

    /** The sizes in MCUs, in the arithmetic of `size_t`. */
    method CountMcus()
      requires 1 <= hMax && 1 <= vMax && -SIZE_T <= width < SIZE_T && -SIZE_T <= height < SIZE_T
      modifies this`imgWidthInMcu, this`imgHeightInMcu, this`imgMcuCnt, this`imgBlockCnt
      ensures imgWidthInMcu == McuCount(ToSize(width), hMax * 8) && imgHeightInMcu == McuCount(ToSize(height), vMax * 8)
      ensures imgMcuCnt == MulSize(imgWidthInMcu, imgHeightInMcu) && imgBlockCnt == MulSize(imgMcuCnt, mcuBlockCnt)
    {
      imgWidthInMcu := McuCount(ToSize(width), hMax * 8);
      imgHeightInMcu := McuCount(ToSize(height), vMax * 8);
      imgMcuCnt := MulSize(imgWidthInMcu, imgHeightInMcu);
      imgBlockCnt := MulSize(imgMcuCnt, mcuBlockCnt);
    }

    /** Reads one frame header. */
    method ReadStats(size0: nat, height0: nat, width0: nat, channelCnt: nat, declared: seq<Declared>)
        returns (r: ReadResult)
      requires channels == seq(256, _ => None)
      requires size0 < 0x1_0000 && height0 < 0x1_0000 && width0 < 0x1_0000
      requires 1 <= channelCnt <= 3 ==> |declared| == channelCnt
      requires forall k :: 0 <= k < |declared| ==> declared[k].id < 256
      modifies this
      ensures r != Rejected
          <==> 1 <= channelCnt <= 3 && (size0 - 6) % 0x1_0000 / 3 == channelCnt
               && forall k :: 0 <= k < |declared| ==> FactorsOk(declared[k])
      ensures r != Rejected ==> (r == Accepted <==> Covered(declared))
      ensures r == Accepted ==> |declared| == 3 && Keeps(declared)
      ensures r == Accepted && height0 < 0x8000 && width0 < 0x8000 && LumaLeads(declared) ==>
        width == width0 && height == height0 && Regular(Sizes())
    {
      hide MaxH, MaxV, BlocksPerMcu, Regular, McuCount, MulSize, Declaration;
      height, width := Int16(height0), Int16(width0);
      var size := (size0 - 6) % 0x1_0000;
      if 1 > channelCnt || channelCnt > 3 {
        return Rejected;
      }
      if size / 3 != channelCnt {
        return Rejected;
      }
      var ok := ReadComponents(declared);
      if !ok {
        return Rejected;
      }
      ghost var read := channels;
      PresentIff(declared, channels);
      ok := Sample();
      if !ok {
        return Undefined;
      }
      Permutation(declared);
      SampledKeeps(declared, read, channels, hMax, vMax);
      LumaLeadsMax(declared);
      CountMcus();
      if height0 < 0x8000 && width0 < 0x8000 && LumaLeads(declared) {
        DerivedRegular(Sizes());
      }
      r := Accepted;
    }
  }

  /** It does happen: a header for one grey component leaves channels 2 and 3 empty. */
  method GreyHeader() returns (r: ReadResult)
    ensures r == Undefined
  {
    var stats := new Stats();
    var declared := [Declared(1, 1, 1, 0)];
    assert FactorsOk(declared[0]);
    assert !HasId(declared, 2);
    r := stats.ReadStats(9, 8, 8, 1, declared);
  }

  function Unsampled(d: Declared): Channel {
    Channel(d.h, d.v, d.qtableId, 0, 0, 0, 0)
  }

  function Sampled(ch: Channel, hMax: nat, vMax: nat): Channel
    requires ch.h > 0 && ch.v > 0
  {
    ch.(hSampling := hMax / ch.h, vSampling := vMax / ch.v)
  }

  lemma PresentIff(declared: seq<Declared>, channels: seq<Option<Channel>>)
    requires |channels| == 256 && forall k :: 0 <= k < |declared| ==> FactorsOk(declared[k])
    requires forall id :: 0 <= id < 256 ==> channels[id] == Declaration(declared, |declared|, id)
    ensures (forall id :: 1 <= id <= 3 ==> channels[id].Some?) <==> Covered(declared)
    ensures forall id :: 0 <= id < 256 && channels[id].Some? ==> channels[id].value.h > 0 && channels[id].value.v > 0
  {
    hide Declaration;
    assert declared[..|declared|] == declared;
    forall id: nat
      ensures Declaration(declared, |declared|, id) != None <==> HasId(declared, id)
    {
      DeclarationIff(declared, |declared|, id);
    }
    forall id: nat | Declaration(declared, |declared|, id) != None
      ensures var ch := Declaration(declared, |declared|, id).value; ch.h > 0 && ch.v > 0
    {
      DeclaredFactors(declared, |declared|, id);
    }
  }

  lemma {:induction false} DeclaredFactors(declared: seq<Declared>, n: nat, id: nat)
    requires n <= |declared| && Declaration(declared, n, id) != None
    requires forall k :: 0 <= k < |declared| ==> FactorsOk(declared[k])
    ensures var ch := Declaration(declared, n, id).value; ch.h > 0 && ch.v > 0
  {
    if declared[n - 1].id == id {
      assert FactorsOk(declared[n - 1]);
    } else {
      DeclaredFactors(declared, n - 1, id);
    }
  }

  lemma SampledKeeps(declared: seq<Declared>, read: seq<Option<Channel>>, channels: seq<Option<Channel>>, hMax: nat,
          vMax: nat)
    requires |declared| == 3 && Covered(declared) && |read| == |channels| == 256
    requires forall k :: 0 <= k < 3 ==> FactorsOk(declared[k])
    requires forall id :: 0 <= id < 256 ==> read[id] == Declaration(declared, 3, id)
    requires forall id :: 1 <= id <= 3 ==> read[id].Some? && read[id].value.h > 0 && read[id].value.v > 0
    requires forall id :: 1 <= id <= 3 ==> channels[id] == Some(Sampled(read[id].value, hMax, vMax))
    ensures forall k :: 0 <= k < 3 ==> KeepsOne(channels, declared[k], hMax, vMax)
  {
    hide Declaration;
    Permutation(declared);
    forall k: nat | k < 3
      ensures KeepsOne(channels, declared[k], hMax, vMax)
    {
      assert FactorsOk(declared[k]);
      var id := declared[k].id;
      assert read[id] == Some(Unsampled(declared[k]));
    }
  }

  /** The channel of `d` has its factors and says how far each is below the largest. */
  ghost predicate KeepsOne(channels: seq<Option<Channel>>, d: Declared, hMax: nat, vMax: nat) {
    && d.id < |channels| && channels[d.id].Some?
    && var ch := channels[d.id].value;
    && ch.h == d.h && ch.v == d.v && ch.qtableId == d.qtableId
    && FactorsOk(d) && ch.hSampling == hMax / d.h && ch.vSampling == vMax / d.v
  }

  /** What was read of the components fits the scan: as many blocks per MCU as the
      interleaved order has, and luma and chroma where the layout expects them. */
  lemma KeptComponents(stats: Stats, declared: seq<Declared>, comps: seq<Component>)
    requires |declared| == 3 && Covered(declared) && stats.Keeps(declared)
    requires Usable(comps) && |comps| == 3 && forall c :: 0 <= c < 3 ==> AreaOf(stats.channels, c, comps[c])
    ensures stats.mcuBlockCnt == |McuOrder(comps, 0)|
    ensures LumaLeads(declared) && stats.width >= 0 && stats.height >= 0 ==> ComponentsOf(stats.Sizes(), comps)
  {
    hide MaxH, MaxV, BlocksPerMcu, McuOrder, Covered, LumaLeads, AreaOf, KeepsOne, Usable;
    KeptFactors(stats, declared);
    OrderLength(comps);
    MaxOfThree(declared);
    DeclaredIds(declared);
    AreasDeclared(stats.channels, declared, comps, stats.hMax, stats.vMax);
    AreasAddUp(declared, comps);
    LumaLeadsMax(declared);
    if LumaLeads(declared) {
      AreasOfLeader(declared, comps, stats.hMax, stats.vMax);
    }
  }

  lemma KeptFactors(stats: Stats, declared: seq<Declared>)
    requires stats.Keeps(declared)
    ensures forall k :: 0 <= k < |declared| ==>
      FactorsOk(declared[k]) && KeepsOne(stats.channels, declared[k], stats.hMax, stats.vMax)
  {
    forall k: nat | k < |declared|
      ensures KeepsOne(stats.channels, declared[k], stats.hMax, stats.vMax) && FactorsOk(declared[k])
    {
    }
  }

  lemma DeclaredIds(declared: seq<Declared>)
    requires |declared| == 3 && Covered(declared)
    ensures 1 <= declared[0].id <= 3 && 1 <= declared[1].id <= 3 && 1 <= declared[2].id <= 3
    ensures declared[0].id != declared[1].id && declared[1].id != declared[2].id && declared[0].id != declared[2].id
  {
  }

  lemma AreasAddUp(declared: seq<Declared>, comps: seq<Component>)
    requires |declared| == |comps| == 3
    requires forall k :: 0 <= k < 3 ==>
        1 <= declared[k].id <= 3 && comps[declared[k].id - 1].area == declared[k].h * declared[k].v
    requires declared[0].id != declared[1].id && declared[1].id != declared[2].id && declared[0].id != declared[2].id
    ensures comps[0].area + comps[1].area + comps[2].area
         == declared[0].h * declared[0].v + declared[1].h * declared[1].v + declared[2].h * declared[2].v
  {
  }

  lemma AreasOfLeader(declared: seq<Declared>, comps: seq<Component>, hMax: nat, vMax: nat)
    requires |declared| == |comps| == 3 && Covered(declared) && LumaLeads(declared)
    requires forall k :: 0 <= k < 3 ==>
        1 <= declared[k].id <= 3 && comps[declared[k].id - 1].area == declared[k].h * declared[k].v
    requires forall k :: 0 <= k < 3 && declared[k].id == 1 ==> hMax == declared[k].h && vMax == declared[k].v
    ensures comps[0].area == hMax * vMax && comps[1].area == 1 && comps[2].area == 1
  {
    var y :| 0 <= y < 3 && declared[y].id == 1;
    var cb :| 0 <= cb < 3 && declared[cb].id == 2;
    var cr :| 0 <= cr < 3 && declared[cr].id == 3;
    assert comps[declared[cb].id - 1].area == 1 * 1 && comps[declared[cr].id - 1].area == 1 * 1;
  }

  /** Component `c` has as many blocks per MCU as the channel with id `c + 1`. */
  ghost predicate AreaOf(channels: seq<Option<Channel>>, c: nat, comp: Component) {
    c + 1 < |channels| && channels[c + 1].Some? && channels[c + 1].value.h * channels[c + 1].value.v == comp.area
  }

  lemma OrderLength(comps: seq<Component>)
    requires |comps| == 3
    ensures |McuOrder(comps, 0)| == comps[0].area + comps[1].area + comps[2].area
  {
    assert McuOrder(comps, 3) == [];
    assert |McuOrder(comps, 2)| == comps[2].area;
    assert |McuOrder(comps, 1)| == comps[1].area + comps[2].area;
  }

  lemma AreasDeclared(channels: seq<Option<Channel>>, declared: seq<Declared>, comps: seq<Component>, hMax: nat,
          vMax: nat)
    requires |declared| == |comps| == 3 && forall k :: 0 <= k < 3 ==> 1 <= declared[k].id <= 3
    requires forall k :: 0 <= k < 3 ==> KeepsOne(channels, declared[k], hMax, vMax)
    requires forall c :: 0 <= c < 3 ==> AreaOf(channels, c, comps[c])
    ensures forall k :: 0 <= k < 3 ==> comps[declared[k].id - 1].area == declared[k].h * declared[k].v
  {
    forall k: nat | k < 3
      ensures comps[declared[k].id - 1].area == declared[k].h * declared[k].v
    {
      assert KeepsOne(channels, declared[k], hMax, vMax);
      assert AreaOf(channels, declared[k].id - 1, comps[declared[k].id - 1]);
    }
  }
}
