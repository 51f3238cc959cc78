/** From decoded blocks to pixels: undoing the zig-zag order, and finding the samples
    of a pixel among the interleaved blocks. */
module Transforms {
  import opened FrameStats
  import opened Layouts
  import opened Options
  import opened ScanSpec

  // --------------------------------------------------------------- zig-zag

  const CONVERT_I: seq<nat> :=
    [0, 0, 1, 2, 1, 0, 0, 1] + [2, 3, 4, 3, 2, 1, 0, 0] +
    [1, 2, 3, 4, 5, 6, 5, 4] + [3, 2, 1, 0, 0, 1, 2, 3] +
    [4, 5, 6, 7, 7, 6, 5, 4] + [3, 2, 1, 2, 3, 4, 5, 6] +
    [7, 7, 6, 5, 4, 3, 4, 5] + [6, 7, 7, 6, 5, 6, 7, 7]

  const CONVERT_J: seq<nat> :=
    [0, 1, 0, 0, 1, 2, 3, 2] + [1, 0, 0, 1, 2, 3, 4, 5] +
    [4, 3, 2, 1, 0, 0, 1, 2] + [3, 4, 5, 6, 7, 6, 5, 4] +
    [3, 2, 1, 0, 1, 2, 3, 4] + [5, 6, 7, 7, 6, 5, 4, 3] +
    [2, 3, 4, 5, 6, 7, 7, 6] + [5, 4, 5, 6, 7, 7, 6, 7]

  /** The cells of an 8 by 8 block on the antidiagonals before `d`. */
  function CellsBefore(d: nat): nat {
    if d == 0 then 0 else CellsBefore(d - 1) + DiagonalLength(d - 1)
  }

  function DiagonalLength(d: nat): nat {
    if d < 8 then d + 1 else if d < 15 then 15 - d else 0
  }

  /** The place of row `i`, column `j` in the zig-zag walk of figure A.6 of ITU-T T.81:
      antidiagonal by antidiagonal, the odd ones downwards, the even ones upwards. */
  function Rank(i: nat, j: nat): (k: nat)
    requires i < 8 && j < 8
    ensures k < 64
  {
    var d := i + j;
    BeforeMonotone(d + 1, 15);
    DiagonalStarts();
    CellsBefore(d) + (if d % 2 == 1 then i else j) - (if d < 8 then 0 else d - 7)
  }

  lemma {:induction false} BeforeMonotone(d: nat, e: nat)
    requires d <= e
    ensures CellsBefore(d) <= CellsBefore(e)
  {
    if d < e {
      BeforeMonotone(d, e - 1);
    }
  }

  lemma RankBounds(i: nat, j: nat)
    requires i < 8 && j < 8
    ensures CellsBefore(i + j) <= Rank(i, j) < CellsBefore(i + j + 1)
  {
  }

  /** No two cells have the same place. */
  lemma RankInjective(i: nat, j: nat, i': nat, j': nat)
    requires i < 8 && j < 8 && i' < 8 && j' < 8 && Rank(i, j) == Rank(i', j')
    ensures i == i' && j == j'
  {
    hide CellsBefore;
    EarlierDiagonal(i, j, i', j');
    EarlierDiagonal(i', j', i, j);
  }

  lemma EarlierDiagonal(i: nat, j: nat, i': nat, j': nat)
    requires i < 8 && j < 8 && i' < 8 && j' < 8
    ensures i + j < i' + j' ==> Rank(i, j) < Rank(i', j')
  {
    hide CellsBefore, Rank;
    RankBounds(i, j);
    RankBounds(i', j');
    if i + j < i' + j' {
      BeforeMonotone(i + j + 1, i' + j');
    }
  }

  /** The walk of figure A.6, move by move: it starts at the top left; on an even
      antidiagonal it goes up and to the right, at the top edge to the right, at the
      right edge down; on an odd one it goes down and to the left, at the left edge down,
      at the bottom edge to the right. */
  lemma WalkMoves(i: nat, j: nat)
    requires i < 8 && j < 8
    ensures Rank(0, 0) == 0
    ensures (i + j) % 2 == 0 && i > 0 && j < 7 ==> Rank(i - 1, j + 1) == Rank(i, j) + 1
    ensures (i + j) % 2 == 0 && i == 0 && j < 7 ==> Rank(i, j + 1) == Rank(i, j) + 1
    ensures (i + j) % 2 == 0 && i < 7 && j == 7 ==> Rank(i + 1, j) == Rank(i, j) + 1
    ensures (i + j) % 2 == 1 && i < 7 && j > 0 ==> Rank(i + 1, j - 1) == Rank(i, j) + 1
    ensures (i + j) % 2 == 1 && i < 7 && j == 0 ==> Rank(i + 1, j) == Rank(i, j) + 1
    ensures (i + j) % 2 == 1 && i == 7 && j < 7 ==> Rank(i, j + 1) == Rank(i, j) + 1
  {
    hide CellsBefore;
    NextDiagonal(i + j);
  }

  lemma NextDiagonal(d: nat)
    ensures CellsBefore(0) == 0 && CellsBefore(d + 1) == CellsBefore(d) + DiagonalLength(d)
  {
  }

  /** The cell that the tables have for entry `k`. */
  function Row(k: nat): nat
    requires k < 64
  {
    CONVERT_I[k]
  }

  function Column(k: nat): nat
    requires k < 64
  {
    CONVERT_J[k]
  }

  /** Entry `k` of the tables is the cell at place `k` of the walk. */
  ghost predicate InPlace(k: nat)
    requires k < 64
  {
    Row(k) < 8 && Column(k) < 8 && Rank(Row(k), Column(k)) == k
  }

  lemma DiagonalStarts()
    ensures CellsBefore(0) == 0 && CellsBefore(1) == 1 && CellsBefore(2) == 3 && CellsBefore(3) == 6
    ensures CellsBefore(4) == 10 && CellsBefore(5) == 15 && CellsBefore(6) == 21 && CellsBefore(7) == 28
    ensures CellsBefore(8) == 36 && CellsBefore(9) == 43 && CellsBefore(10) == 49 && CellsBefore(11) == 54
    ensures CellsBefore(12) == 58 && CellsBefore(13) == 61 && CellsBefore(14) == 63 && CellsBefore(15) == 64
  {
  }

  lemma FirstEight(k: nat)
    requires 0 <= k < 8
    ensures InPlace(k)
  {
    DiagonalStarts();
    hide CellsBefore;
  }

  lemma SecondEight(k: nat)
    requires 8 <= k < 16
    ensures InPlace(k)
  {
    DiagonalStarts();
    hide CellsBefore;
  }

  lemma ThirdEight(k: nat)
    requires 16 <= k < 24
    ensures InPlace(k)
  {
    DiagonalStarts();
    hide CellsBefore;
  }

  lemma FourthEight(k: nat)
    requires 24 <= k < 32
    ensures InPlace(k)
  {
    DiagonalStarts();
    hide CellsBefore;
  }

  lemma FifthEight(k: nat)
    requires 32 <= k < 40
    ensures InPlace(k)
  {
    DiagonalStarts();
    hide CellsBefore;
  }

  lemma SixthEight(k: nat)
    requires 40 <= k < 48
    ensures InPlace(k)
  {
    DiagonalStarts();
    hide CellsBefore;
  }

  lemma SeventhEight(k: nat)
    requires 48 <= k < 56
    ensures InPlace(k)
  {
    DiagonalStarts();
    hide CellsBefore;
  }

  lemma EighthEight(k: nat)
    requires 56 <= k < 64
    ensures InPlace(k)
  {
    DiagonalStarts();
    hide CellsBefore;
  }

  lemma TableInPlace(k: nat)
    requires k < 64
    ensures InPlace(k)
  {
    hide InPlace;
    if k < 8 {
      FirstEight(k);
    } else if k < 16 {
      SecondEight(k);
    } else if k < 24 {
      ThirdEight(k);
    } else if k < 32 {
      FourthEight(k);
    } else if k < 40 {
      FifthEight(k);
    } else if k < 48 {
      SixthEight(k);
    } else if k < 56 {
      SeventhEight(k);
    } else {
      EighthEight(k);
    }
  }

  /** Entry 0 of the tables is the top left cell, and from each entry to the next they
      make the move of the walk. */
  lemma TableWalks(k: nat)
    requires k < 63
    ensures Row(0) == Column(0) == 0
    ensures var i, j, i', j' := Row(k), Column(k), Row(k + 1), Column(k + 1);
            && ((i + j) % 2 == 0 && i > 0 && j < 7 ==> i' == i - 1 && j' == j + 1)
            && ((i + j) % 2 == 0 && i == 0 && j < 7 ==> i' == i && j' == j + 1)
            && ((i + j) % 2 == 0 && j == 7 ==> i' == i + 1 && j' == j)
            && ((i + j) % 2 == 1 && i < 7 && j > 0 ==> i' == i + 1 && j' == j - 1)
            && ((i + j) % 2 == 1 && i < 7 && j == 0 ==> i' == i + 1 && j' == j)
            && ((i + j) % 2 == 1 && i == 7 ==> i' == i && j' == j + 1)
  {
    hide Rank, Row, Column, CellsBefore;
    var i, j := Row(k), Column(k);
    TableInPlace(0);
    TableInPlace(k);
    TableInPlace(k + 1);
    WalkMoves(i, j);
    AtPlace(0, 0, 0);
    if (i + j) % 2 == 0 {
      if j == 7 {
        NotLast(i, k);
        AtPlace(k + 1, i + 1, j);
      } else if i == 0 {
        AtPlace(k + 1, i, j + 1);
      } else {
        AtPlace(k + 1, i - 1, j + 1);
      }
    } else {
      if i == 7 {
        AtPlace(k + 1, i, j + 1);
      } else if j == 0 {
        AtPlace(k + 1, i + 1, j);
      } else {
        AtPlace(k + 1, i + 1, j - 1);
      }
    }
  }

  lemma AtPlace(k: nat, i: nat, j: nat)
    requires k < 64 && i < 8 && j < 8 && Rank(i, j) == k
    ensures Row(k) == i && Column(k) == j
  {
    hide Rank, Row, Column;
    TableInPlace(k);
    RankInjective(i, j, Row(k), Column(k));
  }

  /** The last cell of the walk is the bottom right one. */
  lemma NotLast(i: nat, k: nat)
    requires i < 8 && k < 63 && Rank(i, 7) == k
    ensures i < 7
  {
    DiagonalStarts();
    hide CellsBefore;
  }

  /** Where the tables send entry `k`, in row-major order. */
  function Cell(k: nat): nat
    requires k < 64
  {
    Row(k) * 8 + Column(k)
  }

  lemma CellsDistinct(k: nat, m: nat)
    requires k < 64 && m < 64
    ensures Cell(k) < 64 && (Cell(k) == Cell(m) ==> k == m)
  {
    hide Rank, Row, Column;
    TableInPlace(k);
    TableInPlace(m);
  }

  /** The tables and the walk agree on every cell. */
  lemma CellOfRank(i: nat, j: nat)
    requires i < 8 && j < 8
    ensures Cell(Rank(i, j)) == i * 8 + j
  {
    hide Rank, Row, Column;
    var k := Rank(i, j);
    TableInPlace(k);
    RankInjective(i, j, Row(k), Column(k));
  }

  /** `out` holds in row-major order what `block` holds in zig-zag order. */
  ghost predicate Unwound(out: Block, block: Block) {
    forall i: nat, j: nat :: i < 8 && j < 8 ==> out[i * 8 + j] == block[Rank(i, j)]
  }

  /** The zig-zag order is undone in every block, in place. */
  method Convert(vec: array<Block>)
    modifies vec
    ensures forall b :: 0 <= b < vec.Length ==> Unwound(vec[b], old(vec[b]))
  {
    hide Unwound;
    for b := 0 to vec.Length
      invariant forall a :: 0 <= a < b ==> Unwound(vec[a], old(vec[a]))
      invariant forall a :: b <= a < vec.Length ==> vec[a] == old(vec[a])
    {
      vec[b] := Unwind(vec[b]);
    }
  }

  method Unwind(block: Block) returns (output: Block)
    ensures Unwound(output, block)
  {
    hide Cell, CellHolds, InPlace, Unwound;
    output := seq(64, _ => 0);
    for index := 0 to 64
      invariant forall m :: 0 <= m < index ==> CellHolds(output, block, m)
    {
      CellIs(index);
      StoreCell(output, block, index);
      output := output[CONVERT_I[index] * 8 + CONVERT_J[index] := block[index]];
    }
    AllCellsHold(output, block);
  }

  lemma StoreCell(output: Block, block: Block, index: nat)
    requires index < 64 && Cell(index) < 64 && forall m :: 0 <= m < index ==> CellHolds(output, block, m)
    ensures var stored: Block := output[Cell(index) := block[index]];
            forall m :: 0 <= m <= index ==> CellHolds(stored, block, m)
  {
    hide Cell;
    var stored: Block := output[Cell(index) := block[index]];
    forall m: nat | m <= index
      ensures CellHolds(stored, block, m)
    {
      CellsDistinct(m, index);
      assert m < index ==> CellHolds(output, block, m);
    }
  }

  lemma AllCellsHold(output: Block, block: Block)
    requires forall m :: 0 <= m < 64 ==> CellHolds(output, block, m)
    ensures Unwound(output, block)
  {
    hide Cell, Rank;
    forall i: nat, j: nat | i < 8 && j < 8
      ensures output[i * 8 + j] == block[Rank(i, j)]
    {
      CellOfRank(i, j);
      assert CellHolds(output, block, Rank(i, j));
    }
  }

  lemma CellIs(k: nat)
    requires k < 64
    ensures Cell(k) == CONVERT_I[k] * 8 + CONVERT_J[k] < 64
  {
    CellsDistinct(k, k);
  }

  ghost predicate CellHolds(output: Block, block: Block, m: nat)
    requires m < 64
  {
    Cell(m) < 64 && output[Cell(m)] == block[m]
  }

  // ---------------------------------------------------------------- pixels

  /** The value that pixel `i`, `j` takes from component `c`. */
  ghost function Taken(g: Grid, input: seq<Block>, c: nat, i: nat, j: nat): int
    requires Regular(g) && |input| == g.blocks && c < 3 && InPicture(g, i, j)
  {
    SampleInScan(g, c, i, j);
    var at := SampleFor(g, c, i, j);
    input[at.block][at.place]
  }

  lemma SampleInScan(g: Grid, c: nat, i: nat, j: nat)
    requires Regular(g) && c < 3 && InPicture(g, i, j)
    ensures SampleFor(g, c, i, j).block < g.blocks && SampleFor(g, c, i, j).place < 64
  {
    hide Covers, BlockAt, HasBlock, InPicture;
    PixelHasBlock(g, c, i, j);
    if c == 0 {
      BlockInScan(g, c, i / 8, j / 8);
    } else {
      BlockInScan(g, c, i / g.v / 8, j / g.h / 8);
    }
  }

  /** The index arithmetic of `ConstructImage` for luma finds the sample that section
      A.2.3 of ITU-T T.81 puts there. */
  lemma LumaIndex(g: Grid, i: nat, j: nat)
    requires Regular(g)
    ensures SampleFor(g, 0, i, j)
         == Sample(McuAt(g, i / (g.v * 8), j / (g.h * 8)) * g.perMcu + (i / 8 % g.v * g.h + j / 8 % g.h),
                   i % 8 * 8 + j % 8)
  {
    hide Covers, McuAt;
  }

  lemma ChromaIndex(g: Grid, c: nat, i: nat, j: nat)
    requires Regular(g) && 1 <= c < 3
    ensures SampleFor(g, c, i, j)
         == Sample(McuAt(g, i / (g.v * 8), j / (g.h * 8)) * g.perMcu + (c - 1 + g.h * g.v),
                   i / g.v % 8 * 8 + j / g.h % 8)
  {
    hide Covers, McuAt;
  }

  /** What the loop body reads. */
  method Samples(input: seq<Block>, stats: Stats, ghost declared: seq<Declared>, i: nat, j: nat)
      returns (y: int, cb: int, cr: int)
    requires Fitting(input, stats, declared) && InPicture(stats.Sizes(), i, j)
    ensures y == Taken(stats.Sizes(), input, 0, i, j)
    ensures cb == Taken(stats.Sizes(), input, 1, i, j)
    ensures cr == Taken(stats.Sizes(), input, 2, i, j)
  {
    hide Regular, SampleFor, InPicture;
    ghost var g := stats.Sizes();
    LumaIndex(g, i, j);
    ChromaIndex(g, 1, i, j);
    ChromaIndex(g, 2, i, j);
    SampleInScan(g, 0, i, j);
    SampleInScan(g, 1, i, j);
    SampleInScan(g, 2, i, j);
    FactorsKept(input, stats, declared);
    var luma, chroma := stats.channels[1].value, stats.channels[2].value;
    var mcuI := i / (stats.vMax * 8);
    var mcuJ := j / (stats.hMax * 8);
    var mcuIndex := mcuI * stats.imgWidthInMcu + mcuJ;
    var blockIndex := mcuIndex * stats.mcuBlockCnt;
    var mcuInnerI := i / 8 % stats.vMax;
    var mcuInnerJ := j / 8 % stats.hMax;
    var blockInnerIY := i / luma.vSampling % 8;
    var blockInnerJY := j / luma.hSampling % 8;
    var blockInnerIC := i / chroma.vSampling % 8;
    var blockInnerJC := j / chroma.hSampling % 8;
    var offsetY := mcuInnerI * luma.h + mcuInnerJ;
    var offsetCb := luma.h * luma.v;
    var offsetCr := chroma.h * chroma.v + luma.h * luma.v;
    y := input[blockIndex + offsetY][blockInnerIY * 8 + blockInnerJY];
    cb := input[blockIndex + offsetCb][blockInnerIC * 8 + blockInnerJC];
    cr := input[blockIndex + offsetCr][blockInnerIC * 8 + blockInnerJC];
  }

  /** `stats` was read from a header that declares `declared`, and `input` has a block
      for every place of its scan. */
  ghost predicate Fitting(input: seq<Block>, stats: Stats, declared: seq<Declared>)
    reads stats
  {
    && |declared| == 3 && Covered(declared) && LumaLeads(declared) && stats.Keeps(declared)
    && stats.width >= 0 && stats.height >= 0 && Regular(stats.Sizes())
    && |input| == stats.imgBlockCnt
  }

  lemma FactorsKept(input: seq<Block>, stats: Stats, declared: seq<Declared>)
    requires Fitting(input, stats, declared)
    ensures |stats.channels| == 256 && stats.channels[1].Some? && stats.channels[2].Some? && stats.channels[3].Some?
    ensures var luma, chroma := stats.channels[1].value, stats.channels[2].value;
            && luma.h == stats.hMax && luma.v == stats.vMax && luma.hSampling == 1 && luma.vSampling == 1
            && chroma.h == 1 && chroma.v == 1 && chroma.hSampling == stats.hMax && chroma.vSampling == stats.vMax
  {
    var y :| 0 <= y < 3 && declared[y].id == 1;
    var cb :| 0 <= cb < 3 && declared[cb].id == 2;
    var cr :| 0 <= cr < 3 && declared[cr].id == 3;
    hide MaxH, MaxV, BlocksPerMcu, Regular, Covered, KeepsOne;
    KeptFactors(stats, declared);
    LumaLeadsMax(declared);
    LeadingChannel(stats.channels, declared[y], stats.hMax, stats.vMax);
    PlainChannel(stats.channels, declared[cb], stats.hMax, stats.vMax);
    PlainChannel(stats.channels, declared[cr], stats.hMax, stats.vMax);
  }

  lemma LeadingChannel(channels: seq<Option<Channel>>, d: Declared, hMax: nat, vMax: nat)
    requires KeepsOne(channels, d, hMax, vMax) && d.h == hMax && d.v == vMax
    ensures d.id < |channels| && channels[d.id].Some?
    ensures var ch := channels[d.id].value; ch.h == hMax && ch.v == vMax && ch.hSampling == ch.vSampling == 1
  {
  }

  lemma PlainChannel(channels: seq<Option<Channel>>, d: Declared, hMax: nat, vMax: nat)
    requires KeepsOne(channels, d, hMax, vMax) && d.h == d.v == 1
    ensures d.id < |channels| && channels[d.id].Some?
    ensures var ch := channels[d.id].value; ch.h == ch.v == 1 && ch.hSampling == hMax && ch.vSampling == vMax
  {
  }

  /** Every pixel is set from its own luma sample and the chroma samples of its group. */
  method ConstructImage<RGB>(input: seq<Block>, image: array2<RGB>, stats: Stats, toRgb: (int, int, int) -> RGB,
          ghost declared: seq<Declared>)
    requires Fitting(input, stats, declared)
    requires image.Length0 == stats.height && image.Length1 == stats.width
    modifies image
    ensures forall i: nat, j: nat :: InPicture(stats.Sizes(), i, j) ==>
        IsPixel(stats.Sizes(), input, toRgb, i, j, image[i, j])
  {
    hide Regular, Taken;
    ghost var g := stats.Sizes();
    for i := 0 to image.Length0
      invariant forall a: nat, b: nat :: a < i && InPicture(g, a, b) ==> IsPixel(g, input, toRgb, a, b, image[a, b])
    {
      for j := 0 to image.Length1
        invariant forall a: nat, b: nat :: (a < i || (a == i && b < j)) && InPicture(g, a, b) ==>
            IsPixel(g, input, toRgb, a, b, image[a, b])
      {
        var y, cb, cr := Samples(input, stats, declared, i, j);
        image[i, j] := toRgb(y, cb, cr);
      }
    }
  }

  ghost predicate IsPixel<RGB>(g: Grid, input: seq<Block>, toRgb: (int, int, int) -> RGB, i: nat, j: nat, p: RGB)
    requires Regular(g) && |input| == g.blocks && InPicture(g, i, j)
  {
    p == toRgb(Taken(g, input, 0, i, j), Taken(g, input, 1, i, j), Taken(g, input, 2, i, j))
  }
}
