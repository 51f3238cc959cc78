/** Where the blocks of an interleaved baseline scan belong in the picture, as in
    section A.2.3 of ITU-T T.81: three components, the first with the largest sampling
    factors, the other two with one block per MCU. */
module Layouts {
  import opened Arithmetic
  import opened ScanSpec

  /** The sizes derived from a frame header; `h` and `v` are the largest factors. */
  datatype Grid = Grid(width: nat, height: nat, h: nat, v: nat, across: nat, down: nat, perMcu: nat, blocks: nat)

  /** `n` is the least number of steps of `size` that reaches `length`. */
  predicate Covers(n: nat, size: nat, length: nat) {
    length <= n * size && (n > 0 ==> (n - 1) * size < length)
  }

  ghost predicate Regular(g: Grid) {
    && (g.h == 1 || g.h == 2) && (g.v == 1 || g.v == 2)
    && Covers(g.across, 8 * g.h, g.width) && Covers(g.down, 8 * g.v, g.height)
    && g.perMcu == g.h * g.v + 2 && g.blocks == g.down * g.across * g.perMcu
  }

  // Component 0 is luma, components 1 and 2 are chroma.

  function FactorH(g: Grid, c: nat): nat { if c == 0 then g.h else 1 }

  function FactorV(g: Grid, c: nat): nat { if c == 0 then g.v else 1 }

  /** The blocks of an MCU that come before those of component `c`. */
  function First(g: Grid, c: nat): nat { if c == 0 then 0 else g.h * g.v + c - 1 }

  function McuAt(g: Grid, down: nat, across: nat): nat { down * g.across + across }

  /** The place within its MCU of the block at `row`, `col` of component `c`. */
  function PlaceInMcu(g: Grid, c: nat, row: nat, col: nat): nat
    requires Regular(g)
  {
    First(g, c) + row % FactorV(g, c) * FactorH(g, c) + col % FactorH(g, c)
  }

  /** The place in the scan of the block at `row`, `col` of component `c`: MCUs go left
      to right and top to bottom, and so do the blocks of a component within an MCU. */
  function BlockAt(g: Grid, c: nat, row: nat, col: nat): nat
    requires Regular(g)
  {
    McuAt(g, row / FactorV(g, c), col / FactorH(g, c)) * g.perMcu + PlaceInMcu(g, c, row, col)
  }

  /** Whether component `c` has, padding included, a block at `row`, `col`. */
  predicate HasBlock(g: Grid, c: nat, row: nat, col: nat) {
    row < g.down * FactorV(g, c) && col < g.across * FactorH(g, c)
  }

  lemma PlaceBound(g: Grid, c: nat, row: nat, col: nat)
    requires Regular(g) && c < 3
    ensures First(g, c) <= PlaceInMcu(g, c, row, col) < First(g, c) + FactorH(g, c) * FactorV(g, c) <= g.perMcu
  {
    hide Covers;
  }

  lemma McuOfBlock(g: Grid, c: nat, row: nat, col: nat)
    requires Regular(g) && HasBlock(g, c, row, col)
    ensures row / FactorV(g, c) < g.down && col / FactorH(g, c) < g.across
  {
    hide Covers;
  }

  lemma McuInRange(g: Grid, down: nat, across: nat)
    requires down < g.down && across < g.across
    ensures McuAt(g, down, across) < g.down * g.across
  {
    Products(down + 1, g.down, g.across);
    assert (down + 1) * g.across == down * g.across + g.across;
  }

  lemma McusDistinct(g: Grid, down: nat, across: nat, down': nat, across': nat)
    requires across < g.across && across' < g.across && McuAt(g, down, across) == McuAt(g, down', across')
    ensures down == down' && across == across'
  {
    Division(McuAt(g, down, across), down, across, g.across);
    Division(McuAt(g, down, across), down', across', g.across);
  }

  /** Every block of a component is one of the scan, and the scan's own rule gives it
      back: its component, and its place in its MCU. */
  lemma BlockInScan(g: Grid, c: nat, row: nat, col: nat)
    requires Regular(g) && c < 3 && HasBlock(g, c, row, col)
    ensures BlockAt(g, c, row, col) < g.blocks
    ensures BlockAt(g, c, row, col) % g.perMcu == PlaceInMcu(g, c, row, col)
    ensures BlockAt(g, c, row, col) / g.perMcu == McuAt(g, row / FactorV(g, c), col / FactorH(g, c))
  {
    hide Covers, PlaceInMcu, McuAt;
    PlaceBound(g, c, row, col);
    McuOfBlock(g, c, row, col);
    var m := McuAt(g, row / FactorV(g, c), col / FactorH(g, c));
    McuInRange(g, row / FactorV(g, c), col / FactorH(g, c));
    Division(BlockAt(g, c, row, col), m, PlaceInMcu(g, c, row, col), g.perMcu);
    Products(m + 1, g.down * g.across, g.perMcu);
    assert (m + 1) * g.perMcu == m * g.perMcu + g.perMcu;
  }

  /** Blocks at different places of a component are different blocks of the scan. */
  lemma BlocksDistinct(g: Grid, c: nat, row: nat, col: nat, row': nat, col': nat)
    requires Regular(g) && c < 3 && HasBlock(g, c, row, col) && HasBlock(g, c, row', col')
    ensures BlockAt(g, c, row, col) == BlockAt(g, c, row', col') <==> row == row' && col == col'
  {
    hide Covers, PlaceInMcu, McuAt, BlockAt, HasBlock;
    if BlockAt(g, c, row, col) == BlockAt(g, c, row', col') {
      BlockInScan(g, c, row, col);
      BlockInScan(g, c, row', col');
      McuOfBlock(g, c, row, col);
      McuOfBlock(g, c, row', col');
      McusDistinct(g, row / FactorV(g, c), col / FactorH(g, c), row' / FactorV(g, c), col' / FactorH(g, c));
      PlacesDistinct(g, c, row, col, row', col');
    }
  }

  lemma PlacesDistinct(g: Grid, c: nat, row: nat, col: nat, row': nat, col': nat)
    requires Regular(g) && c < 3 && PlaceInMcu(g, c, row, col) == PlaceInMcu(g, c, row', col')
    requires row / FactorV(g, c) == row' / FactorV(g, c) && col / FactorH(g, c) == col' / FactorH(g, c)
    ensures row == row' && col == col'
  {
    hide Covers;
  }

  // ------------------------------------------------------------ raster order

  /** The scan begins at the top left. The luma blocks of an MCU follow each other row by
      row, and after the last one comes the first chroma block of the MCU. */
  lemma BlocksOfMcu(g: Grid, row: nat, col: nat)
    requires Regular(g)
    ensures BlockAt(g, 0, 0, 0) == 0
    ensures (col + 1) % g.h != 0 ==> BlockAt(g, 0, row, col + 1) == BlockAt(g, 0, row, col) + 1
    ensures (col + 1) % g.h == 0 && (row + 1) % g.v != 0 ==>
        col + 1 >= g.h && BlockAt(g, 0, row + 1, col + 1 - g.h) == BlockAt(g, 0, row, col) + 1
    ensures (col + 1) % g.h == 0 && (row + 1) % g.v == 0 ==>
        BlockAt(g, 1, row / g.v, col / g.h) == BlockAt(g, 0, row, col) + 1
  {
    hide Covers, McuAt;
    assert McuAt(g, 0, 0) == 0 by { McuSteps(g, 0, 0); }
  }

  /** Chroma has one block per MCU, and after the second one comes the top left luma block
      of the MCU to the right, or of the first MCU of the next row. */
  lemma NextMcu(g: Grid, down: nat, across: nat)
    requires Regular(g) && across < g.across
    ensures BlockAt(g, 2, down, across) == BlockAt(g, 1, down, across) + 1
    ensures across + 1 < g.across ==>
        BlockAt(g, 0, down * g.v, (across + 1) * g.h) == BlockAt(g, 2, down, across) + 1
    ensures across + 1 == g.across ==> BlockAt(g, 0, (down + 1) * g.v, 0) == BlockAt(g, 2, down, across) + 1
  {
    hide Covers, McuAt;
    McuSteps(g, down, across);
    FirstOfMcu(g, down, across + 1);
    FirstOfMcu(g, down + 1, 0);
    var m := McuAt(g, down, across);
    assert (m + 1) * g.perMcu == m * g.perMcu + g.perMcu;
  }

  lemma FirstOfMcu(g: Grid, down: nat, across: nat)
    requires Regular(g)
    ensures BlockAt(g, 0, down * g.v, across * g.h) == McuAt(g, down, across) * g.perMcu
  {
    hide Covers, McuAt;
    Division(down * g.v, down, 0, g.v);
    Division(across * g.h, across, 0, g.h);
  }

  /** MCUs go left to right and top to bottom. */
  lemma McuSteps(g: Grid, down: nat, across: nat)
    ensures McuAt(g, 0, 0) == 0 && McuAt(g, down, across + 1) == McuAt(g, down, across) + 1
    ensures across + 1 == g.across ==> McuAt(g, down + 1, 0) == McuAt(g, down, across) + 1
  {
    assert (down + 1) * g.across == down * g.across + g.across;
  }

  // ------------------------------------------------------------- the scan order

  /** Three components with as many blocks per MCU as the grid says. */
  ghost predicate ComponentsOf(g: Grid, comps: seq<Component>) {
    && Usable(comps) && |comps| == 3
    && comps[0].area == g.h * g.v && comps[1].area == 1 && comps[2].area == 1
  }

  lemma OrderInMcu(g: Grid, comps: seq<Component>)
    requires Regular(g) && ComponentsOf(g, comps)
    ensures McuOrder(comps, 0) == seq(g.h * g.v, _ => 0) + [1, 2] && |McuOrder(comps, 0)| == g.perMcu
  {
    hide Covers;
    assert McuOrder(comps, 3) == [];
    assert McuOrder(comps, 2) == [2];
    assert McuOrder(comps, 1) == [1, 2];
  }

  /** The component that `ChannelNum` finds for a block is the one it was placed for. */
  lemma ComponentOfBlock(g: Grid, comps: seq<Component>, c: nat, row: nat, col: nat)
    requires Regular(g) && ComponentsOf(g, comps) && c < 3 && HasBlock(g, c, row, col)
    ensures ComponentOf(comps, BlockAt(g, c, row, col)) == c
  {
    hide Covers, HasBlock, BlockAt, McuAt, PlaceInMcu, McuOrder;
    BlockInScan(g, c, row, col);
    PlaceBound(g, c, row, col);
    OrderInMcu(g, comps);
  }

  // -------------------------------------------------------------- the samples

  /** A sample of a component: its block in the scan, and its place in the block. */
  datatype Sample = Sample(block: nat, place: nat)

  /** The sample at row `y`, column `x` of component `c`. */
  function SampleAt(g: Grid, c: nat, y: nat, x: nat): Sample
    requires Regular(g)
  {
    Sample(BlockAt(g, c, y / 8, x / 8), y % 8 * 8 + x % 8)
  }

  /** The sample of component `c` that the pixel at `i`, `j` takes: its own for luma, and
      for chroma one that is shared by `v` rows and `h` columns. */
  function SampleFor(g: Grid, c: nat, i: nat, j: nat): Sample
    requires Regular(g)
  {
    if c == 0 then SampleAt(g, 0, i, j) else SampleAt(g, c, i / g.v, j / g.h)
  }

  /** A block holds its samples row by row. */
  lemma SamplesInRows(g: Grid, c: nat, y: nat, x: nat)
    requires Regular(g)
    ensures SampleAt(g, c, 8 * y, 8 * x) == Sample(BlockAt(g, c, y, x), 0)
    ensures var s := SampleAt(g, c, y, x);
            && (x % 8 != 7 ==> SampleAt(g, c, y, x + 1) == Sample(s.block, s.place + 1))
            && (x % 8 == 7 && y % 8 != 7 ==> SampleAt(g, c, y + 1, x - 7) == Sample(s.block, s.place + 1))
  {
    hide Regular, BlockAt;
  }

  predicate InPicture(g: Grid, i: nat, j: nat) {
    i < g.height && j < g.width
  }

  lemma PixelHasBlock(g: Grid, c: nat, i: nat, j: nat)
    requires Regular(g) && InPicture(g, i, j)
    ensures c == 0 ==> HasBlock(g, c, i / 8, j / 8)
    ensures c != 0 ==> HasBlock(g, c, i / g.v / 8, j / g.h / 8)
  {
    hide Covers;
    WithinSide(g.down, g.v, g.height, i);
    WithinSide(g.across, g.h, g.width, j);
  }

  /** Along one side: the block of pixel `i`, and the block of its group of `f` pixels. */
  lemma WithinSide(n: nat, f: nat, length: nat, i: nat)
    requires (f == 1 || f == 2) && Covers(n, 8 * f, length) && i < length
    ensures i / 8 < n * f && i / f / 8 < n
  {
    assert f == 1 ==> i < 8 * n;
    assert f == 2 ==> i < 16 * n;
  }

  lemma SamplesDistinct(g: Grid, c: nat, y: nat, x: nat, y': nat, x': nat)
    requires Regular(g) && c < 3 && HasBlock(g, c, y / 8, x / 8) && HasBlock(g, c, y' / 8, x' / 8)
    ensures SampleAt(g, c, y, x) == SampleAt(g, c, y', x') <==> y == y' && x == x'
  {
    hide HasBlock, BlockAt, Regular;
    BlocksDistinct(g, c, y / 8, x / 8, y' / 8, x' / 8);
  }

  /** The luma sample of a pixel is its own. */
  lemma LumaIsOwn(g: Grid, i: nat, j: nat, i': nat, j': nat)
    requires Regular(g) && InPicture(g, i, j) && InPicture(g, i', j')
    ensures SampleFor(g, 0, i, j) == SampleFor(g, 0, i', j') <==> i == i' && j == j'
  {
    hide HasBlock, SampleAt, Regular;
    PixelHasBlock(g, 0, i, j);
    PixelHasBlock(g, 0, i', j');
    SamplesDistinct(g, 0, i, j, i', j');
  }

  /** A chroma sample is shared by exactly the pixels of one group of `v` by `h`. */
  lemma ChromaIsShared(g: Grid, c: nat, i: nat, j: nat, i': nat, j': nat)
    requires Regular(g) && 1 <= c < 3 && InPicture(g, i, j) && InPicture(g, i', j')
    ensures SampleFor(g, c, i, j) == SampleFor(g, c, i', j') <==> i / g.v == i' / g.v && j / g.h == j' / g.h
  {
    hide HasBlock, SampleAt, Covers;
    PixelHasBlock(g, c, i, j);
    PixelHasBlock(g, c, i', j');
    SamplesDistinct(g, c, i / g.v, j / g.h, i' / g.v, j' / g.h);
  }

  /** Which pixels take a sample: of luma the one at its place, of chroma those of the `v`
      rows and `h` columns that the sample stands for. */
  lemma PixelsOfSample(g: Grid, c: nat, y: nat, x: nat, i: nat, j: nat)
    requires Regular(g) && c < 3 && HasBlock(g, c, y / 8, x / 8) && InPicture(g, i, j)
    ensures c == 0 ==> (SampleFor(g, c, i, j) == SampleAt(g, c, y, x) <==> i == y && j == x)
    ensures c != 0 ==>
        (SampleFor(g, c, i, j) == SampleAt(g, c, y, x) <==>
            y * g.v <= i < (y + 1) * g.v && x * g.h <= j < (x + 1) * g.h)
  {
    hide HasBlock, SampleAt, Covers;
    PixelHasBlock(g, c, i, j);
    if c == 0 {
      SamplesDistinct(g, 0, i, j, y, x);
    } else {
      SamplesDistinct(g, c, i / g.v, j / g.h, y, x);
    }
  }
}
