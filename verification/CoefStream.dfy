/** The MCUs of a scan: which block of which component stands where (sections A.2.2 to A.2.4
  of ITU-T T.81), and what stands where the image has no block. */
module CoefStream {
  import opened AcRefineModel
  import opened CoefDims

  /** The coefficients of an image: by component, block row and block column. */
  type Image = seq<seq<seq<Block>>>

  predicate Covers(f: Frame, image: Image) {
    && f.Valid() && |image| == |f.comps|
    && forall c | 0 <= c < |image| :: |image[c]| == f.HeightInBlocks(c) && forall row | 0 <= row < |image[c]| :: |image[c][row]| == f.WidthInBlocks(c)
  }

  function Min(a: nat, b: nat): nat {
    if a < b then a else b
  }

  /** A block with a DC value only. */
  function Dummy(dc: int): Block {
    seq(64, i => if i == 0 then dc else 0)
  }

  /** The block of component `c` in that row and column, in a group of blocks that ends with
      column `last`.  Outside the image: the DC value of the last block before it in the group. */
  function BlockAt(f: Frame, image: Image, c: nat, row: nat, col: nat, last: nat): Block
    requires Covers(f, image) && c < |f.comps| && f.HeightInBlocks(c) > 0 && f.WidthInBlocks(c) > 0
  {
    var width, height := f.WidthInBlocks(c), f.HeightInBlocks(c);
    if row < height && col < width then image[c][row][col]
    else Dummy(image[c][Min(row, height - 1)][Min(if row < height then col else last, width - 1)][0])
  }

  lemma SizesPositive(f: Frame, c: nat)
    requires f.Valid() && c < |f.comps|
    ensures f.WidthInBlocks(c) > 0 && f.HeightInBlocks(c) > 0
  {
    hide DivRoundUp, Frame.MaxH, Frame.MaxV;
    Nested(f.width, f.comps[c].h, f.MaxH());
    Nested(f.height, f.comps[c].v, f.MaxV());
  }

  type Blocks = seq<Block>

  /** Block `xi` of row `yi` of a component in an MCU. */
  function McuBlock(s: Scan, image: Image, ci: nat, r: nat, y: nat, x: nat, yi: nat, xi: nat): Block
    requires s.Valid() && Covers(s.f, image) && ci < |s.cur|
  {
    SizesPositive(s.f, s.cur[ci]);
    BlockAt(s.f, image, s.cur[ci], s.Top(ci, r, y) + yi, s.Left(ci, x) + xi, s.Left(ci, x) + s.McuWidth(ci) - 1)
  }

  function RowBlocks(s: Scan, image: Image, ci: nat, r: nat, y: nat, x: nat, yi: nat, n: nat): (blocks: Blocks)
    requires s.Valid() && Covers(s.f, image) && ci < |s.cur|
    ensures |blocks| == n && forall xi | 0 <= xi < n :: blocks[xi] == McuBlock(s, image, ci, r, y, x, yi, xi)
  {
    seq(n, xi requires 0 <= xi => McuBlock(s, image, ci, r, y, x, yi, xi))
  }

  /** The first `n` rows of a component. */
  function CompBlocks(s: Scan, image: Image, ci: nat, r: nat, y: nat, x: nat, n: nat): (blocks: Blocks)
    requires s.Valid() && Covers(s.f, image) && ci < |s.cur|
    ensures |blocks| == Stacked(s.McuWidth(ci), n)
  {
    if n == 0 then []
    else CompBlocks(s, image, ci, r, y, x, n - 1) + RowBlocks(s, image, ci, r, y, x, n - 1, s.McuWidth(ci))
  }

  /** The blocks of the first `n` components. */
  function McuBlocks(s: Scan, image: Image, r: nat, y: nat, x: nat, n: nat): (blocks: Blocks)
    requires s.Valid() && Covers(s.f, image) && n <= |s.cur|
    ensures |blocks| == s.BlocksBefore(n)
  {
    if n == 0 then []
    else McuBlocks(s, image, r, y, x, n - 1) + CompBlocks(s, image, n - 1, r, y, x, s.McuHeight(n - 1))
  }

  /** MCU `x` of row `y` of iMCU row `r`. */
  function McuAt(s: Scan, image: Image, r: nat, y: nat, x: nat): (blocks: Blocks)
    requires s.Valid() && Covers(s.f, image)
  {
    McuBlocks(s, image, r, y, x, |s.cur|)
  }

  // ------------------------------------------------------------------- the stream

  function McuRow(s: Scan, image: Image, r: nat, y: nat, n: nat): (mcus: seq<Blocks>)
    requires s.Valid() && Covers(s.f, image)
    ensures |mcus| == n
  {
    if n == 0 then [] else McuRow(s, image, r, y, n - 1) + [McuAt(s, image, r, y, n - 1)]
  }

  /** The first `n` MCU rows of an iMCU row. */
  function McuRowsOf(s: Scan, image: Image, r: nat, n: nat): seq<Blocks>
    requires s.Valid() && Covers(s.f, image)
  {
    if n == 0 then [] else McuRowsOf(s, image, r, n - 1) + McuRow(s, image, r, n - 1, s.McusPerRow())
  }

  /** The first `n` iMCU rows. */
  function IMcuRows(s: Scan, image: Image, n: nat): seq<Blocks>
    requires s.Valid() && Covers(s.f, image)
  {
    if n == 0 then [] else IMcuRows(s, image, n - 1) + McuRowsOf(s, image, n - 1, s.McuRows(n - 1))
  }

  /** Everything before MCU `x` of row `y` of iMCU row `r`. */
  function Upto(s: Scan, image: Image, r: nat, y: nat, x: nat): seq<Blocks>
    requires s.Valid() && Covers(s.f, image)
  {
    IMcuRows(s, image, r) + McuRowsOf(s, image, r, y) + McuRow(s, image, r, y, x)
  }

  /** All MCUs of the scan. */
  function Stream(s: Scan, image: Image): seq<Blocks>
    requires s.Valid() && Covers(s.f, image)
  {
    IMcuRows(s, image, s.f.TotalIMcuRows())
  }

  lemma NextMcu(s: Scan, image: Image, r: nat, y: nat, x: nat)
    requires s.Valid() && Covers(s.f, image)
    ensures Upto(s, image, r, y, x + 1) == Upto(s, image, r, y, x) + [McuAt(s, image, r, y, x)]
  {
    hide McuAt, IMcuRows, McuRowsOf;
  }

  lemma NextRow(s: Scan, image: Image, r: nat, y: nat)
    requires s.Valid() && Covers(s.f, image)
    ensures Upto(s, image, r, y + 1, 0) == Upto(s, image, r, y, s.McusPerRow())
  {
    hide McuAt, IMcuRows, Scan.McusPerRow;
  }

  lemma NextIMcuRow(s: Scan, image: Image, r: nat)
    requires s.Valid() && Covers(s.f, image)
    ensures Upto(s, image, r + 1, 0, 0) == Upto(s, image, r, s.McuRows(r), 0)
  {
    hide McuAt, Scan.McuRows, McuRow;
    assert McuRow(s, image, r, s.McuRows(r), 0) == [] == McuRow(s, image, r + 1, 0, 0) by { NoMcus(s, image, r, s.McuRows(r)); NoMcus(s, image, r + 1, 0); }
  }

  lemma NoMcus(s: Scan, image: Image, r: nat, y: nat)
    requires s.Valid() && Covers(s.f, image)
    ensures McuRow(s, image, r, y, 0) == []
  {
  }

  // ------------------------------------------------------- where the blocks are

  lemma Divided(k: nat, s: nat, n: nat)
    requires 1 <= s <= MAX_SAMP_FACTOR && k < n * s
    ensures k / s < n && k / s * s + k % s == k && k % s < s
  {
    if s == 1 { } else if s == 2 { } else if s == 3 { } else { }
  }

  /** Every block of the image is in an MCU of the scan. */
  lemma BlockPlaced(s: Scan, image: Image, ci: nat, row: nat, col: nat) returns (r: nat, y: nat, x: nat, yi: nat, xi: nat)
    requires s.Valid() && Covers(s.f, image) && ci < |s.cur|
    requires row < s.f.HeightInBlocks(s.cur[ci]) && col < s.f.WidthInBlocks(s.cur[ci])
    ensures r < s.f.TotalIMcuRows() && y < s.McuRows(r) && x < s.McusPerRow() && yi < s.McuHeight(ci) && xi < s.McuWidth(ci)
    ensures s.Top(ci, r, y) + yi == row && s.Left(ci, x) + xi == col
    ensures McuBlock(s, image, ci, r, y, x, yi, xi) == image[s.cur[ci]][row][col]
  {
    hide DivRoundUp, Frame.MaxH, Frame.MaxV, LastOf;
    var h, v := s.f.comps[s.cur[ci]].h, s.f.comps[s.cur[ci]].v;
    Nested(s.f.width, h, s.f.MaxH());
    Nested(s.f.height, v, s.f.MaxV());
    Divided(row, v, s.f.TotalIMcuRows());
    Divided(col, h, s.f.Across());
    r, y, x, yi, xi := row / v, row % v, col, 0, 0;
    if s.Interleaved() { y, x, yi, xi := 0, col / h, row % v, col % h; }
    PlacedThere(s, image, ci, r, y, x, yi, xi);
  }

  lemma PlacedThere(s: Scan, image: Image, ci: nat, r: nat, y: nat, x: nat, yi: nat, xi: nat)
    requires s.Valid() && Covers(s.f, image) && ci < |s.cur|
    requires s.Top(ci, r, y) + yi < s.f.HeightInBlocks(s.cur[ci]) && s.Left(ci, x) + xi < s.f.WidthInBlocks(s.cur[ci])
    ensures McuBlock(s, image, ci, r, y, x, yi, xi) == image[s.cur[ci]][s.Top(ci, r, y) + yi][s.Left(ci, x) + xi]
  {
    hide DivRoundUp, Frame.HeightInBlocks, Frame.WidthInBlocks, Scan.Top, Scan.Left, Scan.McuWidth;
    SizesPositive(s.f, s.cur[ci]);
  }

  /** A block outside the image is never the first of its component in an MCU, and it repeats
      the DC value of the block before it, so that its DC difference is zero. */
  lemma DummyRepeats(s: Scan, image: Image, ci: nat, r: nat, y: nat, x: nat, yi: nat, xi: nat)
    requires s.Valid() && Covers(s.f, image) && ci < |s.cur| && r < s.f.TotalIMcuRows() && y < s.McuRows(r)
    requires x < s.McusPerRow() && yi < s.McuHeight(ci) && xi < s.McuWidth(ci)
    requires s.Top(ci, r, y) + yi >= s.f.HeightInBlocks(s.cur[ci]) || s.Left(ci, x) + xi >= s.f.WidthInBlocks(s.cur[ci])
    ensures yi > 0 || xi > 0
    ensures McuBlock(s, image, ci, r, y, x, yi, xi)
            == Dummy((if xi > 0 then McuBlock(s, image, ci, r, y, x, yi, xi - 1)
                      else McuBlock(s, image, ci, r, y, x, yi - 1, s.McuWidth(ci) - 1))[0])
    ensures forall k | 1 <= k < 64 :: McuBlock(s, image, ci, r, y, x, yi, xi)[k] == 0
  {
    hide DivRoundUp, Scan.McuWidth, Scan.McuHeight, Scan.McuRows, Scan.McusPerRow, Scan.Top, Scan.Left,
         Frame.HeightInBlocks, Frame.WidthInBlocks;
    SizesPositive(s.f, s.cur[ci]);
    Rows(s, ci, r, y, 0);
    Columns(s, ci, x);
  }

  // ---------------------------------------------- a scan of one component (A.2.2)

  /** The first `n` blocks of a row, each an MCU of its own. */
  function Singles(row: seq<Block>, n: nat): seq<Blocks>
    requires n <= |row|
  {
    if n == 0 then [] else Singles(row, n - 1) + [[row[n - 1]]]
  }

  /** The first `n` rows, from left to right and from top to bottom. */
  function Raster(rows: seq<seq<Block>>, n: nat): seq<Blocks>
    requires n <= |rows|
  {
    if n == 0 then [] else Raster(rows, n - 1) + Singles(rows[n - 1], |rows[n - 1]|)
  }

  lemma {:induction false} SingleRow(s: Scan, image: Image, r: nat, y: nat, n: nat)
    requires s.Valid() && Covers(s.f, image) && |s.cur| == 1 && n <= s.McusPerRow()
    requires s.Top(0, r, y) < s.f.HeightInBlocks(s.cur[0])
    ensures McuRow(s, image, r, y, n) == Singles(image[s.cur[0]][s.Top(0, r, y)], n)
  {
    hide Scan.Top, DivRoundUp;
    if n > 0 {
      SingleRow(s, image, r, y, n - 1);
      assert McuAt(s, image, r, y, n - 1) == [McuBlock(s, image, 0, r, y, n - 1, 0, 0)] by {
        OneBlock(s, image, r, y, n - 1);
      }
    }
  }

  lemma OneBlock(s: Scan, image: Image, r: nat, y: nat, x: nat)
    requires s.Valid() && Covers(s.f, image) && |s.cur| == 1
    ensures McuAt(s, image, r, y, x) == [McuBlock(s, image, 0, r, y, x, 0, 0)]
  {
    hide McuBlock;
    assert CompBlocks(s, image, 0, r, y, x, 1) == CompBlocks(s, image, 0, r, y, x, 0) + RowBlocks(s, image, 0, r, y, x, 0, 1);
    assert McuBlocks(s, image, r, y, x, 1) == McuBlocks(s, image, r, y, x, 0) + CompBlocks(s, image, 0, r, y, x, 1);
  }

  lemma {:induction false} SingleRows(s: Scan, image: Image, r: nat, n: nat)
    requires s.Valid() && Covers(s.f, image) && |s.cur| == 1 && r < s.f.TotalIMcuRows() && n <= s.McuRows(r)
    requires s.Top(0, r, 0) <= s.f.HeightInBlocks(s.cur[0])
    requires IMcuRows(s, image, r) == Raster(image[s.cur[0]], s.Top(0, r, 0))
    ensures s.Top(0, r, n) <= s.f.HeightInBlocks(s.cur[0])
    ensures IMcuRows(s, image, r) + McuRowsOf(s, image, r, n) == Raster(image[s.cur[0]], s.Top(0, r, n))
  {
    hide DivRoundUp, McuRow, Singles, IMcuRows, Frame.TotalIMcuRows;
    if n > 0 {
      SingleRows(s, image, r, n - 1);
      Rows(s, 0, r, n - 1, 0);
      SingleRow(s, image, r, n - 1, s.McusPerRow());
      var rows := image[s.cur[0]];
      assert Raster(rows, s.Top(0, r, n)) == Raster(rows, s.Top(0, r, n - 1)) + Singles(rows[s.Top(0, r, n - 1)], s.McusPerRow());
      assert IMcuRows(s, image, r) + McuRowsOf(s, image, r, n)
             == (IMcuRows(s, image, r) + McuRowsOf(s, image, r, n - 1)) + McuRow(s, image, r, n - 1, s.McusPerRow());
    } else {
      assert IMcuRows(s, image, r) + McuRowsOf(s, image, r, 0) == IMcuRows(s, image, r);
    }
  }

  lemma {:induction false} SingleIMcuRows(s: Scan, image: Image, n: nat)
    requires s.Valid() && Covers(s.f, image) && |s.cur| == 1 && n <= s.f.TotalIMcuRows()
    ensures var c := s.cur[0];
            var rows := Min(n * s.f.comps[c].v, s.f.HeightInBlocks(c));
            IMcuRows(s, image, n) == Raster(image[c], rows) && (n == s.f.TotalIMcuRows() ==> rows == s.f.HeightInBlocks(c))
  {
    hide DivRoundUp, McuRow, Singles, McuRowsOf, Raster;
    var c := s.cur[0];
    var v, height, total := s.f.comps[c].v, s.f.HeightInBlocks(c), s.f.TotalIMcuRows();
    if n == 0 {
      RasterStart(image[c]);
      Nested(s.f.height, v, s.f.MaxV());
    } else {
      var r := n - 1;
      SingleIMcuRows(s, image, r);
      Nested(s.f.height, v, s.f.MaxV());
      GroupEnds(v, r, total);
      SingleRows(s, image, r, s.McuRows(r));
    }
  }

  lemma RasterStart(rows: seq<seq<Block>>)
    ensures Raster(rows, 0) == []
  {
  }

  /** With one component only, every block of the image is an MCU, row by row; no block is
      added, whatever the sampling factors. */
  lemma SingleStream(s: Scan, image: Image)
    requires s.Valid() && Covers(s.f, image) && |s.cur| == 1
    ensures Stream(s, image) == Raster(image[s.cur[0]], |image[s.cur[0]]|)
  {
    hide DivRoundUp, IMcuRows, Raster;
    SingleIMcuRows(s, image, s.f.TotalIMcuRows());
  }
}
