/** What the blocks that are added at the edges of an image cost. */
module DummyBlocks {
  import opened JpegLimits
  import opened CodeEvents
  import opened Zigzag
  import opened AcRefineModel
  import opened AcFirstModel
  import opened BaseModel
  import opened CoefDims
  import opened CoefStream
  import opened Wrappers

  /** A block without AC coefficients has nothing to send but its end. */
  lemma {:induction false} NoCoefs(b: Block, k: nat)
    requires 1 <= k <= 64 && forall p | 1 <= p < 64 :: b[p] == 0
    ensures FirstNonzero(AC, b, k) == 64
    decreases 64 - k
  {
    hide Natural;
    if k < 64 {
      OnlyDcFirst(k);
      assert Size(AC, b, k) == 0;
      NoCoefs(b, k + 1);
    }
  }

  /** In a sequential scan a block outside the image takes two symbols only: no difference from
      the block before it, and the end of the block. */
  lemma DummyCosts(s: Scan, image: Image, ci: nat, r: nat, y: nat, x: nat, yi: nat, xi: nat, l: Layout, rest: Events)
    requires s.Valid() && Covers(s.f, image) && ci < |s.cur| && r < s.f.TotalIMcuRows() && y < s.McuRows(r)
    requires x < s.McusPerRow() && yi < s.McuHeight(ci) && xi < s.McuWidth(ci) && l.Valid() && ci < |l.dcTables|
    requires s.Top(ci, r, y) + yi >= s.f.HeightInBlocks(s.cur[ci]) || s.Left(ci, x) + xi >= s.f.WidthInBlocks(s.cur[ci])
    ensures yi > 0 || xi > 0
    ensures var last := if xi > 0 then McuBlock(s, image, ci, r, y, x, yi, xi - 1)
                        else McuBlock(s, image, ci, r, y, x, yi - 1, s.McuWidth(ci) - 1);
            BlockPlan(l, ci, McuBlock(s, image, ci, r, y, x, yi, xi), last[0], rest)
            == Cons(Symbol(l.dcTables[ci], 0), Cons(Symbol(NUM_HUFF_TBLS + l.acTables[ci], 0), rest))
  {
    hide McuBlock, Scan.Top, Scan.Left, Scan.McuWidth, Scan.McuHeight, Frame.HeightInBlocks, Frame.WidthInBlocks, Scan.McuRows,
         Scan.McusPerRow, Frame.TotalIMcuRows, Sent, FirstNonzero;
    DummyRepeats(s, image, ci, r, y, x, yi, xi);
    NoCoefs(McuBlock(s, image, ci, r, y, x, yi, xi), 1);
  }
}
