/** The coefficient controller of jccoefct.c with buffers for whole components: a first pass
  fills them, dummy blocks included, and every scan reads them. */
module CoefBuffer {
  import opened JpegLimits
  import opened AcRefineModel
  import opened CoefDims
  import opened CoefStream
  import opened CoefController

  /** Blocks of component `c` across and down, both rounded up to whole groups. */
  function PaddedWidth(f: Frame, c: nat): nat
    requires f.Valid() && c < |f.comps|
  {
    DivRoundUp(f.WidthInBlocks(c), f.comps[c].h) * f.comps[c].h
  }

  function PaddedHeight(f: Frame, c: nat): nat
    requires f.Valid() && c < |f.comps|
  {
    DivRoundUp(f.HeightInBlocks(c), f.comps[c].v) * f.comps[c].v
  }

  lemma Widths(f: Frame, c: nat)
    requires f.Valid() && c < |f.comps|
    ensures var h, width := f.comps[c].h, f.WidthInBlocks(c);
            && PaddedWidth(f, c) == f.Across() * h && f.Across() >= 1 && width >= 1
            && (f.Across() - 1) * h < width <= f.Across() * h == (f.Across() - 1) * h + h
            && LastOf(width, h) == width - (f.Across() - 1) * h
  {
    hide DivRoundUp, Frame.MaxH, LastOf;
    Nested(f.width, f.comps[c].h, f.MaxH());
    GroupEnds(f.comps[c].h, f.Across() - 1, f.Across());
  }

  lemma Heights(f: Frame, c: nat)
    requires f.Valid() && c < |f.comps|
    ensures var v, height := f.comps[c].v, f.HeightInBlocks(c);
            && PaddedHeight(f, c) == f.TotalIMcuRows() * v && f.TotalIMcuRows() >= 1 && height >= 1
            && (f.TotalIMcuRows() - 1) * v < height <= f.TotalIMcuRows() * v
            && LastOf(height, v) == height - (f.TotalIMcuRows() - 1) * v
  {
    hide DivRoundUp, Frame.MaxV, LastOf;
    Nested(f.height, f.comps[c].v, f.MaxV());
  }

  lemma Sizes(f: Frame, c: nat)
    requires f.Valid() && c < |f.comps|
    ensures var h, v, width, height := f.comps[c].h, f.comps[c].v, f.WidthInBlocks(c), f.HeightInBlocks(c);
            && PaddedWidth(f, c) == f.Across() * h && PaddedHeight(f, c) == f.TotalIMcuRows() * v
            && f.Across() >= 1 && (f.Across() - 1) * h < width <= f.Across() * h && width >= 1
            && f.TotalIMcuRows() >= 1 && (f.TotalIMcuRows() - 1) * v < height <= f.TotalIMcuRows() * v && height >= 1
            && LastOf(height, v) == height - (f.TotalIMcuRows() - 1) * v && LastOf(width, h) == width - (f.Across() - 1) * h
            && f.Across() * h == (f.Across() - 1) * h + h
  {
    hide DivRoundUp, Frame.MaxH, Frame.MaxV, LastOf, PaddedWidth, PaddedHeight, Frame.Across, Frame.TotalIMcuRows,
         Frame.WidthInBlocks, Frame.HeightInBlocks;
    Widths(f, c);
    Heights(f, c);
  }

  /** What a buffer holds: the groups are as wide as in an interleaved MCU. */
  function Pad(f: Frame, image: Image, c: nat, row: nat, col: nat): Block
    requires Covers(f, image) && c < |f.comps|
  {
    SizesPositive(f, c);
    BlockAt(f, image, c, row, col, col / f.comps[c].h * f.comps[c].h + f.comps[c].h - 1)
  }

  /** The rows from `from` up to `to` are there. */
  ghost predicate RowsFilled(f: Frame, image: Image, c: nat, a: array2<Block>, from: nat, to: nat)
    requires Covers(f, image) && c < |f.comps|
    reads a
  {
    && a.Length0 == PaddedHeight(f, c) && a.Length1 == PaddedWidth(f, c) && to <= a.Length0
    && forall row, col | from <= row < to && 0 <= col < a.Length1 :: a[row, col] == Pad(f, image, c, row, col)
  }

  /** The dummy blocks at the right edge repeat the last DC value. */
  lemma PadRight(f: Frame, image: Image, c: nat, row: nat, col: nat)
    requires Covers(f, image) && c < |f.comps| && row < f.HeightInBlocks(c) && col < PaddedWidth(f, c)
    ensures Pad(f, image, c, row, col)
            == if col < f.WidthInBlocks(c) then image[c][row][col] else Dummy(image[c][row][f.WidthInBlocks(c) - 1][0])
  {
    hide DivRoundUp, Frame.MaxH, Frame.MaxV;
    Sizes(f, c);
  }

  /** Those below the image repeat the last DC value of the group above. */
  lemma PadBelow(f: Frame, image: Image, c: nat, row: nat, k: nat, i: nat)
    requires Covers(f, image) && c < |f.comps| && f.HeightInBlocks(c) <= row && i < f.comps[c].h && row > 0
    ensures Pad(f, image, c, row, k * f.comps[c].h + i)
            == Dummy(Pad(f, image, c, row - 1, k * f.comps[c].h + f.comps[c].h - 1)[0])
  {
    hide DivRoundUp, Frame.HeightInBlocks, Frame.WidthInBlocks;
    SizesPositive(f, c);
    GroupStart(f.comps[c].h, k, i);
    GroupStart(f.comps[c].h, k, f.comps[c].h - 1);
  }

  /** A row of real blocks with the dummies behind it. */
  method FillRealRow(f: Frame, image: Image, c: nat, a: array2<Block>, row: nat)
    requires Covers(f, image) && c < |f.comps| && row < f.HeightInBlocks(c) <= a.Length0
    requires a.Length1 == PaddedWidth(f, c)
    modifies a
    ensures forall i, j | 0 <= i < a.Length0 && 0 <= j < a.Length1 ::
              a[i, j] == if i == row then Pad(f, image, c, row, j) else old(a[i, j])
  {
    hide DivRoundUp, Pad, Frame.HeightInBlocks, Frame.WidthInBlocks, PaddedWidth, LastOf;
    Sizes(f, c);
    var across := f.WidthInBlocks(c);
    var ndummy := Missing(f, c);
    for k := 0 to across
      invariant forall i, j | 0 <= i < a.Length0 && 0 <= j < a.Length1 ::
                  a[i, j] == if i == row && j < k then Pad(f, image, c, row, j) else old(a[i, j])
    {
      a[row, k] := image[c][row][k];
      PadRight(f, image, c, row, k);
    }
    if ndummy > 0 { FillRight(f, image, c, a, row, ndummy); }
  }

  /** Dummy blocks at the right edge. */
  method FillRight(f: Frame, image: Image, c: nat, a: array2<Block>, row: nat, ndummy: nat)
    requires Covers(f, image) && c < |f.comps| && row < f.HeightInBlocks(c) <= a.Length0
    requires a.Length1 == PaddedWidth(f, c) == f.WidthInBlocks(c) + ndummy && f.WidthInBlocks(c) > 0
    requires a[row, f.WidthInBlocks(c) - 1] == Pad(f, image, c, row, f.WidthInBlocks(c) - 1)
    modifies a
    ensures forall i, j | 0 <= i < a.Length0 && 0 <= j < a.Length1 ::
              a[i, j] == if i == row && j >= f.WidthInBlocks(c) then Pad(f, image, c, row, j) else old(a[i, j])
  {
    hide DivRoundUp, Pad, Frame.HeightInBlocks, Frame.WidthInBlocks, PaddedWidth;
    var across := f.WidthInBlocks(c);
    PadRight(f, image, c, row, across - 1);
    var lastDC := a[row, across - 1][0];
    for k := 0 to ndummy
      invariant forall i, j | 0 <= i < a.Length0 && 0 <= j < a.Length1 ::
                  a[i, j] == if i == row && across <= j < across + k then Pad(f, image, c, row, j) else old(a[i, j])
    {
      a[row, across + k] := Dummy(lastDC);
      PadRight(f, image, c, row, across + k);
    }
  }

  /** How many dummy blocks there are at the end of a row. */
  method Missing(f: Frame, c: nat) returns (ndummy: nat)
    requires f.Valid() && c < |f.comps|
    ensures f.WidthInBlocks(c) + ndummy == PaddedWidth(f, c)
  {
    hide DivRoundUp, Frame.HeightInBlocks, Frame.WidthInBlocks, PaddedWidth;
    Sizes(f, c);
    ndummy := f.WidthInBlocks(c) % f.comps[c].h;
    if ndummy > 0 { ndummy := f.comps[c].h - ndummy; }
  }

  /** `jzero_far` of a row. */
  method ClearRow(a: array2<Block>, row: nat)
    requires row < a.Length0
    modifies a
    ensures forall i, j | 0 <= i < a.Length0 && 0 <= j < a.Length1 :: a[i, j] == if i == row then Dummy(0) else old(a[i, j])
  {
    for k := 0 to a.Length1
      invariant forall i, j | 0 <= i < a.Length0 && 0 <= j < a.Length1 ::
                  a[i, j] == if i == row && j < k then Dummy(0) else old(a[i, j])
    {
      a[row, k] := Dummy(0);
    }
  }

  /** The dummy blocks of one group, from the last block of the group above. */
  method FillGroup(f: Frame, image: Image, c: nat, a: array2<Block>, row: nat, mcu: nat, at: nat)
    requires Covers(f, image) && c < |f.comps| && 0 < row < a.Length0 && f.HeightInBlocks(c) <= row
    requires at == mcu * f.comps[c].h && at + f.comps[c].h <= a.Length1
    requires forall j | at <= j < at + f.comps[c].h :: a[row, j] == Dummy(0)
    requires a[row - 1, at + f.comps[c].h - 1] == Pad(f, image, c, row - 1, at + f.comps[c].h - 1)
    modifies a
    ensures forall i, j | 0 <= i < a.Length0 && 0 <= j < a.Length1 ::
              a[i, j] == if i == row && at <= j < at + f.comps[c].h then Pad(f, image, c, row, j) else old(a[i, j])
  {
    hide DivRoundUp, Pad, Frame.HeightInBlocks, Frame.WidthInBlocks;
    var h := f.comps[c].h;
    var lastDC := a[row - 1, at + h - 1][0];
    for bi := 0 to h
      invariant forall i, j | 0 <= i < a.Length0 && 0 <= j < a.Length1 ::
                  a[i, j] == if i == row && at <= j < at + bi then Pad(f, image, c, row, j) else old(a[i, j])
    {
      PadBelow(f, image, c, row, mcu, bi);
      a[row, at + bi] := a[row, at + bi][0 := lastDC];
      assert a[row, at + bi] == Dummy(lastDC);
    }
  }

  /** A row of dummy blocks, group by group, from the row above. */
  method FillBottomRow(f: Frame, image: Image, c: nat, a: array2<Block>, row: nat)
    requires Covers(f, image) && c < |f.comps| && 0 < row < a.Length0 && f.HeightInBlocks(c) <= row
    requires RowsFilled(f, image, c, a, row - 1, row)
    modifies a
    ensures forall i, j | 0 <= i < a.Length0 && 0 <= j < a.Length1 ::
              a[i, j] == if i == row then Pad(f, image, c, row, j) else old(a[i, j])
  {
    hide DivRoundUp, Pad, Frame.HeightInBlocks, Frame.WidthInBlocks, PaddedWidth, PaddedHeight, LastOf, Dummy;
    Sizes(f, c);
    var h, across := f.comps[c].h, f.Across();
    ClearRow(a, row);
    var at := 0;
    for mcu := 0 to across
      invariant at == mcu * h && at <= a.Length1
      invariant forall i, j | 0 <= i < a.Length0 && 0 <= j < a.Length1 ::
                  a[i, j] == if i != row then old(a[i, j]) else if j < at then Pad(f, image, c, row, j) else Dummy(0)
    {
      GroupEnds(h, mcu, across);
      FillGroup(f, image, c, a, row, mcu, at);
      at := at + h;
    }
  }

  /** The rows of component `c` in iMCU row `r`. */
  method FillComponent(f: Frame, image: Image, c: nat, a: array2<Block>, r: nat)
    requires Covers(f, image) && c < |f.comps| && r < f.TotalIMcuRows()
    requires RowsFilled(f, image, c, a, 0, r * f.comps[c].v)
    modifies a
    ensures (r + 1) * f.comps[c].v <= a.Length0 && RowsFilled(f, image, c, a, 0, (r + 1) * f.comps[c].v)
  {
    hide DivRoundUp, Pad, Frame.HeightInBlocks, Frame.WidthInBlocks, PaddedWidth, PaddedHeight, Frame.TotalIMcuRows;
    Sizes(f, c);
    var v := f.comps[c].v;
    GroupEnds(v, r, f.TotalIMcuRows());
    var rows := v;
    if r == f.TotalIMcuRows() - 1 {
      rows := f.HeightInBlocks(c) % v;
      if rows == 0 { rows := v; }
    }
    var top := r * v;
    for k := 0 to rows
      invariant RowsFilled(f, image, c, a, 0, top + k)
    {
      FillRealRow(f, image, c, a, top + k);
    }
    for k := rows to v
      invariant RowsFilled(f, image, c, a, 0, top + k)
    {
      FillBottomRow(f, image, c, a, top + k);
    }
  }

  // ------------------------------------------------------------- sending the MCUs

  /** The buffers hold what belongs into the MCUs. */
  lemma PadIsMcu(s: Scan, image: Image, ci: nat, r: nat, y: nat, x: nat, yi: nat, xi: nat)
    requires s.Valid() && Covers(s.f, image) && ci < |s.cur| && r < s.f.TotalIMcuRows() && y < s.McuRows(r)
    requires x < s.McusPerRow() && yi < s.McuHeight(ci) && xi < s.McuWidth(ci)
    ensures Pad(s.f, image, s.cur[ci], s.Top(ci, r, y) + yi, s.Left(ci, x) + xi) == McuBlock(s, image, ci, r, y, x, yi, xi)
    ensures s.Left(ci, x) + xi < PaddedWidth(s.f, s.cur[ci])
    ensures s.Top(ci, r, y) + yi < (r + 1) * s.f.comps[s.cur[ci]].v
  {
    hide DivRoundUp, LastOf;
    var c := s.cur[ci];
    Sizes(s.f, c);
    Rows(s, ci, r, y, yi);
    Columns(s, ci, x);
    if s.Interleaved() {
      GroupStart(s.f.comps[c].h, x, xi);
      GroupEnds(s.f.comps[c].h, x, s.f.Across());
    }
  }

  class FullImage {
    const f: Frame
    const wholeImage: seq<array2<Block>>
    const buffer: array<Block>
    var s: Scan
    var iMcuRowNum: nat
    var mcuCtr: nat
    var mcuVertOffset: nat
    var mcuRowsPerIMcuRow: nat

    /** The buffers, and `start_pass_coef` for the first scan. */
    constructor (scan: Scan)
      requires scan.Valid()
      ensures Valid() && f == scan.f && s == scan && fresh(buffer) && At() == Place(0, 0, 0)
      ensures forall c | 0 <= c < |wholeImage| :: fresh(wholeImage[c])
    {
      f, s := scan.f, scan;
      var a := Buffers(scan.f);
      wholeImage := a;
      buffer := new Block[MAX_BLOCKS_IN_MCU](_ => Dummy(0));
      iMcuRowNum, mcuCtr, mcuVertOffset, mcuRowsPerIMcuRow := 0, 0, 0, scan.McuRows(0);
      RowsThere(scan, 0);
    }

    ghost predicate Valid()
      reads this
    {
      && s.Valid() && s.f == f && buffer.Length == MAX_BLOCKS_IN_MCU && mcuRowsPerIMcuRow == s.McuRows(iMcuRowNum)
      && Inside(s, At()) && Sized(f, wholeImage)
    }

    function At(): Place
      reads this
    {
      Place(iMcuRowNum, mcuVertOffset, mcuCtr)
    }

    /** The first `n` iMCU rows of all components are in the buffers. */
    ghost predicate Filled(image: Image, n: nat)
      requires Covers(f, image) && |wholeImage| == |f.comps|
      reads wholeImage
    {
      FilledFor(f, image, wholeImage, |f.comps|, n)
    }

    /** Row `yi` of a component, from its buffer. */
    method ReadRow(ghost image: Image, ci: nat, yoffset: nat, x: nat, yi: nat, blkn: nat, ghost made: Blocks)
      requires Valid() && Covers(f, image) && iMcuRowNum < f.TotalIMcuRows() && Filled(image, iMcuRowNum + 1)
      requires ci < |s.cur| && x < s.McusPerRow()
      requires yoffset < mcuRowsPerIMcuRow && yi < s.McuHeight(ci) && blkn + s.McuWidth(ci) <= MAX_BLOCKS_IN_MCU
      requires blkn == |made| && Holds(buffer, made)
      modifies buffer
      ensures Holds(buffer, made + RowBlocks(s, image, ci, iMcuRowNum, yoffset, x, yi, s.McuWidth(ci)))
    {
      hide Scan.McuWidth, Scan.McuHeight, Scan.Top, Scan.Left, Scan.McusPerRow, Scan.McuRows, DivRoundUp, Pad, McuBlock,
           Frame.HeightInBlocks, Frame.WidthInBlocks, Scan.BlocksBefore, PaddedWidth, PaddedHeight, Frame.TotalIMcuRows;
      var a := wholeImage[s.cur[ci]];
      assert RowsFilled(f, image, s.cur[ci], a, 0, (iMcuRowNum + 1) * f.comps[s.cur[ci]].v);
      var row, start := s.Top(ci, iMcuRowNum, yoffset) + yi, s.Left(ci, x);
      for xindex := 0 to s.McuWidth(ci)
        invariant Holds(buffer, made + RowBlocks(s, image, ci, iMcuRowNum, yoffset, x, yi, xindex))
      {
        PadIsMcu(s, image, ci, iMcuRowNum, yoffset, x, yi, xindex);
        ghost var so := made + RowBlocks(s, image, ci, iMcuRowNum, yoffset, x, yi, xindex);
        buffer[blkn + xindex] := a[row, start + xindex];
        assert so + [buffer[blkn + xindex]] == made + RowBlocks(s, image, ci, iMcuRowNum, yoffset, x, yi, xindex + 1);
      }
    }

    /** The blocks of one MCU. */
    method ReadMcu(ghost image: Image, yoffset: nat, x: nat)
      requires Valid() && Covers(f, image) && iMcuRowNum < f.TotalIMcuRows() && Filled(image, iMcuRowNum + 1)
      requires x < s.McusPerRow() && yoffset < mcuRowsPerIMcuRow
      modifies buffer
      ensures buffer[..s.BlocksBefore(|s.cur|)] == McuAt(s, image, iMcuRowNum, yoffset, x)
    {
      hide Scan.McuWidth, Scan.McuHeight, Scan.McusPerRow, Scan.McuRows, DivRoundUp, CompBlocks, Holds, RowBlocks, Filled;
      var blkn := 0;
      ghost var r := iMcuRowNum;
      NothingHeld(buffer);
      for ci := 0 to |s.cur|
        invariant blkn == s.BlocksBefore(ci) && Holds(buffer, McuBlocks(s, image, r, yoffset, x, ci))
      {
        ghost var made := McuBlocks(s, image, r, yoffset, x, ci);
        NoRows(s, image, ci, r, yoffset, x);
        assert made + CompBlocks(s, image, ci, r, yoffset, x, 0) == made;
        for yi := 0 to s.McuHeight(ci)
          invariant blkn == s.BlocksBefore(ci) + Stacked(s.McuWidth(ci), yi)
          invariant Holds(buffer, made + CompBlocks(s, image, ci, r, yoffset, x, yi))
        {
          RowFits(s, ci, yi);
          ghost var so := CompBlocks(s, image, ci, r, yoffset, x, yi);
          ReadRow(image, ci, yoffset, x, yi, blkn, made + so);
          NextBlocks(s, image, ci, r, yoffset, x, yi);
          assert made + (so + RowBlocks(s, image, ci, r, yoffset, x, yi, s.McuWidth(ci)))
                 == made + so + RowBlocks(s, image, ci, r, yoffset, x, yi, s.McuWidth(ci));
          blkn := blkn + s.McuWidth(ci);
        }
      }
      WholeMcu(s, image, buffer, r, yoffset, x);
    }

    /** `start_iMCU_row`. */
    method StartIMcuRow()
      requires s.Valid()
      modifies this`mcuRowsPerIMcuRow, this`mcuCtr, this`mcuVertOffset
      ensures mcuRowsPerIMcuRow == s.McuRows(iMcuRowNum) && mcuCtr == 0 && mcuVertOffset == 0
    {
      if |s.cur| > 1 {
        mcuRowsPerIMcuRow := 1;
      } else if iMcuRowNum < s.f.TotalIMcuRows() - 1 {
        mcuRowsPerIMcuRow := s.f.comps[s.cur[0]].v;
      } else {
        mcuRowsPerIMcuRow := s.LastRowHeight(0);
      }
      mcuCtr, mcuVertOffset := 0, 0;
    }

    /** `start_pass_coef`, for a later scan. */
    method StartPass(scan: Scan)
      requires Valid() && scan.Valid() && scan.f == f
      modifies this
      ensures Valid() && s == scan && At() == Place(0, 0, 0)
    {
      s, iMcuRowNum := scan, 0;
      StartIMcuRow();
      RowsThere(scan, 0);
    }

    /** `compress_output`: the rest of an iMCU row, from the buffers. */
    method CompressOutput(ghost image: Image, encoder: EntropyEncoder) returns (done: bool)
      requires Valid() && Covers(f, image) && iMcuRowNum < f.TotalIMcuRows() && Filled(image, iMcuRowNum + 1)
      requires Sent(s, image, encoder.received, At())
      modifies this`iMcuRowNum, this`mcuCtr, this`mcuVertOffset, this`mcuRowsPerIMcuRow, buffer, encoder
      ensures Valid() && Sent(s, image, encoder.received, At()) && Passed(encoder, done)
      ensures if done then At() == Place(old(iMcuRowNum) + 1, 0, 0) else iMcuRowNum == old(iMcuRowNum)
    {
      hide Upto, McuAt, Scan.McuRows, Scan.McusPerRow, DivRoundUp, Scan.McuWidth, Sized, Filled;
      var yoffset := mcuVertOffset;
      while yoffset < mcuRowsPerIMcuRow
        invariant Valid() && iMcuRowNum == old(iMcuRowNum) && yoffset <= mcuRowsPerIMcuRow
        invariant Sent(s, image, encoder.received, Place(iMcuRowNum, yoffset, mcuCtr))
        invariant |encoder.received| + encoder.room == |old(encoder.received)| + old(encoder.room)
        invariant yoffset == mcuRowsPerIMcuRow ==> mcuCtr == 0
      {
        var x := mcuCtr;
        while x < s.McusPerRow()
          invariant Valid() && iMcuRowNum == old(iMcuRowNum) && x <= s.McusPerRow()
          invariant Sent(s, image, encoder.received, Place(iMcuRowNum, yoffset, x))
          invariant |encoder.received| + encoder.room == |old(encoder.received)| + old(encoder.room)
        {
          ReadMcu(image, yoffset, x);
          var mcu := buffer[..s.BlocksBefore(|s.cur|)];
          NextMcu(s, image, iMcuRowNum, yoffset, x);
          var ok := encoder.EncodeMcu(mcu);
          if !ok {
            mcuVertOffset, mcuCtr := yoffset, x;
            return false;
          }
          x := x + 1;
        }
        NextRow(s, image, iMcuRowNum, yoffset);
        mcuCtr := 0;
        yoffset := yoffset + 1;
      }
      NextIMcuRow(s, image, iMcuRowNum);
      iMcuRowNum := iMcuRowNum + 1;
      StartIMcuRow();
      RowsThere(s, iMcuRowNum);
      done := true;
    }

    /** `compress_first_pass`: an iMCU row of all components goes into the buffers, and what
        belongs to the scan is sent. */
    method CompressFirstPass(image: Image, encoder: EntropyEncoder) returns (done: bool)
      requires Valid() && Covers(f, image) && iMcuRowNum < f.TotalIMcuRows() && Filled(image, iMcuRowNum)
      requires Sent(s, image, encoder.received, At())
      modifies this`iMcuRowNum, this`mcuCtr, this`mcuVertOffset, this`mcuRowsPerIMcuRow, buffer, encoder, wholeImage
      ensures Valid() && Sent(s, image, encoder.received, At()) && Passed(encoder, done)
      ensures Filled(image, iMcuRowNum)
      ensures if done then At() == Place(old(iMcuRowNum) + 1, 0, 0) else iMcuRowNum == old(iMcuRowNum)
    {
      hide Upto, Scan.McuRows, Scan.McusPerRow, DivRoundUp, FilledFor, Inside;
      FillRows(f, image, wholeImage, iMcuRowNum);
      done := CompressOutput(image, encoder);
      if !done { FewerFilled(f, image, wholeImage, iMcuRowNum); }
    }
  }

  /** The buffers are of the right size, and not the same. */
  ghost predicate Sized(f: Frame, a: seq<array2<Block>>) {
    && f.Valid() && |a| == |f.comps|
    && (forall c | 0 <= c < |a| :: a[c].Length0 == PaddedHeight(f, c) && a[c].Length1 == PaddedWidth(f, c))
    && forall c, d | 0 <= c < d < |a| :: a[c] != a[d]
  }

  /** The first `n` iMCU rows of the first `count` components are there. */
  ghost predicate FilledFor(f: Frame, image: Image, a: seq<array2<Block>>, count: nat, n: nat)
    requires Covers(f, image) && |a| == |f.comps|
    reads a
  {
    forall c | 0 <= c < count && c < |a| :: RowsFilled(f, image, c, a[c], 0, n * f.comps[c].v)
  }

  method Buffers(f: Frame) returns (a: seq<array2<Block>>)
    requires f.Valid()
    ensures Sized(f, a) && forall c | 0 <= c < |a| :: fresh(a[c])
  {
    hide DivRoundUp, PaddedWidth, PaddedHeight;
    a := [];
    for c := 0 to |f.comps|
      invariant |a| == c && forall d | 0 <= d < c :: fresh(a[d])
      invariant forall d | 0 <= d < c :: a[d].Length0 == PaddedHeight(f, d) && a[d].Length1 == PaddedWidth(f, d)
      invariant forall d, e | 0 <= d < e < c :: a[d] != a[e]
    {
      var one := new Block[PaddedHeight(f, c), PaddedWidth(f, c)]((_, _) => Dummy(0));
      a := a + [one];
    }
  }

  /** iMCU row `r` of all components. */
  method FillRows(f: Frame, image: Image, a: seq<array2<Block>>, r: nat)
    requires Covers(f, image) && Sized(f, a) && r < f.TotalIMcuRows() && FilledFor(f, image, a, |a|, r)
    modifies a
    ensures FilledFor(f, image, a, |a|, r + 1)
  {
    hide RowsFilled, DivRoundUp, PaddedWidth, PaddedHeight, Frame.TotalIMcuRows, Frame.HeightInBlocks, Frame.WidthInBlocks;
    for c := 0 to |f.comps|
      invariant FilledFor(f, image, a, c, r + 1)
      invariant forall d | c <= d < |a| :: RowsFilled(f, image, d, a[d], 0, r * f.comps[d].v)
    {
      FillComponent(f, image, c, a[c], r);
    }
  }

  lemma FewerFilled(f: Frame, image: Image, a: seq<array2<Block>>, r: nat)
    requires Covers(f, image) && |a| == |f.comps| && FilledFor(f, image, a, |a|, r + 1)
    ensures FilledFor(f, image, a, |a|, r)
  {
    forall c | 0 <= c < |a| ensures RowsFilled(f, image, c, a[c], 0, r * f.comps[c].v) {
      GroupEnds(f.comps[c].v, r, r + 1);
    }
  }
}
