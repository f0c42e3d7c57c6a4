/** The coefficient controller of jctrans.c: the blocks are there already, and dummy blocks
  are made on the fly in a workspace of their own. */
module TransController {
  import opened JpegLimits
  import opened AcRefineModel
  import opened CoefDims
  import opened CoefStream
  import opened CoefController

  class Transcoder {
    const s: Scan
    const wholeImage: Image
    const dummyBuffer: array<Block>
    const mcuBuffer: array<Block>
    var iMcuRowNum: nat
    var mcuCtr: nat
    var mcuVertOffset: nat
    var mcuRowsPerIMcuRow: nat

    /** `transencode_coef_controller` and `start_pass_coef`. */
    constructor (scan: Scan, image: Image)
      requires scan.Valid() && Covers(scan.f, image)
      ensures Valid() && s == scan && wholeImage == image && fresh(dummyBuffer) && fresh(mcuBuffer) && At() == Place(0, 0, 0)
    {
      s, wholeImage := scan, image;
      dummyBuffer := new Block[MAX_BLOCKS_IN_MCU](_ => Dummy(0));
      mcuBuffer := new Block[MAX_BLOCKS_IN_MCU](_ => Dummy(0));
      iMcuRowNum, mcuCtr, mcuVertOffset, mcuRowsPerIMcuRow := 0, 0, 0, scan.McuRows(0);
      RowsThere(scan, 0);
    }

    ghost predicate Valid()
      reads this, dummyBuffer
    {
      && s.Valid() && Covers(s.f, wholeImage) && mcuRowsPerIMcuRow == s.McuRows(iMcuRowNum) && Inside(s, At())
      && mcuBuffer.Length == MAX_BLOCKS_IN_MCU && Clear()
    }

    /** The AC coefficients of the workspace stay zero. */
    ghost predicate Clear()
      reads dummyBuffer
    {
      && dummyBuffer.Length == mcuBuffer.Length == MAX_BLOCKS_IN_MCU && dummyBuffer != mcuBuffer
      && forall k | 0 <= k < dummyBuffer.Length :: dummyBuffer[k] == Dummy(dummyBuffer[k][0])
    }

    function At(): Place
      reads this
    {
      Place(iMcuRowNum, mcuVertOffset, mcuCtr)
    }

    /** Dummy blocks, each with the DC value of the one before. */
    method FillIn(at: nat, count: nat)
      requires Clear() && at + count <= MAX_BLOCKS_IN_MCU && (count > 0 ==> at > 0)
      modifies dummyBuffer, mcuBuffer
      ensures Clear()
      ensures forall k | 0 <= k < MAX_BLOCKS_IN_MCU ::
                mcuBuffer[k] == if at <= k < at + count then Dummy(old(mcuBuffer[at - 1])[0]) else old(mcuBuffer[k])
    {
      for k := 0 to count
        invariant Clear()
        invariant forall j | 0 <= j < MAX_BLOCKS_IN_MCU ::
                    mcuBuffer[j] == if at <= j < at + k then Dummy(old(mcuBuffer[at - 1])[0]) else old(mcuBuffer[j])
      {
        var blkn := at + k;
        dummyBuffer[blkn] := dummyBuffer[blkn][0 := mcuBuffer[blkn - 1][0]];
        assert dummyBuffer[blkn] == Dummy(old(mcuBuffer[at - 1])[0]);
        mcuBuffer[blkn] := dummyBuffer[blkn];
      }
    }

    /** Row `yi` of a component. */
    method MakeRow(ci: nat, yoffset: nat, x: nat, yi: nat, blkn: nat, ghost made: Blocks)
      requires Valid() && iMcuRowNum < s.f.TotalIMcuRows() && ci < |s.cur| && x < s.McusPerRow()
      requires yoffset < mcuRowsPerIMcuRow && yi < s.McuHeight(ci) && blkn + s.McuWidth(ci) <= MAX_BLOCKS_IN_MCU
      requires blkn == |made| && Holds(mcuBuffer, made)
      requires yi > 0 ==> blkn > 0 && s.McuWidth(ci) > 0
      requires yi > 0 ==>
                 made[blkn - 1] == RowBlocks(s, wholeImage, ci, iMcuRowNum, yoffset, x, yi - 1, s.McuWidth(ci))[s.McuWidth(ci) - 1]
      modifies dummyBuffer, mcuBuffer
      ensures Clear() && Holds(mcuBuffer, made + RowBlocks(s, wholeImage, ci, iMcuRowNum, yoffset, x, yi, s.McuWidth(ci)))
    {
      hide Scan.McuWidth, Scan.McuHeight, Scan.Top, Scan.Left, Scan.McusPerRow, Scan.McuRows, Scan.LastRowHeight, DivRoundUp,
           Frame.HeightInBlocks, Frame.WidthInBlocks, RowBlocks, Scan.BlockCount, Scan.BlocksBefore;
      ghost var blocks := RowBlocks(s, wholeImage, ci, iMcuRowNum, yoffset, x, yi, s.McuWidth(ci));
      var width, blockcnt := s.McuWidth(ci), s.BlockCount(ci, x);
      var xindex := 0;
      Rows(s, ci, iMcuRowNum, yoffset, yi);
      if iMcuRowNum < s.f.TotalIMcuRows() - 1 || yi + yoffset < s.LastRowHeight(ci) {
        RowInside(s, wholeImage, ci, iMcuRowNum, yoffset, x, yi, blockcnt);
        var row := wholeImage[s.cur[ci]][s.Top(ci, iMcuRowNum, yoffset) + yi];
        CopyBlocks(row, s.Left(ci, x), blkn, blockcnt);
        xindex := blockcnt;
      } else {
        RowOutside(s, wholeImage, ci, iMcuRowNum, yoffset, x, yi);
      }
      FillIn(blkn + xindex, width - xindex);
      JoinsOn(mcuBuffer, made, blocks);
    }

    /** Real blocks in a row. */
    method CopyBlocks(row: seq<Block>, start: nat, at: nat, count: nat)
      requires Clear() && start + count <= |row| && at + count <= MAX_BLOCKS_IN_MCU
      modifies mcuBuffer
      ensures Clear()
      ensures forall k | 0 <= k < MAX_BLOCKS_IN_MCU ::
                mcuBuffer[k] == if at <= k < at + count then row[start + k - at] else old(mcuBuffer[k])
    {
      for k := 0 to count
        invariant Clear()
        invariant forall j | 0 <= j < MAX_BLOCKS_IN_MCU ::
                    mcuBuffer[j] == if at <= j < at + k then row[start + j - at] else old(mcuBuffer[j])
      {
        mcuBuffer[at + k] := row[start + k];
      }
    }

    /** The blocks of one MCU. */
    method MakeMcu(yoffset: nat, x: nat)
      requires Valid() && iMcuRowNum < s.f.TotalIMcuRows() && x < s.McusPerRow() && yoffset < mcuRowsPerIMcuRow
      modifies dummyBuffer, mcuBuffer
      ensures Clear() && mcuBuffer[..s.BlocksBefore(|s.cur|)] == McuAt(s, wholeImage, iMcuRowNum, yoffset, x)
    {
      hide Scan.McuWidth, Scan.McuHeight, Scan.McusPerRow, Scan.McuRows, DivRoundUp, CompBlocks, Holds, RowBlocks, Clear;
      var blkn := 0;
      ghost var r := iMcuRowNum;
      NothingHeld(mcuBuffer);
      for ci := 0 to |s.cur|
        invariant Clear() && blkn == s.BlocksBefore(ci) && Holds(mcuBuffer, McuBlocks(s, wholeImage, r, yoffset, x, ci))
      {
        blkn := MakeComponent(ci, yoffset, x, blkn, McuBlocks(s, wholeImage, r, yoffset, x, ci));
      }
      WholeMcu(s, wholeImage, mcuBuffer, r, yoffset, x);
    }

    method MakeComponent(ci: nat, yoffset: nat, x: nat, first: nat, ghost made: Blocks) returns (blkn: nat)
      requires Valid() && iMcuRowNum < s.f.TotalIMcuRows() && ci < |s.cur| && x < s.McusPerRow()
      requires yoffset < mcuRowsPerIMcuRow && first == |made| == s.BlocksBefore(ci) && Holds(mcuBuffer, made)
      modifies dummyBuffer, mcuBuffer
      ensures Clear() && Holds(mcuBuffer, made + CompBlocks(s, wholeImage, ci, iMcuRowNum, yoffset, x, s.McuHeight(ci)))
      ensures blkn == first + Stacked(s.McuWidth(ci), s.McuHeight(ci))
    {
      hide Scan.McuWidth, Scan.McuHeight, Scan.McusPerRow, Scan.McuRows, DivRoundUp, CompBlocks, Holds, RowBlocks, Clear,
           Scan.BlocksBefore;
      blkn := first;
      ghost var r := iMcuRowNum;
      NoRows(s, wholeImage, ci, r, yoffset, x);
      assert made + CompBlocks(s, wholeImage, ci, r, yoffset, x, 0) == made;
      for yi := 0 to s.McuHeight(ci)
        invariant Clear() && blkn == first + Stacked(s.McuWidth(ci), yi)
        invariant Holds(mcuBuffer, made + CompBlocks(s, wholeImage, ci, r, yoffset, x, yi))
      {
        RowFits(s, ci, yi);
        Columns(s, ci, x);
        ghost var so := CompBlocks(s, wholeImage, ci, r, yoffset, x, yi);
        if yi > 0 { BlockBefore(s, wholeImage, ci, r, yoffset, x, yi); }
        MakeRow(ci, yoffset, x, yi, blkn, made + so);
        NextBlocks(s, wholeImage, ci, r, yoffset, x, yi);
        assert made + (so + RowBlocks(s, wholeImage, ci, r, yoffset, x, yi, s.McuWidth(ci)))
               == made + so + RowBlocks(s, wholeImage, ci, r, yoffset, x, yi, s.McuWidth(ci));
        blkn := blkn + s.McuWidth(ci);
      }
    }

    /** `start_iMCU_row`. */
    method StartIMcuRow()
      requires s.Valid()
      modifies this`mcuRowsPerIMcuRow, this`mcuCtr, this`mcuVertOffset
      ensures mcuRowsPerIMcuRow == s.McuRows(iMcuRowNum) && mcuCtr == 0 && mcuVertOffset == 0
    {
      if |s.cur| > 1 {
        mcuRowsPerIMcuRow := 1;
      } else if iMcuRowNum < s.f.TotalIMcuRows() - 1 {
        mcuRowsPerIMcuRow := s.f.comps[s.cur[0]].v;
      } else {
        mcuRowsPerIMcuRow := s.LastRowHeight(0);
      }
      mcuCtr, mcuVertOffset := 0, 0;
    }

    /** `compress_output`. */
    method CompressOutput(encoder: EntropyEncoder) returns (done: bool)
      requires Valid() && iMcuRowNum < s.f.TotalIMcuRows() && Sent(s, wholeImage, encoder.received, At())
      modifies this, dummyBuffer, mcuBuffer, encoder
      ensures Valid() && Sent(s, wholeImage, encoder.received, At()) && Passed(encoder, done)
      ensures if done then At() == Place(old(iMcuRowNum) + 1, 0, 0) else iMcuRowNum == old(iMcuRowNum)
    {
      hide Upto, McuAt, Scan.McuRows, Scan.McusPerRow, DivRoundUp, Scan.McuWidth, Clear;
      var yoffset := mcuVertOffset;
      while yoffset < mcuRowsPerIMcuRow
        invariant Valid() && iMcuRowNum == old(iMcuRowNum) && yoffset <= mcuRowsPerIMcuRow
        invariant Sent(s, wholeImage, encoder.received, Place(iMcuRowNum, yoffset, mcuCtr))
        invariant |encoder.received| + encoder.room == |old(encoder.received)| + old(encoder.room)
        invariant yoffset == mcuRowsPerIMcuRow ==> mcuCtr == 0
      {
        var x := mcuCtr;
        while x < s.McusPerRow()
          invariant Valid() && iMcuRowNum == old(iMcuRowNum) && x <= s.McusPerRow()
          invariant Sent(s, wholeImage, encoder.received, Place(iMcuRowNum, yoffset, x))
          invariant |encoder.received| + encoder.room == |old(encoder.received)| + old(encoder.room)
        {
          MakeMcu(yoffset, x);
          NextMcu(s, wholeImage, iMcuRowNum, yoffset, x);
          var mcu := mcuBuffer[..s.BlocksBefore(|s.cur|)];
          var ok := encoder.EncodeMcu(mcu);
          if !ok {
            mcuVertOffset, mcuCtr := yoffset, x;
            return false;
          }
          x := x + 1;
        }
        NextRow(s, wholeImage, iMcuRowNum, yoffset);
        mcuCtr := 0;
        yoffset := yoffset + 1;
      }
      NextIMcuRow(s, wholeImage, iMcuRowNum);
      iMcuRowNum := iMcuRowNum + 1;
      StartIMcuRow();
      RowsThere(s, iMcuRowNum);
      done := true;
    }
  }
}
