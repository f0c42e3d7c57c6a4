/** The coefficient controller of jccoefct.c in its single-pass form: each MCU is made just
  before it is sent. */
module CoefController {
  import opened JpegLimits
  import opened AcRefineModel
  import opened CoefDims
  import opened CoefStream

  /** What an entropy encoder is to the controllers: it accepts MCUs until it suspends. */
  class EntropyEncoder {
    var received: seq<Blocks>
    var room: nat                 // how many MCUs it will still accept

    constructor ()
      ensures received == [] && room == 0
    {
      received, room := [], 0;
    }

    /** Room for that many MCUs, instead of what was left. */
    method Grant(n: nat)
      modifies this
      ensures room == n && received == old(received)
    {
      room := n;
    }

    method EncodeMcu(mcu: Blocks) returns (ok: bool)
      modifies this
      ensures ok == (old(room) > 0)
      ensures received == old(received) + (if ok then [mcu] else []) && room == old(room) - (if ok then 1 else 0)
    {
      ok := room > 0;
      if ok { received, room := received + [mcu], room - 1; }
    }
  }

  /** Where a controller stands. */
  datatype Place = Place(r: nat, y: nat, x: nat)

  /** It stands inside the scan, or behind it. */
  predicate Inside(s: Scan, p: Place)
    requires s.Valid()
  {
    if p.r < s.f.TotalIMcuRows() then p.y < s.McuRows(p.r) && p.x < s.McusPerRow()
    else p == Place(s.f.TotalIMcuRows(), 0, 0)
  }

  lemma RowsThere(s: Scan, r: nat)
    requires s.Valid() && r <= s.f.TotalIMcuRows()
    ensures Inside(s, Place(r, 0, 0))
  {
    hide DivRoundUp, Frame.MaxH, Frame.MaxV, LastOf;
    Nested(s.f.width, s.f.comps[s.cur[0]].h, s.f.MaxH());
    LastBound(s.f.HeightInBlocks(s.cur[0]), s.f.comps[s.cur[0]].v);
  }

  /** Everything before that place has been sent. */
  predicate Sent(s: Scan, image: Image, received: seq<Blocks>, p: Place)
    requires s.Valid() && Covers(s.f, image)
  {
    received == Upto(s, image, p.r, p.y, p.x)
  }

  /** What a call that may be suspended does to the encoder. */
  twostate predicate Passed(encoder: EntropyEncoder, done: bool)
    reads encoder
  {
    && |encoder.received| + encoder.room == |old(encoder.received)| + old(encoder.room)
    && (!done ==> encoder.room == 0)
  }

  /** The samples behind the blocks: `forward_DCT` of `count` blocks in a row of the image. */
  method ForwardDct(image: Image, c: nat, buffer: array<Block>, at: nat, row: nat, col: nat, count: nat)
    requires c < |image| && row < |image[c]| && col + count <= |image[c][row]| && at + count <= buffer.Length
    modifies buffer
    ensures forall k | 0 <= k < buffer.Length ::
              buffer[k] == if at <= k < at + count then image[c][row][col + k - at] else old(buffer[k])
  {
    for k := 0 to count
      invariant forall j | 0 <= j < buffer.Length ::
                  buffer[j] == if at <= j < at + k then image[c][row][col + j - at] else old(buffer[j])
    {
      buffer[at + k] := image[c][row][col + k];
    }
  }

  /** `jzero_far`, and then each DC value that of the block before. */
  method FillDummies(buffer: array<Block>, at: nat, count: nat)
    requires 0 < at && at + count <= buffer.Length
    modifies buffer
    ensures forall k | 0 <= k < buffer.Length ::
              buffer[k] == if at <= k < at + count then Dummy(old(buffer[at - 1])[0]) else old(buffer[k])
  {
    for k := 0 to count
      invariant forall j | 0 <= j < buffer.Length ::
                  buffer[j] == if at <= j < at + k then Dummy(0) else old(buffer[j])
    {
      buffer[at + k] := Dummy(0);
    }
    for k := 0 to count
      invariant forall j | 0 <= j < buffer.Length ::
                  buffer[j] == if at <= j < at + k then Dummy(old(buffer[at - 1])[0])
                               else if at + k <= j < at + count then Dummy(0) else old(buffer[j])
    {
      var block := buffer[at + k];
      buffer[at + k] := block[0 := buffer[at + k - 1][0]];
      assert buffer[at + k] == Dummy(old(buffer[at - 1])[0]);
    }
  }

  /** A row of dummy blocks, all with the DC value of the block before the row. */
  method FillDummyRow(buffer: array<Block>, at: nat, count: nat)
    requires 0 < at && at + count <= buffer.Length
    modifies buffer
    ensures forall k | 0 <= k < buffer.Length ::
              buffer[k] == if at <= k < at + count then Dummy(old(buffer[at - 1])[0]) else old(buffer[k])
  {
    for k := 0 to count
      invariant forall j | 0 <= j < buffer.Length ::
                  buffer[j] == if at <= j < at + k then Dummy(0) else old(buffer[j])
    {
      buffer[at + k] := Dummy(0);
    }
    for k := 0 to count
      invariant forall j | 0 <= j < buffer.Length ::
                  buffer[j] == if at <= j < at + k then Dummy(old(buffer[at - 1])[0])
                               else if at + k <= j < at + count then Dummy(0) else old(buffer[j])
    {
      var block := buffer[at + k];
      buffer[at + k] := block[0 := buffer[at - 1][0]];
      assert buffer[at + k] == Dummy(old(buffer[at - 1])[0]);
    }
  }

  /** The blocks of a row of an MCU. */
  lemma RowInside(s: Scan, image: Image, ci: nat, r: nat, y: nat, x: nat, yi: nat, count: nat)
    requires s.Valid() && Covers(s.f, image) && ci < |s.cur| && x < s.McusPerRow()
    requires s.Top(ci, r, y) + yi < s.f.HeightInBlocks(s.cur[ci]) && count == s.BlockCount(ci, x)
    ensures count <= s.McuWidth(ci) && 1 <= count && s.Left(ci, x) + count <= s.f.WidthInBlocks(s.cur[ci])
    ensures var row := image[s.cur[ci]][s.Top(ci, r, y) + yi];
            var blocks := RowBlocks(s, image, ci, r, y, x, yi, s.McuWidth(ci));
            && (forall xi | 0 <= xi < count :: blocks[xi] == row[s.Left(ci, x) + xi])
            && (forall xi | count <= xi < s.McuWidth(ci) :: blocks[xi] == Dummy(row[s.Left(ci, x) + count - 1][0]))
  {
    hide DivRoundUp, Scan.BlockCount, Scan.McuWidth, Scan.Left, Scan.Top, Scan.McusPerRow, Frame.HeightInBlocks;
    Columns(s, ci, x);
  }

  lemma RowOutside(s: Scan, image: Image, ci: nat, r: nat, y: nat, x: nat, yi: nat)
    requires s.Valid() && Covers(s.f, image) && ci < |s.cur| && x < s.McusPerRow() && yi > 0
    requires s.Top(ci, r, y) + yi >= s.f.HeightInBlocks(s.cur[ci])
    ensures var above := RowBlocks(s, image, ci, r, y, x, yi - 1, s.McuWidth(ci));
            var blocks := RowBlocks(s, image, ci, r, y, x, yi, s.McuWidth(ci));
            s.McuWidth(ci) > 0 && forall xi | 0 <= xi < s.McuWidth(ci) :: blocks[xi] == Dummy(above[s.McuWidth(ci) - 1][0])
  {
    hide DivRoundUp, Scan.McuWidth, Scan.Left, Scan.Top, Scan.McusPerRow, Frame.HeightInBlocks, Frame.WidthInBlocks;
    Columns(s, ci, x);
    SizesPositive(s.f, s.cur[ci]);
  }

  /** A component is made row by row. */
  lemma NextBlocks(s: Scan, image: Image, ci: nat, r: nat, y: nat, x: nat, yi: nat)
    requires s.Valid() && Covers(s.f, image) && ci < |s.cur|
    ensures CompBlocks(s, image, ci, r, y, x, yi + 1)
            == CompBlocks(s, image, ci, r, y, x, yi) + RowBlocks(s, image, ci, r, y, x, yi, s.McuWidth(ci))
  {
    hide RowBlocks, McuBlock;
  }

  /** The last block so far, before row `yi` of a component. */
  lemma BlockBefore(s: Scan, image: Image, ci: nat, r: nat, y: nat, x: nat, yi: nat)
    requires s.Valid() && Covers(s.f, image) && ci < |s.cur| && yi > 0 && s.McuWidth(ci) > 0
    ensures var blocks := CompBlocks(s, image, ci, r, y, x, yi);
            |blocks| > 0 && blocks[|blocks| - 1] == RowBlocks(s, image, ci, r, y, x, yi - 1, s.McuWidth(ci))[s.McuWidth(ci) - 1]
  {
    hide McuBlock;
  }

  /** The current MCU so far. */
  ghost predicate Holds(buffer: array<Block>, made: Blocks)
    reads buffer
  {
    |made| <= buffer.Length && buffer[..|made|] == made
  }

  lemma JoinsOn(buffer: array<Block>, made: Blocks, blocks: Blocks)
    requires |made| + |blocks| <= buffer.Length && Holds(buffer, made)
    requires forall k | 0 <= k < |blocks| :: buffer[|made| + k] == blocks[k]
    ensures Holds(buffer, made + blocks)
  {
    forall k | 0 <= k < |made + blocks| ensures buffer[..|made + blocks|][k] == (made + blocks)[k] {
      if k < |made| { assert buffer[..|made|][k] == made[k]; } else { assert buffer[|made| + (k - |made|)] == blocks[k - |made|]; }
    }
  }

  lemma NothingHeld(buffer: array<Block>)
    ensures Holds(buffer, [])
  {
  }

  lemma WholeMcu(s: Scan, image: Image, buffer: array<Block>, r: nat, y: nat, x: nat)
    requires s.Valid() && Covers(s.f, image) && buffer.Length == MAX_BLOCKS_IN_MCU
    requires Holds(buffer, McuBlocks(s, image, r, y, x, |s.cur|))
    ensures buffer[..s.BlocksBefore(|s.cur|)] == McuAt(s, image, r, y, x)
  {
    hide McuBlocks;
  }

  class SinglePass {
    const s: Scan
    const buffer: array<Block>
    var iMcuRowNum: nat
    var mcuCtr: nat
    var mcuVertOffset: nat
    var mcuRowsPerIMcuRow: nat

    /** `start_pass_coef` in pass-through mode. */
    constructor (scan: Scan)
      requires scan.Valid()
      ensures Valid() && s == scan && fresh(buffer) && At() == Place(0, 0, 0)
    {
      s := scan;
      buffer := new Block[MAX_BLOCKS_IN_MCU](_ => Dummy(0));
      iMcuRowNum, mcuCtr, mcuVertOffset, mcuRowsPerIMcuRow := 0, 0, 0, scan.McuRows(0);
      RowsThere(scan, 0);
    }

    ghost predicate Valid()
      reads this
    {
      && s.Valid() && buffer.Length == MAX_BLOCKS_IN_MCU && mcuRowsPerIMcuRow == s.McuRows(iMcuRowNum)
      && Inside(s, At())
    }

    function At(): Place
      reads this
    {
      Place(iMcuRowNum, mcuVertOffset, mcuCtr)
    }

    /** Row `yi` of a component. */
    method MakeRow(image: Image, ci: nat, yoffset: nat, x: nat, yi: nat, blkn: nat, ghost made: Blocks)
      requires Valid() && Covers(s.f, image) && iMcuRowNum < s.f.TotalIMcuRows() && ci < |s.cur| && x < s.McusPerRow()
      requires yoffset < mcuRowsPerIMcuRow && yi < s.McuHeight(ci) && blkn + s.McuWidth(ci) <= MAX_BLOCKS_IN_MCU
      requires blkn == |made| && Holds(buffer, made)
      requires yi > 0 ==> blkn > 0 && s.McuWidth(ci) > 0
      requires yi > 0 ==> made[blkn - 1] == RowBlocks(s, image, ci, iMcuRowNum, yoffset, x, yi - 1, s.McuWidth(ci))[s.McuWidth(ci) - 1]
      modifies buffer
      ensures Holds(buffer, made + RowBlocks(s, image, ci, iMcuRowNum, yoffset, x, yi, s.McuWidth(ci)))
    {
      hide Scan.McuWidth, Scan.McuHeight, Scan.Top, Scan.Left, Scan.McusPerRow, Scan.McuRows, Scan.LastRowHeight, DivRoundUp,
           Frame.HeightInBlocks, Frame.WidthInBlocks, RowBlocks, Scan.BlockCount, Scan.BlocksBefore;
      ghost var blocks := RowBlocks(s, image, ci, iMcuRowNum, yoffset, x, yi, s.McuWidth(ci));
      var width := s.McuWidth(ci);
      Rows(s, ci, iMcuRowNum, yoffset, yi);
      if iMcuRowNum < s.f.TotalIMcuRows() - 1 || yoffset + yi < s.LastRowHeight(ci) {
        var blockcnt := s.BlockCount(ci, x);
        RowInside(s, image, ci, iMcuRowNum, yoffset, x, yi, blockcnt);
        ForwardDct(image, s.cur[ci], buffer, blkn, s.Top(ci, iMcuRowNum, yoffset) + yi, s.Left(ci, x), blockcnt);
        if blockcnt < width {
          FillDummies(buffer, blkn + blockcnt, width - blockcnt);
        }
      } else {
        RowOutside(s, image, ci, iMcuRowNum, yoffset, x, yi);
        FillDummyRow(buffer, blkn, width);
      }
      JoinsOn(buffer, made, blocks);
    }

    /** All rows of a component. */
    method MakeComponent(image: Image, ci: nat, yoffset: nat, x: nat, first: nat, ghost made: Blocks)
      returns (blkn: nat)
      requires Valid() && Covers(s.f, image) && iMcuRowNum < s.f.TotalIMcuRows() && ci < |s.cur| && x < s.McusPerRow()
      requires yoffset < mcuRowsPerIMcuRow && first == |made| == s.BlocksBefore(ci) && Holds(buffer, made)
      modifies buffer
      ensures Holds(buffer, made + CompBlocks(s, image, ci, iMcuRowNum, yoffset, x, s.McuHeight(ci)))
      ensures blkn == first + Stacked(s.McuWidth(ci), s.McuHeight(ci))
    {
      hide Scan.McuWidth, Scan.McuHeight, Scan.McusPerRow, Scan.McuRows, DivRoundUp, RowBlocks, CompBlocks, Scan.BlocksBefore, Holds,
           Inside, Frame.TotalIMcuRows, CoefStream.Covers;
      blkn := first;
      ghost var r := iMcuRowNum;
      assert made + CompBlocks(s, image, ci, r, yoffset, x, 0) == made by { NoRows(s, image, ci, r, yoffset, x); }
      for yi := 0 to s.McuHeight(ci)
        invariant blkn == first + Stacked(s.McuWidth(ci), yi) && Holds(buffer, made + CompBlocks(s, image, ci, r, yoffset, x, yi))
      {
        RowFits(s, ci, yi);
        Columns(s, ci, x);
        ghost var so := CompBlocks(s, image, ci, r, yoffset, x, yi);
        if yi > 0 { BlockBefore(s, image, ci, r, yoffset, x, yi); }
        MakeRow(image, ci, yoffset, x, yi, blkn, made + so);
        NextBlocks(s, image, ci, r, yoffset, x, yi);
        assert made + (so + RowBlocks(s, image, ci, r, yoffset, x, yi, s.McuWidth(ci)))
               == made + so + RowBlocks(s, image, ci, r, yoffset, x, yi, s.McuWidth(ci));
        blkn := blkn + s.McuWidth(ci);
      }
    }

    /** The blocks of one MCU. */
    method MakeMcu(image: Image, yoffset: nat, x: nat)
      requires Valid() && Covers(s.f, image) && iMcuRowNum < s.f.TotalIMcuRows() && x < s.McusPerRow()
      requires yoffset < mcuRowsPerIMcuRow
      modifies buffer
      ensures buffer[..s.BlocksBefore(|s.cur|)] == McuAt(s, image, iMcuRowNum, yoffset, x)
    {
      hide Scan.McuWidth, Scan.McuHeight, Scan.McusPerRow, Scan.McuRows, DivRoundUp, CompBlocks, Holds;
      var blkn := 0;
      NothingHeld(buffer);
      for ci := 0 to |s.cur|
        invariant blkn == s.BlocksBefore(ci) && Holds(buffer, McuBlocks(s, image, iMcuRowNum, yoffset, x, ci))
      {
        blkn := MakeComponent(image, ci, yoffset, x, blkn, McuBlocks(s, image, iMcuRowNum, yoffset, x, ci));
      }
      WholeMcu(s, image, buffer, iMcuRowNum, yoffset, x);
    }

    /** `start_iMCU_row`. */
    method StartIMcuRow()
      requires s.Valid()
      modifies this`mcuRowsPerIMcuRow, this`mcuCtr, this`mcuVertOffset
      ensures mcuRowsPerIMcuRow == s.McuRows(iMcuRowNum) && mcuCtr == 0 && mcuVertOffset == 0
    {
      if |s.cur| > 1 {
        mcuRowsPerIMcuRow := 1;
      } else if iMcuRowNum < s.f.TotalIMcuRows() - 1 {
        mcuRowsPerIMcuRow := s.f.comps[s.cur[0]].v;
      } else {
        mcuRowsPerIMcuRow := s.LastRowHeight(0);
      }
      mcuCtr, mcuVertOffset := 0, 0;
    }

    /** `compress_data`: the rest of an iMCU row.  False when the encoder suspends; the MCU that
        was refused is then the next to be sent. */
    method CompressData(image: Image, encoder: EntropyEncoder) returns (done: bool)
      requires Valid() && Covers(s.f, image) && iMcuRowNum < s.f.TotalIMcuRows() && Sent(s, image, encoder.received, At())
      modifies this, buffer, encoder
      ensures Valid() && Sent(s, image, encoder.received, At()) && Passed(encoder, done)
      ensures if done then At() == Place(old(iMcuRowNum) + 1, 0, 0) else iMcuRowNum == old(iMcuRowNum)
    {
      hide Upto, McuAt, Scan.McuRows, Scan.McusPerRow, DivRoundUp, Scan.McuWidth;
      var yoffset := mcuVertOffset;
      while yoffset < mcuRowsPerIMcuRow
        invariant Valid() && iMcuRowNum == old(iMcuRowNum) && yoffset <= mcuRowsPerIMcuRow
        invariant Sent(s, image, encoder.received, Place(iMcuRowNum, yoffset, mcuCtr))
        invariant |encoder.received| + encoder.room == |old(encoder.received)| + old(encoder.room)
        invariant yoffset == mcuRowsPerIMcuRow ==> mcuCtr == 0
      {
        var x := mcuCtr;
        while x < s.McusPerRow()
          invariant Valid() && iMcuRowNum == old(iMcuRowNum) && x <= s.McusPerRow()
          invariant Sent(s, image, encoder.received, Place(iMcuRowNum, yoffset, x))
          invariant |encoder.received| + encoder.room == |old(encoder.received)| + old(encoder.room)
        {
          MakeMcu(image, yoffset, x);
          var mcu := buffer[..s.BlocksBefore(|s.cur|)];
          NextMcu(s, image, iMcuRowNum, yoffset, x);
          var ok := encoder.EncodeMcu(mcu);
          if !ok {
            mcuVertOffset, mcuCtr := yoffset, x;
            return false;
          }
          x := x + 1;
        }
        NextRow(s, image, iMcuRowNum, yoffset);
        mcuCtr := 0;
        yoffset := yoffset + 1;
      }
      NextIMcuRow(s, image, iMcuRowNum);
      iMcuRowNum := iMcuRowNum + 1;
      StartIMcuRow();
      RowsThere(s, iMcuRowNum);
      done := true;
    }
  }

  lemma NoRows(s: Scan, image: Image, ci: nat, r: nat, y: nat, x: nat)
    requires s.Valid() && Covers(s.f, image) && ci < |s.cur|
    ensures CompBlocks(s, image, ci, r, y, x, 0) == []
  {
  }
}
