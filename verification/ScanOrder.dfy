/** The coefficient controllers and the progressive coders together: what a controller sends in
  each scan of a script is what the coders of that scan are given. */
module ScanOrder {
  import opened JpegLimits
  import opened Shifts
  import opened Totals
  import opened HuffmanMerge
  import opened AcRefineModel
  import opened CoefDims
  import opened CoefStream
  import CoefAgreement
  import opened ProgressiveScript
  import P = ProgressiveRun
  import opened Wrappers

  // ------------------------------------------------- the blocks of a component

  /** How many blocks there are before row `row`. */
  function Start(width: nat, row: nat): nat {
    if row == 0 then 0 else Start(width, row - 1) + width
  }

  lemma {:induction false} StartGrows(width: nat, m: nat, n: nat)
    requires m <= n
    ensures Start(width, m) <= Start(width, n) && (m < n ==> Start(width, m) + width <= Start(width, n))
    decreases n
  {
    if m < n { StartGrows(width, m, n - 1); }
  }

  /** The first `n` rows, one after the other. */
  function FlatRows(rows: seq<seq<Block>>, n: nat): seq<Block>
    requires n <= |rows|
  {
    if n == 0 then [] else FlatRows(rows, n - 1) + rows[n - 1]
  }

  /** The blocks of each component, row by row. */
  function Flat(image: Image): P.Image {
    seq(|image|, c requires 0 <= c < |image| => FlatRows(image[c], |image[c]|))
  }

  lemma {:induction false} FlatAt(rows: seq<seq<Block>>, width: nat, n: nat, row: nat, col: nat)
    requires row < n <= |rows| && col < width && forall r | 0 <= r < |rows| :: |rows[r]| == width
    ensures |FlatRows(rows, n)| == Start(width, n) && Start(width, row) + col < Start(width, n)
    ensures FlatRows(rows, n)[Start(width, row) + col] == rows[row][col]
    decreases n
  {
    FlatSize(rows, width, n - 1);
    StartGrows(width, row, n - 1);
    if row < n - 1 { FlatAt(rows, width, n - 1, row, col); }
  }

  lemma {:induction false} FlatSize(rows: seq<seq<Block>>, width: nat, n: nat)
    requires n <= |rows| && forall r | 0 <= r < |rows| :: |rows[r]| == width
    ensures |FlatRows(rows, n)| == Start(width, n)
  {
    if n > 0 { FlatSize(rows, width, n - 1); }
  }

  /** Where block number `k` is. */
  lemma {:induction false} FindPlace(width: nat, n: nat, k: nat) returns (row: nat, col: nat)
    requires k < Start(width, n)
    ensures row < n && col < width && Start(width, row) + col == k
  {
    if k < Start(width, n - 1) {
      row, col := FindPlace(width, n - 1, k);
    } else {
      row, col := n - 1, k - Start(width, n - 1);
    }
  }

  function NumberedRow(start: nat, n: nat): (blocks: seq<Block>)
    ensures |blocks| == n && forall col | 0 <= col < n :: blocks[col] == Dummy(start + col)
  {
    if n == 0 then [] else NumberedRow(start, n - 1) + [Dummy(start + n - 1)]
  }

  function NumberedRows(width: nat, height: nat): (rows: seq<seq<Block>>)
    ensures |rows| == height && forall row | 0 <= row < height :: rows[row] == NumberedRow(Start(width, row), width)
  {
    seq(height, row requires 0 <= row => NumberedRow(Start(width, row), width))
  }

  /** An image in which the DC value of each block is its number in its component. */
  function Numbered(f: Frame): Image
    requires f.Valid()
  {
    seq(|f.comps|, c requires 0 <= c < |f.comps| => NumberedRows(f.WidthInBlocks(c), f.HeightInBlocks(c)))
  }

  lemma NumberedCovers(f: Frame)
    requires f.Valid()
    ensures Covers(f, Numbered(f))
  {
    hide Frame.HeightInBlocks, Frame.WidthInBlocks, Start;
  }

  // ------------------------------------------------------- numbers for DC values

  /** A block has the DC value of the block with the number that stands in the other. */
  predicate SameDc(blocks: seq<Block>, block: Block, number: Block) {
    0 <= number[0] < |blocks| && block[0] == blocks[number[0]][0]
  }

  /** Of each block of the image and each dummy block, wherever it is sent. */
  lemma BlockSame(f: Frame, image: Image, c: nat, row: nat, col: nat, last: nat)
    requires Covers(f, image) && c < |f.comps|
    ensures f.WidthInBlocks(c) > 0 && f.HeightInBlocks(c) > 0 && Covers(f, Numbered(f)) && |Flat(image)| == |f.comps|
    ensures SameDc(Flat(image)[c], BlockAt(f, image, c, row, col, last), BlockAt(f, Numbered(f), c, row, col, last))
  {
    hide Frame.HeightInBlocks, Frame.WidthInBlocks, Start, FlatRows;
    SizesPositive(f, c);
    NumberedCovers(f);
    var width, height := f.WidthInBlocks(c), f.HeightInBlocks(c);
    var r, k := Min(row, height - 1), Min(if row < height then col else last, width - 1);
    FlatAt(image[c], width, height, r, k);
    assert Numbered(f)[c][r][k] == Dummy(Start(width, r) + k);
  }

  /** The component of the scan to which each block of an MCU belongs, for the first `n`. */
  function Members(s: Scan, n: nat): (members: seq<nat>)
    requires s.Valid() && n <= |s.cur|
    ensures |members| == s.BlocksBefore(n) && forall j | 0 <= j < |members| :: members[j] < n
  {
    if n == 0 then [] else Members(s, n - 1) + seq(Stacked(s.McuWidth(n - 1), s.McuHeight(n - 1)), _ => n - 1)
  }

  /** Blocks of these members, and what stands for their numbers. */
  ghost predicate PartSame(s: Scan, image: Image, members: seq<nat>, a: Blocks, b: Blocks)
    requires s.Valid() && Covers(s.f, image)
  {
    && |a| == |b| == |members|
    && forall j | 0 <= j < |a| :: members[j] < |s.cur| && SameDc(Flat(image)[s.cur[members[j]]], a[j], b[j])
  }

  lemma PartsSame(s: Scan, image: Image, m: seq<nat>, n: seq<nat>, a: Blocks, b: Blocks, c: Blocks, d: Blocks)
    requires s.Valid() && Covers(s.f, image) && PartSame(s, image, m, a, b) && PartSame(s, image, n, c, d)
    ensures PartSame(s, image, m + n, a + c, b + d)
  {
    hide SameDc, Flat;
  }

  lemma RowSame(s: Scan, image: Image, ci: nat, r: nat, y: nat, x: nat, yi: nat, n: nat)
    requires s.Valid() && Covers(s.f, image) && ci < |s.cur|
    ensures Covers(s.f, Numbered(s.f))
    ensures PartSame(s, image, seq(n, _ => ci), RowBlocks(s, image, ci, r, y, x, yi, n), RowBlocks(s, Numbered(s.f), ci, r, y, x, yi, n))
  {
    hide SameDc, FlatRows, Numbered, BlockAt;
    NumberedCovers(s.f);
    forall xi: nat | xi < n
      ensures SameDc(Flat(image)[s.cur[ci]], RowBlocks(s, image, ci, r, y, x, yi, n)[xi],
                     RowBlocks(s, Numbered(s.f), ci, r, y, x, yi, n)[xi])
    {
      BlockSame(s.f, image, s.cur[ci], s.Top(ci, r, y) + yi, s.Left(ci, x) + xi, s.Left(ci, x) + s.McuWidth(ci) - 1);
    }
  }

  lemma {:induction false} CompSame(s: Scan, image: Image, ci: nat, r: nat, y: nat, x: nat, n: nat)
    requires s.Valid() && Covers(s.f, image) && ci < |s.cur|
    ensures Covers(s.f, Numbered(s.f))
    ensures PartSame(s, image, seq(Stacked(s.McuWidth(ci), n), _ => ci), CompBlocks(s, image, ci, r, y, x, n),
                     CompBlocks(s, Numbered(s.f), ci, r, y, x, n))
  {
    hide SameDc, Flat, Numbered, PartSame, Scan.McuWidth, RowBlocks;
    NumberedCovers(s.f);
    var w := s.McuWidth(ci);
    if n == 0 {
      NothingSame(s, image);
      assert seq(Stacked(w, 0), _ => ci) == [];
    } else {
      CompSame(s, image, ci, r, y, x, n - 1);
      RowSame(s, image, ci, r, y, x, n - 1, w);
      PartsSame(s, image, seq(Stacked(w, n - 1), _ => ci), seq(w, _ => ci), CompBlocks(s, image, ci, r, y, x, n - 1),
                CompBlocks(s, Numbered(s.f), ci, r, y, x, n - 1), RowBlocks(s, image, ci, r, y, x, n - 1, w),
                RowBlocks(s, Numbered(s.f), ci, r, y, x, n - 1, w));
      assert seq(Stacked(w, n - 1), _ => ci) + seq(w, _ => ci) == seq(Stacked(w, n), _ => ci);
    }
  }

  lemma NothingSame(s: Scan, image: Image)
    requires s.Valid() && Covers(s.f, image)
    ensures PartSame(s, image, [], [], [])
  {
  }

  lemma {:induction false} McuSame(s: Scan, image: Image, r: nat, y: nat, x: nat, n: nat)
    requires s.Valid() && Covers(s.f, image) && n <= |s.cur|
    ensures Covers(s.f, Numbered(s.f))
    ensures PartSame(s, image, Members(s, n), McuBlocks(s, image, r, y, x, n), McuBlocks(s, Numbered(s.f), r, y, x, n))
  {
    hide SameDc, Flat, Numbered, PartSame, Scan.McuWidth, Scan.McuHeight, CompBlocks;
    NumberedCovers(s.f);
    if n == 0 {
      NothingSame(s, image);
    } else {
      var h := s.McuHeight(n - 1);
      McuSame(s, image, r, y, x, n - 1);
      CompSame(s, image, n - 1, r, y, x, h);
      PartsSame(s, image, Members(s, n - 1), seq(Stacked(s.McuWidth(n - 1), h), _ => n - 1),
                McuBlocks(s, image, r, y, x, n - 1), McuBlocks(s, Numbered(s.f), r, y, x, n - 1),
                CompBlocks(s, image, n - 1, r, y, x, h), CompBlocks(s, Numbered(s.f), n - 1, r, y, x, h));
    }
  }

  /** Of whole MCUs. */
  ghost predicate AllSame(s: Scan, image: Image, a: seq<Blocks>, b: seq<Blocks>)
    requires s.Valid() && Covers(s.f, image)
  {
    |a| == |b| && forall i | 0 <= i < |a| :: PartSame(s, image, Members(s, |s.cur|), a[i], b[i])
  }

  lemma {:induction false} RowsSame(s: Scan, image: Image, r: nat, y: nat, n: nat)
    requires s.Valid() && Covers(s.f, image)
    ensures Covers(s.f, Numbered(s.f)) && AllSame(s, image, McuRow(s, image, r, y, n), McuRow(s, Numbered(s.f), r, y, n))
  {
    hide PartSame, Numbered, McuBlocks;
    NumberedCovers(s.f);
    if n > 0 {
      RowsSame(s, image, r, y, n - 1);
      McuSame(s, image, r, y, n - 1, |s.cur|);
    }
  }

  lemma {:induction false} RowsOfSame(s: Scan, image: Image, r: nat, n: nat)
    requires s.Valid() && Covers(s.f, image)
    ensures Covers(s.f, Numbered(s.f)) && AllSame(s, image, McuRowsOf(s, image, r, n), McuRowsOf(s, Numbered(s.f), r, n))
  {
    hide PartSame, Numbered, McuRow;
    NumberedCovers(s.f);
    if n > 0 {
      RowsOfSame(s, image, r, n - 1);
      RowsSame(s, image, r, n - 1, s.McusPerRow());
    }
  }

  /** Sending the numbers in place of the blocks tells from which block of the image each DC
      value is, those of the dummy blocks included. */
  lemma {:induction false} StreamSame(s: Scan, image: Image, n: nat)
    requires s.Valid() && Covers(s.f, image)
    ensures Covers(s.f, Numbered(s.f)) && AllSame(s, image, IMcuRows(s, image, n), IMcuRows(s, Numbered(s.f), n))
  {
    hide PartSame, Numbered, McuRowsOf;
    NumberedCovers(s.f);
    if n > 0 {
      StreamSame(s, image, n - 1);
      RowsOfSame(s, image, n - 1, s.McuRows(n - 1));
    }
  }

  // -------------------------------------------------------------------- the order

  /** The number that a block stands for. */
  function Number(block: Block): nat {
    if block[0] >= 0 then block[0] else 0
  }

  function Numbers(blocks: Blocks): (numbers: seq<nat>)
    ensures |numbers| == |blocks|
  {
    seq(|blocks|, j requires 0 <= j < |blocks| => Number(blocks[j]))
  }

  /** The order in which a controller sends the DC values of a scan: a dummy block counts as the
      block whose DC value it repeats. */
  function OrderOf(s: Scan): P.Order
    requires s.Valid()
  {
    NumberedCovers(s.f);
    var stream := Stream(s, Numbered(s.f));
    P.Order(Members(s, |s.cur|), seq(|stream|, i requires 0 <= i < |stream| => Numbers(stream[i])))
  }

  /** The scan of a frame that a script asks for. */
  function ScanOf(f: Frame, info: ScanInfo): Scan
    requires forall i | 0 <= i < |info.components| :: info.components[i] >= 0
  {
    Scan(f, seq(|info.components|, i requires 0 <= i < |info.components| => info.components[i] as nat))
  }

  lemma {:induction false} MembersPrefix(s: Scan, m: nat, n: nat)
    requires s.Valid() && m <= n <= |s.cur|
    ensures Members(s, m) <= Members(s, n)
    decreases n
  {
    if m < n { MembersPrefix(s, m, n - 1); }
  }

  lemma {:induction false} McuPrefix(s: Scan, image: Image, r: nat, y: nat, x: nat, m: nat, n: nat)
    requires s.Valid() && Covers(s.f, image) && m <= n <= |s.cur|
    ensures McuBlocks(s, image, r, y, x, m) <= McuBlocks(s, image, r, y, x, n)
    decreases n
  {
    hide CompBlocks, Scan.McuHeight;
    if m < n { McuPrefix(s, image, r, y, x, m, n - 1); }
  }

  lemma {:induction false} CompPrefix(s: Scan, image: Image, ci: nat, r: nat, y: nat, x: nat, m: nat, n: nat)
    requires s.Valid() && Covers(s.f, image) && ci < |s.cur| && m <= n
    ensures CompBlocks(s, image, ci, r, y, x, m) <= CompBlocks(s, image, ci, r, y, x, n)
    decreases n
  {
    hide RowBlocks, Scan.McuWidth;
    if m < n { CompPrefix(s, image, ci, r, y, x, m, n - 1); }
  }

  /** The place of a block in its MCU. */
  lemma BlockIn(s: Scan, image: Image, ci: nat, r: nat, y: nat, x: nat, yi: nat, xi: nat) returns (j: nat)
    requires s.Valid() && Covers(s.f, image) && ci < |s.cur| && yi < s.McuHeight(ci) && xi < s.McuWidth(ci)
    ensures j < |McuAt(s, image, r, y, x)| == |Members(s, |s.cur|)|
    ensures McuAt(s, image, r, y, x)[j] == McuBlock(s, image, ci, r, y, x, yi, xi) && Members(s, |s.cur|)[j] == ci
  {
    hide McuBlock, Scan.McuWidth, Scan.McuHeight, Scan.BlocksBefore;
    var w, h := s.McuWidth(ci), s.McuHeight(ci);
    var k := Stacked(w, yi) + xi;
    j := |McuBlocks(s, image, r, y, x, ci)| + k;
    InComp(s, image, ci, r, y, x, yi, xi);
    MembersHere(s, ci, k);
    McuPrefix(s, image, r, y, x, ci + 1, |s.cur|);
    MembersPrefix(s, ci + 1, |s.cur|);
    var part := McuBlocks(s, image, r, y, x, ci + 1);
    assert part == McuBlocks(s, image, r, y, x, ci) + CompBlocks(s, image, ci, r, y, x, h);
    assert part[j] == CompBlocks(s, image, ci, r, y, x, h)[k];
  }

  lemma InComp(s: Scan, image: Image, ci: nat, r: nat, y: nat, x: nat, yi: nat, xi: nat)
    requires s.Valid() && Covers(s.f, image) && ci < |s.cur| && yi < s.McuHeight(ci) && xi < s.McuWidth(ci)
    ensures var blocks, k := CompBlocks(s, image, ci, r, y, x, s.McuHeight(ci)), Stacked(s.McuWidth(ci), yi) + xi;
            k < |blocks| && blocks[k] == McuBlock(s, image, ci, r, y, x, yi, xi)
  {
    hide McuBlock, Scan.McuWidth, Scan.McuHeight;
    CompPrefix(s, image, ci, r, y, x, yi + 1, s.McuHeight(ci));
    var part := CompBlocks(s, image, ci, r, y, x, yi + 1);
    assert part == CompBlocks(s, image, ci, r, y, x, yi) + RowBlocks(s, image, ci, r, y, x, yi, s.McuWidth(ci));
    assert part[Stacked(s.McuWidth(ci), yi) + xi] == McuBlock(s, image, ci, r, y, x, yi, xi);
  }

  lemma MembersHere(s: Scan, ci: nat, k: nat)
    requires s.Valid() && ci < |s.cur| && k < Stacked(s.McuWidth(ci), s.McuHeight(ci))
    ensures s.BlocksBefore(ci) + k < |Members(s, ci + 1)| && Members(s, ci + 1)[s.BlocksBefore(ci) + k] == ci
  {
    hide Scan.McuWidth, Scan.McuHeight;
  }

  /** Every MCU is somewhere in the stream. */
  lemma McuIn(s: Scan, image: Image, r: nat, y: nat, x: nat) returns (i: nat)
    requires s.Valid() && Covers(s.f, image) && r < s.f.TotalIMcuRows() && y < s.McuRows(r) && x < s.McusPerRow()
    ensures i < |Stream(s, image)| && Stream(s, image)[i] == McuAt(s, image, r, y, x)
  {
    hide Stream, McuAt, Upto, Scan.McuRows, Scan.McusPerRow, Frame.TotalIMcuRows;
    i := |Upto(s, image, r, y, x)|;
    NextMcu(s, image, r, y, x);
    CoefAgreement.UptoPrefix(s, image, r, y, x + 1);
    assert Upto(s, image, r, y, x + 1)[i] == McuAt(s, image, r, y, x);
  }

  /** Every block of a component of the scan is in the order. */
  lemma InOrder(s: Scan, ci: nat, b: nat) returns (i: nat, j: nat)
    requires s.Valid() && ci < |s.cur| && b < Start(s.f.WidthInBlocks(s.cur[ci]), s.f.HeightInBlocks(s.cur[ci]))
    ensures i < |OrderOf(s).places| && j < |OrderOf(s).members| && j < |OrderOf(s).places[i]|
    ensures OrderOf(s).places[i][j] == b && OrderOf(s).members[j] == ci
  {
    hide Stream, Numbered, McuAt, McuBlock, Start, Frame.WidthInBlocks, Frame.HeightInBlocks, Frame.TotalIMcuRows, Scan.McuRows,
         Scan.McusPerRow, Scan.Top, Scan.Left, Scan.McuWidth, Scan.McuHeight, Members;
    NumberedCovers(s.f);
    var c := s.cur[ci];
    var row, col := FindPlace(s.f.WidthInBlocks(c), s.f.HeightInBlocks(c), b);
    var r, y, x, yi, xi := BlockPlaced(s, Numbered(s.f), ci, row, col);
    i := McuIn(s, Numbered(s.f), r, y, x);
    j := BlockIn(s, Numbered(s.f), ci, r, y, x, yi, xi);
    NumberThere(s.f, c, row, col);
  }

  lemma NumberThere(f: Frame, c: nat, row: nat, col: nat)
    requires f.Valid() && c < |f.comps| && row < f.HeightInBlocks(c) && col < f.WidthInBlocks(c)
    ensures Covers(f, Numbered(f)) && Number(Numbered(f)[c][row][col]) == Start(f.WidthInBlocks(c), row) + col
  {
    hide Frame.WidthInBlocks, Frame.HeightInBlocks, Start;
    NumberedCovers(f);
  }

  /** The components of a scan are those that the script asks for. */
  ghost predicate Asks(f: Frame, info: ScanInfo) {
    && f.Valid() && ComponentsOk(info, |f.comps|) && ScanOf(f, info).Valid()
  }

  lemma FlatSizes(f: Frame, image: Image, c: nat)
    requires Covers(f, image) && c < |f.comps|
    ensures |Flat(image)| == |f.comps| && |Flat(image)[c]| == Start(f.WidthInBlocks(c), f.HeightInBlocks(c)) > 0
  {
    hide Frame.WidthInBlocks, Frame.HeightInBlocks;
    SizesPositive(f, c);
    FlatSize(image[c], f.WidthInBlocks(c), f.HeightInBlocks(c));
  }

  /** The numbers are within the component, and stand for the DC values that are sent. */
  lemma OrderSends(f: Frame, info: ScanInfo, image: Image, i: nat, j: nat)
    requires Asks(f, info) && Covers(f, image)
    ensures var s := ScanOf(f, info); |OrderOf(s).places| == |Stream(s, image)|
    ensures var s := ScanOf(f, info);
            i < |Stream(s, image)| && j < |OrderOf(s).members| ==>
              && |OrderOf(s).places[i]| == |Stream(s, image)[i]| == |OrderOf(s).members| && OrderOf(s).members[j] < |s.cur|
              && var blocks := Flat(image)[s.cur[OrderOf(s).members[j]]];
                 OrderOf(s).places[i][j] < |blocks| && blocks[OrderOf(s).places[i][j]][0] == Stream(s, image)[i][j][0]
  {
    hide Numbered, Members, Flat, IMcuRows, Frame.TotalIMcuRows;
    var s := ScanOf(f, info);
    NumberedCovers(f);
    StreamSame(s, image, f.TotalIMcuRows());
    if i < |Stream(s, image)| {
      assert PartSame(s, image, Members(s, |s.cur|), Stream(s, image)[i], Stream(s, Numbered(f))[i]);
    }
  }

  /** Every block of the components is sent. */
  lemma OrderComplete(f: Frame, info: ScanInfo, image: Image)
    requires Asks(f, info) && Covers(f, image)
    ensures P.Complete(info, OrderOf(ScanOf(f, info)), Flat(image))
  {
    hide Flat, Stream, OrderOf;
    var s := ScanOf(f, info);
    var order := OrderOf(s);
    OrderIsFit(f, info, image);
    forall i: nat | i < |info.components| ensures i in order.members {
      FlatSizes(f, image, s.cur[i]);
      var m, j := InOrder(s, i, 0);
      assert order.members[j] == i;
    }
    forall i, b | 0 <= i < |info.components| && 0 <= b < |Flat(image)[info.components[i]]|
      ensures P.Placed(info, order, Flat(image), |order.places|, 0, info.components[i], b)
    {
      FlatSizes(f, image, s.cur[i]);
      var m, j := InOrder(s, i, b);
      assert order.places[m][j] == b && info.components[order.members[j]] == info.components[i];
    }
    FlatSizes(f, image, s.cur[0]);
    var m, j := InOrder(s, 0, 0);
  }

  lemma OrderIsFit(f: Frame, info: ScanInfo, image: Image)
    requires Asks(f, info) && Covers(f, image)
    ensures P.OrderFits(info, OrderOf(ScanOf(f, info)), Flat(image))
  {
    hide Stream, Flat, Numbered;
    var s := ScanOf(f, info);
    var order := OrderOf(s);
    NumberedCovers(f);
    MembersFew(s);
    FlatCount(image);
    forall i: nat, j: nat | i < |order.places| && j < |order.members|
      ensures |order.places[i]| == |order.members| && order.places[i][j] < |Flat(image)[info.components[order.members[j]]]|
    {
      OrderSends(f, info, image, i, j);
    }
    forall i: nat | i < |order.places| ensures |order.places[i]| == |order.members| { OrderSends(f, info, image, i, 0); }
  }

  lemma FlatCount(image: Image)
    ensures |Flat(image)| == |image|
  {
  }

  lemma MembersFew(s: Scan)
    requires s.Valid()
    ensures 1 <= |Members(s, |s.cur|)| <= MAX_BLOCKS_IN_MCU
  {
    hide Scan.BlocksBefore;
    BeforeGrows(s, 1, |s.cur|);
    FirstBlocks(s);
  }

  lemma FirstBlocks(s: Scan)
    requires s.Valid()
    ensures s.BlocksBefore(1) >= 1
  {
    assert s.f.comps[s.cur[0]].Valid();
    StackedGrows(s.McuWidth(0), 1, s.McuHeight(0));
    assert s.BlocksBefore(1) == s.BlocksBefore(0) + Stacked(s.McuWidth(0), s.McuHeight(0));
    assert Stacked(s.McuWidth(0), 1) == s.McuWidth(0);
  }

  // ------------------------------------------------------------------- AC scans

  lemma {:induction false} SinglesAre(row: seq<Block>, n: nat)
    requires n <= |row|
    ensures |Singles(row, n)| == n && forall k | 0 <= k < n :: Singles(row, n)[k] == [row[k]]
  {
    if n > 0 { SinglesAre(row, n - 1); }
  }

  lemma {:induction false} RasterFlat(rows: seq<seq<Block>>, n: nat)
    requires n <= |rows|
    ensures |Raster(rows, n)| == |FlatRows(rows, n)| && forall k | 0 <= k < |Raster(rows, n)| :: Raster(rows, n)[k] == [FlatRows(rows, n)[k]]
  {
    if n > 0 {
      RasterFlat(rows, n - 1);
      SinglesAre(rows[n - 1], |rows[n - 1]|);
    }
  }

  /** In a scan of one component a controller sends its blocks, one in each MCU. */
  lemma SingleSends(f: Frame, image: Image, c: nat)
    requires Covers(f, image) && c < |f.comps|
    ensures Scan(f, [c]).Valid() && |Flat(image)| == |f.comps| && |Stream(Scan(f, [c]), image)| == |Flat(image)[c]|
    ensures forall k | 0 <= k < |Flat(image)[c]| :: Stream(Scan(f, [c]), image)[k] == [Flat(image)[c][k]]
  {
    hide Raster, FlatRows;
    var s := Scan(f, [c]);
    assert s.BlocksBefore(1) == s.BlocksBefore(0) + Stacked(1, 1) && Stacked(1, 1) == Stacked(1, 0) + 1;
    SingleStream(s, image);
    RasterFlat(image[c], |image[c]|);
  }

  // ---------------------------------------------------------------- whole files

  /** The order of a DC scan; AC scans need none. */
  function OrderFor(f: Frame, info: ScanInfo): P.Order {
    if info.ss == 0 && (forall i | 0 <= i < |info.components| :: info.components[i] >= 0) && ScanOf(f, info).Valid()
    then OrderOf(ScanOf(f, info)) else P.Order([], [])
  }

  /** What the source checks of a scan besides the script, that no MCU has too many blocks; and
      that no table has to count more than 10^9 symbols. */
  ghost predicate Scannable(f: Frame, info: ScanInfo, image: Image, tables: seq<nat>, interval: nat)
    requires Covers(f, image)
  {
    ComponentsOk(info, |f.comps|) && BandOk(info) ==>
      if info.ss == 0 then
        && ScanOf(f, info).Valid()
        && (P.OrderFits(info, OrderFor(f, info), Flat(image)) && |tables| == |Flat(image)| ==>
              P.DcCountable(info, OrderFor(f, info), Flat(image), tables, interval))
      else
        |Flat(image)| == |f.comps|
        && Total(P.AcStatistics(info, Flat(image)[info.components[0]], interval)[256 := 1]) <= MAX_COUNT
  }

  /** That is all a run needs. */
  lemma ScannableSendable(f: Frame, info: ScanInfo, image: Image, tables: seq<nat>, interval: nat)
    requires Covers(f, image) && Scannable(f, info, image, tables, interval)
    requires |tables| == |f.comps| && forall c | 0 <= c < |tables| :: tables[c] < NUM_HUFF_TBLS
    ensures P.Sendable(info, OrderFor(f, info), Flat(image), tables, interval)
  {
    hide Flat, OrderOf, P.Complete, P.DcCountable, P.AcStatistics, Total, P.OrderFits;
    FlatCount(image);
    if ComponentsOk(info, |f.comps|) && BandOk(info) {
      if info.ss == 0 {
        OrderComplete(f, info, image);
        P.CompleteFits(info, OrderOf(ScanOf(f, info)), Flat(image));
      } else {
        FlatSizes(f, image, info.components[0]);
      }
    }
  }

  /** In a DC scan, the values that the coder is given are the DC values that the controllers
      send, those of the dummy blocks included. */
  lemma DcValuesSent(f: Frame, info: ScanInfo, image: Image)
    requires Asks(f, info) && Covers(f, image)
    ensures P.OrderFits(info, OrderOf(ScanOf(f, info)), Flat(image))
    ensures var values, stream := P.Values(info, OrderOf(ScanOf(f, info)), Flat(image)), Stream(ScanOf(f, info), image);
            |values| == |stream|
            && forall i | 0 <= i < |values| :: |values[i]| == |stream[i]| && forall j | 0 <= j < |values[i]| :: values[i][j] == stream[i][j][0]
  {
    hide Stream, Flat, OrderOf;
    var s := ScanOf(f, info);
    var order, stream := OrderOf(s), Stream(s, image);
    OrderIsFit(f, info, image);
    OrderSends(f, info, image, 0, 0);
    var values := P.Values(info, order, Flat(image));
    MembersCount(s);
    forall i | 0 <= i < |values|
      ensures |values[i]| == |stream[i]| && forall j | 0 <= j < |values[i]| :: values[i][j] == stream[i][j][0]
    {
      OrderSends(f, info, image, i, 0);
      forall j | 0 <= j < |values[i]| ensures values[i][j] == stream[i][j][0] { OrderSends(f, info, image, i, j); }
    }
  }

  lemma MembersCount(s: Scan)
    requires s.Valid()
    ensures |OrderOf(s).members| >= 1
  {
    hide Stream, Numbered;
    MembersFew(s);
  }

  /** Every accepted script, for every frame: the scans that the controllers send give back each
      coefficient of the image, down to the last bit sent of it.  It fails exactly when one of
      the scans has a value out of range or a code of more than 32 bits. */
  method FileRoundTrip(f: Frame, image: Image, script: seq<ScanInfo>, intervals: seq<nat>, tables: seq<nat>,
                       fill: nat, marker: byte, tail: seq<byte>)
    returns (ok: bool, have: P.Image)
    requires Covers(f, image) && Progressive(script, |f.comps|) && |intervals| == |script| && marker != 0 && marker != 0xFF
    requires |tables| == |f.comps| && forall c | 0 <= c < |tables| :: tables[c] < NUM_HUFF_TBLS
    requires forall i | 0 <= i < |script| :: Scannable(f, script[i], image, tables, intervals[i])
    ensures ok ==> P.ImageKnown(Flat(image), have, Run(script, |f.comps|).value)
    ensures ok <==> forall i | 0 <= i < |script| :: !P.Fails(script[i], OrderFor(f, script[i]), Flat(image), tables, intervals[i])
  {
    hide Flat, OrderFor, Scannable, P.Sendable, P.Fails, P.ImageKnown, Run;
    FlatCount(image);
    var orders := Orders(f, script);
    forall i | 0 <= i < |script| ensures P.Sendable(script[i], orders[i], Flat(image), tables, intervals[i]) {
      ScannableSendable(f, script[i], image, tables, intervals[i]);
    }
    ok, have := P.RoundTrip(script, orders, intervals, Flat(image), tables, fill, marker, tail);
  }

  method Orders(f: Frame, script: seq<ScanInfo>) returns (orders: seq<P.Order>)
    ensures |orders| == |script| && forall i | 0 <= i < |script| :: orders[i] == OrderFor(f, script[i])
  {
    hide OrderFor;
    orders := [];
    for i := 0 to |script|
      invariant |orders| == i && forall j | 0 <= j < i :: orders[j] == OrderFor(f, script[j])
    {
      var order := OrderFor(f, script[i]);
      orders := orders + [order];
    }
  }

  /** With the recommended script, all blocks of an image of 8-bit samples come back. */
  method SimpleFile(f: Frame, image: Image, isYCbCr: bool, intervals: seq<nat>, tables: seq<nat>,
                    fill: nat, marker: byte, tail: seq<byte>)
    returns (ok: bool, have: P.Image)
    requires Covers(f, image) && P.EightBit(Flat(image)) && marker != 0 && marker != 0xFF
    requires |intervals| == |SimpleScript(|f.comps|, isYCbCr)|
    requires |tables| == |f.comps| && forall c | 0 <= c < |tables| :: tables[c] < NUM_HUFF_TBLS
    requires forall i | 0 <= i < |intervals| :: Scannable(f, SimpleScript(|f.comps|, isYCbCr)[i], image, tables, intervals[i])
    ensures ok ==> have == Flat(image)
    ensures ok <==> forall i | 0 <= i < |intervals| ::
              !P.NeedsLongCode(SimpleScript(|f.comps|, isYCbCr)[i], OrderFor(f, SimpleScript(|f.comps|, isYCbCr)[i]), Flat(image), tables, intervals[i])
  {
    hide Flat, OrderFor, Scannable, P.Sendable, P.NeedsLongCode, P.EightBit, SimpleScript;
    FlatCount(image);
    var script := SimpleProgression(|f.comps|, isYCbCr);
    var orders := Orders(f, script);
    forall i | 0 <= i < |script| ensures P.Sendable(script[i], orders[i], Flat(image), tables, intervals[i]) {
      ScannableSendable(f, script[i], image, tables, intervals[i]);
    }
    ok, have := P.SimpleRoundTrip(isYCbCr, orders, intervals, Flat(image), tables, fill, marker, tail);
  }
}
