/** A whole progressive file: every script that is accepted rebuilds the coefficients, each
  of them but for the bits that the script leaves out. */
module ProgressiveRun {
  import opened JpegLimits
  import Segments
  import opened Shifts
  import opened Totals
  import opened EntropySource
  import opened HuffmanCost
  import opened HuffmanMerge
  import opened HuffmanLimit
  import opened EventTables
  import opened Zigzag
  import opened PointTransform
  import opened AcRefineRun
  import opened AcRefineModel
  import Plan = AcRefinePlan
  import Refine = AcRefineScan
  import AcFirstModel
  import First = AcFirstScan
  import Dc = DcModel
  import DcScan
  import DcRefineScan
  import opened ProgressiveScript
  import opened Wrappers

  /** The blocks of each component. */
  type Image = seq<seq<Block>>

  /** The order of the blocks in a DC scan: the component of the scan to which each block of
      an MCU belongs, and the place of each block in its component. */
  datatype Order = Order(members: seq<nat>, places: seq<seq<nat>>)

  /** What is known of a coefficient once its bits from `last` on have been sent. */
  function Approximation(v: int, k: nat, last: int): int {
    if last < 0 then 0 else if k == 0 then Dc.DcPoint(v, last) else Point(v, last)
  }

  ghost predicate BlockKnown(b: Block, have: Block, row: seq<int>) {
    |row| == DCTSIZE2 && forall k | 0 <= k < DCTSIZE2 :: have[Natural(k)] == Approximation(b[Natural(k)], k, row[k])
  }

  ghost predicate ComponentKnown(blocks: seq<Block>, have: seq<Block>, row: seq<int>) {
    |have| == |blocks| && forall i | 0 <= i < |blocks| :: BlockKnown(blocks[i], have[i], row)
  }

  ghost predicate ImageKnown(image: Image, have: Image, last: Bitpos) {
    && |have| == |image| == |last|
    && forall c | 0 <= c < |image| :: ComponentKnown(image[c], have[c], last[c])
  }

  // -------------------------------------------------------------------- AC scans

  function BandOf(s: ScanInfo): (band: Band)
    requires BandOk(s) && s.ss > 0
    ensures band.Valid()
  {
    Band(s.ss, s.se, s.al)
  }

  /** The statistics of an AC scan of these blocks. */
  ghost function AcStatistics(s: ScanInfo, blocks: seq<Block>, interval: nat): Table
    requires BandOk(s) && s.ss > 0
  {
    if s.ah == 0 then StatisticsOf(First.ScanEvents(BandOf(s), blocks, interval)) else Refine.Statistics(BandOf(s), blocks, interval)
  }

  ghost predicate AcInRange(s: ScanInfo, blocks: seq<Block>)
    requires BandOk(s) && s.ss > 0
  {
    s.ah == 0 ==> First.AllSmall(BandOf(s), blocks)
  }

  /** A first scan finds the coefficients of its band not yet known. */
  lemma FirstUnknown(s: ScanInfo, blocks: seq<Block>, have: seq<Block>, row: seq<int>)
    requires BandOk(s) && s.ss > 0 && s.ah == 0 && ComponentKnown(blocks, have, row) && |row| == DCTSIZE2 && Continues(s, row)
    ensures First.AllUnknown(BandOf(s), |blocks|, have)
  {
    hide Natural, Point, Dc.DcPoint;
    forall i | 0 <= i < |blocks| ensures First.Unknown(BandOf(s), have[i]) {
      assert BlockKnown(blocks[i], have[i], row);
    }
  }

  /** A refinement scan finds them known but for one bit. */
  lemma RefineKnown(s: ScanInfo, blocks: seq<Block>, have: seq<Block>, row: seq<int>)
    requires BandOk(s) && s.ss > 0 && s.ah > 0 && ComponentKnown(blocks, have, row) && |row| == DCTSIZE2 && Continues(s, row)
    ensures Refine.AllKnown(BandOf(s), blocks, have)
  {
    hide Natural, Point, Dc.DcPoint;
    forall i | 0 <= i < |blocks| ensures Plan.Known(BandOf(s), blocks[i], have[i]) {
      assert BlockKnown(blocks[i], have[i], row);
    }
  }

  lemma AcDone(s: ScanInfo, blocks: seq<Block>, have: seq<Block>, row: seq<int>, result: seq<Block>, next: seq<int>)
    requires BandOk(s) && s.ss > 0 && ComponentKnown(blocks, have, row) && Moves(s.ss, s.se, s.al, row, next)
    requires |result| == |blocks|
    requires forall i | 0 <= i < |blocks| :: Plan.Refined(BandOf(s), blocks[i], have[i], result[i], s.se + 1)
    ensures ComponentKnown(blocks, result, next)
  {
    hide Natural, Point, Dc.DcPoint;
    forall i | 0 <= i < |blocks| ensures BlockKnown(blocks[i], result[i], next) {
      assert BlockKnown(blocks[i], have[i], row);
      assert Plan.Refined(BandOf(s), blocks[i], have[i], result[i], s.se + 1);
    }
  }

  /** An AC scan, written with tables made for it and read back. */
  method AcPass(s: ScanInfo, blocks: seq<Block>, have: seq<Block>, ghost row: seq<int>, ghost next: seq<int>,
                interval: nat, fill: nat, marker: byte, tail: seq<byte>)
    returns (ok: bool, result: seq<Block>)
    requires BandOk(s) && s.ss > 0 && ComponentKnown(blocks, have, row) && |row| == DCTSIZE2 && Continues(s, row)
    requires Moves(s.ss, s.se, s.al, row, next) && |blocks| > 0 && marker != 0 && marker != 0xFF
    requires Total(AcStatistics(s, blocks, interval)[256 := 1]) <= MAX_COUNT
    ensures ok ==> ComponentKnown(blocks, result, next)
    ensures ok <==> AcInRange(s, blocks) && !TooLong(AcStatistics(s, blocks, interval))
  {
    hide Optimal, Total, ComponentKnown, Continues, First.AllUnknown, First.AllSmall, Refine.AllKnown, First.ScanEvents,
         Refine.ScanEvents, Plan.Refined, Moves;
    if s.ah == 0 {
      FirstUnknown(s, blocks, have, row);
      ok, result := First.OptimizedRoundTrip(BandOf(s), blocks, have, interval, fill, marker, tail);
    } else {
      RefineKnown(s, blocks, have, row);
      ok, result := Refine.OptimizedRoundTrip(BandOf(s), blocks, have, interval, fill, marker, tail);
    }
    if ok { AcDone(s, blocks, have, row, result, next); }
  }

  // -------------------------------------------------------------------- DC scans

  /** The component of the image to which block `j` of an MCU belongs. */
  predicate OrderFits(s: ScanInfo, order: Order, image: Image) {
    && (forall i | 0 <= i < |s.components| :: 0 <= s.components[i] < |image|)
    && 1 <= |order.members| <= MAX_BLOCKS_IN_MCU
    && (forall j | 0 <= j < |order.members| :: order.members[j] < |s.components|)
    && (forall i | 0 <= i < |order.places| :: |order.places[i]| == |order.members|)
    && forall i, j | 0 <= i < |order.places| && 0 <= j < |order.members| ::
         order.places[i][j] < |image[s.components[order.members[j]]]|
  }

  /** Block `b` of component `c` is in one of the first `m` MCUs or among the first `n` of
      the next. */
  ghost predicate Placed(s: ScanInfo, order: Order, image: Image, m: nat, n: nat, c: nat, b: nat)
    requires OrderFits(s, order, image)
  {
    exists i, j | 0 <= i < |order.places| && 0 <= j < |order.members| && (i < m || (i == m && j < n)) ::
      order.places[i][j] == b && s.components[order.members[j]] == c
  }

  /** Every block of the components of the scan is there. */
  ghost predicate Complete(s: ScanInfo, order: Order, image: Image) {
    && OrderFits(s, order, image) && |order.places| > 0
    && (forall i: nat | i < |s.components| :: i in order.members)
    && forall i, b | 0 <= i < |s.components| && 0 <= b < |image[s.components[i]]| ::
         Placed(s, order, image, |order.places|, 0, s.components[i], b)
  }

  /** The DC coefficients in that order. */
  function Values(s: ScanInfo, order: Order, image: Image): (mcus: seq<seq<int>>)
    requires OrderFits(s, order, image)
    ensures |mcus| == |order.places| && forall i | 0 <= i < |mcus| :: |mcus[i]| == |order.members|
  {
    seq(|order.places|, i requires 0 <= i < |order.places| =>
      seq(|order.members|, j requires 0 <= j < |order.members| =>
        image[s.components[order.members[j]]][order.places[i][j]][0]))
  }

  function LayoutOf(s: ScanInfo, order: Order, tables: seq<nat>): (l: Dc.Layout)
    requires s.al >= 0 && forall i | 0 <= i < |s.components| :: 0 <= s.components[i] < |tables|
    ensures l.al == s.al
  {
    Dc.Layout(order.members,
              seq(|s.components|, i requires 0 <= i < |s.components| => tables[s.components[i]]), s.al)
  }

  /** What is known of the DC coefficients before a refinement scan. */
  lemma DcCoarse(s: ScanInfo, order: Order, image: Image, have: Image, last: Bitpos)
    requires BandOk(s) && s.ss == 0 && s.ah > 0 && ComponentsOk(s, |image|)
    requires Shape(last, |image|) && Follows(s, last, |image|) && ImageKnown(image, have, last) && OrderFits(s, order, image)
    ensures OrderFits(s, order, have)
    ensures DcScan.Transformed(s.al + 1, Values(s, order, image), Values(s, order, have))
  {
    hide Dc.DcPoint, Point;
    var mcus, bases := Values(s, order, image), Values(s, order, have);
    forall i, j | 0 <= i < |mcus| && 0 <= j < |order.members|
      ensures order.places[i][j] < |have[s.components[order.members[j]]]|
      ensures bases[i][j] == Dc.DcPoint(mcus[i][j], s.al + 1)
    {
      var c := s.components[order.members[j]];
      assert ComponentKnown(image[c], have[c], last[c]) && Continues(s, last[c]);
      assert BlockKnown(image[c][order.places[i][j]], have[c][order.places[i][j]], last[c]);
      assert Natural(0) == 0;
    }
  }

  /** The block but for its DC coefficient, which is as sent by the scan. */
  ghost predicate DcSent(al: nat, b: Block, was: Block, now: Block) {
    now == was[0 := Dc.DcPoint(b[0], al)]
  }

  /** The first `m` MCUs and `n` blocks of the next have been put back. */
  ghost predicate PutBack(s: ScanInfo, order: Order, image: Image, have: Image, next: Image, m: nat, n: nat)
    requires OrderFits(s, order, image) && s.al >= 0
  {
    && |have| == |next| == |image|
    && forall c | 0 <= c < |image| ::
         |have[c]| == |next[c]| == |image[c]|
         && forall b | 0 <= b < |image[c]| ::
              if Placed(s, order, image, m, n, c, b) then DcSent(s.al, image[c][b], have[c][b], next[c][b])
              else next[c][b] == have[c][b]
  }

  lemma NothingPut(s: ScanInfo, order: Order, image: Image, have: Image)
    requires OrderFits(s, order, image) && s.al >= 0
    requires |have| == |image| && forall c | 0 <= c < |image| :: |have[c]| == |image[c]|
    ensures PutBack(s, order, image, have, have, 0, 0)
  {
  }

  lemma RowPut(s: ScanInfo, order: Order, image: Image, have: Image, next: Image, m: nat)
    requires OrderFits(s, order, image) && s.al >= 0 && m < |order.places|
    requires PutBack(s, order, image, have, next, m, |order.members|)
    ensures PutBack(s, order, image, have, next, m + 1, 0)
  {
    hide DcSent;
    forall c: nat, b: nat ensures Placed(s, order, image, m + 1, 0, c, b) <==> Placed(s, order, image, m, |order.members|, c, b) {
      if Placed(s, order, image, m, |order.members|, c, b) {
        var i, j :| 0 <= i < |order.places| && 0 <= j < |order.members| && (i < m || (i == m && j < |order.members|))
                    && order.places[i][j] == b && s.components[order.members[j]] == c;
        assert order.places[i][j] == b;
      }
    }
  }

  lemma PlacedNext(s: ScanInfo, order: Order, image: Image, m: nat, n: nat, c: nat, b: nat)
    requires OrderFits(s, order, image) && m < |order.places| && n < |order.members|
    ensures Placed(s, order, image, m, n + 1, c, b)
            <==> Placed(s, order, image, m, n, c, b) || (order.places[m][n] == b && s.components[order.members[n]] == c)
  {
    if Placed(s, order, image, m, n, c, b) {
      var i, j :| 0 <= i < |order.places| && 0 <= j < |order.members| && (i < m || (i == m && j < n))
                  && order.places[i][j] == b && s.components[order.members[j]] == c;
      assert order.places[i][j] == b;
    }
    if order.places[m][n] == b && s.components[order.members[n]] == c {
      assert Placed(s, order, image, m, n + 1, c, b);
    }
  }

  function Store(image: Image, c: nat, b: nat, block: Block): Image
    requires c < |image| && b < |image[c]|
  {
    var blocks: seq<Block> := image[c];
    var stored: seq<Block> := blocks[b := block];
    image[c := stored]
  }

  lemma OnePut(s: ScanInfo, order: Order, image: Image, have: Image, next: Image, m: nat, n: nat, c0: nat, b0: nat, block: Block)
    requires OrderFits(s, order, image) && s.al >= 0 && m < |order.places| && n < |order.members|
    requires PutBack(s, order, image, have, next, m, n) && c0 == s.components[order.members[n]] && b0 == order.places[m][n]
    requires block == next[c0][b0][0 := Dc.DcPoint(image[c0][b0][0], s.al)]
    ensures PutBack(s, order, image, have, Store(next, c0, b0, block), m, n + 1)
  {
    hide Dc.DcPoint, Placed;
    assert 0 <= c0 < |image| && |next[c0]| == |image[c0]|;
    var now := Store(next, c0, b0, block);
    forall c | 0 <= c < |image|
      ensures |now[c]| == |image[c]|
      ensures forall b | 0 <= b < |image[c]| ::
                if Placed(s, order, image, m, n + 1, c, b) then DcSent(s.al, image[c][b], have[c][b], now[c][b])
                else now[c][b] == have[c][b]
    {
      assert |next[c]| == |image[c]|;
      forall b | 0 <= b < |image[c]|
        ensures if Placed(s, order, image, m, n + 1, c, b) then DcSent(s.al, image[c][b], have[c][b], now[c][b])
                else now[c][b] == have[c][b]
      {
        PlacedNext(s, order, image, m, n, c, b);
      }
    }
  }

  /** The blocks of the MCUs take the DC coefficients that have been decoded. */
  method StoreMcus(s: ScanInfo, order: Order, ghost image: Image, have: Image, result: seq<seq<int>>) returns (next: Image)
    requires s.al >= 0 && OrderFits(s, order, image) && OrderFits(s, order, have)
    requires |have| == |image| && forall c | 0 <= c < |image| :: |have[c]| == |image[c]|
    requires DcScan.Transformed(s.al, Values(s, order, image), result)
    ensures PutBack(s, order, image, have, next, |order.places|, 0)
  {
    hide Dc.DcPoint, PutBack;
    next := have;
    NothingPut(s, order, image, have);
    for i := 0 to |order.places|
      invariant PutBack(s, order, image, have, next, i, 0)
    {
      for j := 0 to |order.members|
        invariant PutBack(s, order, image, have, next, i, j)
      {
        var c, b := s.components[order.members[j]], order.places[i][j];
        PutSizes(s, order, image, have, next, i, j);
        assert result[i][j] == Dc.DcPoint(Values(s, order, image)[i][j], s.al);
        var block: Block := next[c][b][0 := result[i][j]];
        OnePut(s, order, image, have, next, i, j, c, b, block);
        next := Store(next, c, b, block);
      }
      RowPut(s, order, image, have, next, i);
    }
  }

  lemma PutSizes(s: ScanInfo, order: Order, image: Image, have: Image, next: Image, m: nat, n: nat)
    requires OrderFits(s, order, image) && s.al >= 0 && PutBack(s, order, image, have, next, m, n)
    ensures |next| == |image| && forall c | 0 <= c < |image| :: |next[c]| == |image[c]|
  {
    hide DcSent, Placed;
  }

  lemma DcDone(s: ScanInfo, order: Order, image: Image, have: Image, next: Image, last: Bitpos)
    requires BandOk(s) && s.ss == 0 && Complete(s, order, image) && Shape(last, |image|)
    requires ImageKnown(image, have, last) && PutBack(s, order, image, have, next, |order.places|, 0)
    ensures ImageKnown(image, next, After(s, last, |image|))
  {
    hide Dc.DcPoint, Point, Placed, OrderFits;
    var row := After(s, last, |image|);
    assert s.components[..|s.components|] == s.components;
    forall c, b | 0 <= c < |image| && 0 <= b < |image[c]| ensures BlockKnown(image[c][b], next[c][b], row[c]) {
      assert ComponentKnown(image[c], have[c], last[c]) && BlockKnown(image[c][b], have[c][b], last[c]);
      BlockDone(s, order, image, have, next, last, c, b);
    }
  }

  lemma BlockDone(s: ScanInfo, order: Order, image: Image, have: Image, next: Image, last: Bitpos, c: nat, b: nat)
    requires BandOk(s) && s.ss == 0 && Complete(s, order, image) && Shape(last, |image|) && c < |image| && b < |image[c]|
    requires PutBack(s, order, image, have, next, |order.places|, 0) && BlockKnown(image[c][b], have[c][b], last[c])
    ensures BlockKnown(image[c][b], next[c][b], After(s, last, |image|)[c])
  {
    hide Dc.DcPoint, Point;
    assert s.components[..|s.components|] == s.components;
    assert Natural(0) == 0;
    assert Placed(s, order, image, |order.places|, 0, c, b) <==> c in s.components;
    forall k | 0 <= k < DCTSIZE2 ensures Natural(k) == 0 <==> k == 0 { OnlyDcFirst(k); }
  }

  /** A DC scan cannot be sent when a difference is out of range, or when the optimal code
      for one of its tables is too long. */
  ghost predicate DcFails(s: ScanInfo, order: Order, image: Image, tables: seq<nat>, interval: nat)
    requires s.al >= 0 && OrderFits(s, order, image) && |tables| == |image|
  {
    var l, mcus := LayoutOf(s, order, tables), Values(s, order, image);
    Dc.Laid(l, mcus) && s.ah == 0
    && (!DcScan.ScanInRange(l, mcus, interval)
        || exists t | 0 <= t < NUM_HUFF_TBLS :: DcScan.UsedBy(l, |l.tables|, t) && TooLong(DcScan.Statistics(l, mcus, interval, t)))
  }

  /** The MCUs of a DC scan, as the entropy coder sees them. */
  lemma McusLaid(s: ScanInfo, order: Order, image: Image, tables: seq<nat>)
    requires ComponentsOk(s, |image|) && s.al >= 0 && Complete(s, order, image)
    requires |tables| == |image| && forall c | 0 <= c < |tables| :: tables[c] < NUM_HUFF_TBLS
    ensures Dc.Laid(LayoutOf(s, order, tables), Values(s, order, image)) && DcScan.Covers(LayoutOf(s, order, tables))
  {
    hide Placed;
  }

  method DcPass(s: ScanInfo, order: Order, image: Image, have: Image, tables: seq<nat>, ghost last: Bitpos,
                interval: nat, fill: nat, marker: byte, tail: seq<byte>)
    returns (ok: bool, next: Image)
    requires Shape(last, |image|) && Follows(s, last, |image|) && s.ss == 0
    requires ImageKnown(image, have, last) && Complete(s, order, image) && marker != 0 && marker != 0xFF
    requires |tables| == |image| && forall c | 0 <= c < |tables| :: tables[c] < NUM_HUFF_TBLS
    requires DcCountable(s, order, image, tables, interval)
    ensures ok ==> ImageKnown(image, next, After(s, last, |image|))
    ensures ok <==> !DcFails(s, order, image, tables, interval)
  {
    hide DcScan.ScanEvents, DcScan.ScanInRange, DcScan.Statistics, DcScan.Transformed, Optimal, Total, Continues, Placed,
         PutBack, Dc.Laid, DcScan.Covers, ImageKnown, Values, LayoutOf, DcScan.UsedBy;
    var l, mcus := LayoutOf(s, order, tables), Values(s, order, image);
    next := have;
    McusLaid(s, order, image, tables);
    KnownSizes(s, order, image, have, last);
    var result;
    if s.ah == 0 {
      ok, result := DcScan.OptimizedRoundTrip(l, mcus, interval, fill, marker, tail);
      if !ok { return; }
    } else {
      DcCoarse(s, order, image, have, last);
      ok := true;
      result := DcRefineScan.RefineRoundTrip(l, mcus, Values(s, order, have), interval, fill, marker, tail);
    }
    next := StoreMcus(s, order, image, have, result);
    DcDone(s, order, image, have, next, last);
  }

  ghost predicate DcCountable(s: ScanInfo, order: Order, image: Image, tables: seq<nat>, interval: nat)
    requires OrderFits(s, order, image) && s.al >= 0 && |tables| == |image|
  {
    var l, mcus := LayoutOf(s, order, tables), Values(s, order, image);
    Dc.Laid(l, mcus) && s.ah == 0
    ==> forall t | 0 <= t < NUM_HUFF_TBLS :: Total(DcScan.Statistics(l, mcus, interval, t)[256 := 1]) <= MAX_COUNT
  }

  lemma KnownSizes(s: ScanInfo, order: Order, image: Image, have: Image, last: Bitpos)
    requires ImageKnown(image, have, last) && OrderFits(s, order, image)
    ensures |have| == |image| && (forall c | 0 <= c < |image| :: |have[c]| == |image[c]|) && OrderFits(s, order, have)
  {
    hide BlockKnown;
  }

  // ---------------------------------------------------------------- the whole run

  /** What the source guarantees of a scan: the order visits every block, and there are not
      too many symbols to count. */
  ghost predicate Sendable(s: ScanInfo, order: Order, image: Image, tables: seq<nat>, interval: nat) {
    && |tables| == |image| && (forall c | 0 <= c < |tables| :: tables[c] < NUM_HUFF_TBLS)
    && (ComponentsOk(s, |image|) && BandOk(s) ==>
          if s.ss == 0 then Complete(s, order, image) && DcCountable(s, order, image, tables, interval)
          else var blocks := image[s.components[0]];
            |blocks| > 0 && Total(AcStatistics(s, blocks, interval)[256 := 1]) <= MAX_COUNT)
  }

  /** The scan has a value out of range, or needs a code that is too long. */
  ghost predicate Fails(s: ScanInfo, order: Order, image: Image, tables: seq<nat>, interval: nat) {
    && ComponentsOk(s, |image|) && BandOk(s) && |tables| == |image|
    && if s.ss == 0 then OrderFits(s, order, image) && DcFails(s, order, image, tables, interval)
       else var blocks := image[s.components[0]];
         !AcInRange(s, blocks) || TooLong(AcStatistics(s, blocks, interval))
  }

  /** The row of a component after an AC scan of it. */
  lemma AcMoves(s: ScanInfo, last: Bitpos, n: nat)
    requires Shape(last, n) && Follows(s, last, n) && s.ss > 0
    ensures var c, next := s.components[0], After(s, last, n);
            Moves(s.ss, s.se, s.al, last[c], next[c]) && Continues(s, last[c])
            && forall d | 0 <= d < n && d != c :: next[d] == last[d]
  {
    assert s.components[..|s.components|] == s.components;
    var c, next := s.components[0], After(s, last, n);
    forall d | 0 <= d < n && d != c ensures next[d] == last[d] {
      assert d !in s.components;
    }
  }

  /** One scan of the run: what is known after it is what the script says. */
  method ScanPass(s: ScanInfo, order: Order, image: Image, have: Image, tables: seq<nat>, ghost last: Bitpos,
                  interval: nat, fill: nat, marker: byte, tail: seq<byte>)
    returns (ok: bool, next: Image)
    requires Shape(last, |image|) && Follows(s, last, |image|) && ImageKnown(image, have, last)
    requires Sendable(s, order, image, tables, interval) && marker != 0 && marker != 0xFF
    ensures ok ==> ImageKnown(image, next, After(s, last, |image|))
    ensures ok <==> !Fails(s, order, image, tables, interval)
  {
    hide AcStatistics, AcInRange, DcCountable, DcFails, Complete, Total, After, ComponentKnown, TooLong, Continues;
    if s.ss == 0 {
      CompleteFits(s, order, image);
      ok, next := DcPass(s, order, image, have, tables, last, interval, fill, marker, tail);
    } else {
      var c := s.components[0];
      AcMoves(s, last, |image|);
      next := have;
      var blocks;
      ok, blocks := AcPass(s, image[c], have[c], last[c], After(s, last, |image|)[c], interval, fill, marker, tail);
      if ok { next := have[c := blocks]; }
    }
  }

  lemma CompleteFits(s: ScanInfo, order: Order, image: Image)
    requires Complete(s, order, image)
    ensures OrderFits(s, order, image)
  {
  }

  /** A decoder starts with blocks of zeros. */
  method Blank(image: Image) returns (have: Image)
    ensures |have| == |image| && forall c | 0 <= c < |image| :: |have[c]| == |image[c]| && forall b | 0 <= b < |image[c]| :: have[c][b] == seq(64, _ => 0)
  {
    var zero: Block := seq(64, _ => 0);
    have := [];
    for c := 0 to |image|
      invariant |have| == c
      invariant forall d | 0 <= d < c :: |have[d]| == |image[d]| && forall b | 0 <= b < |image[d]| :: have[d][b] == zero
    {
      have := have + [seq(|image[c]|, _ => zero)];
    }
  }

  lemma BlankKnown(image: Image, have: Image)
    requires |have| == |image| && forall c | 0 <= c < |image| :: |have[c]| == |image[c]| && forall b | 0 <= b < |image[c]| :: have[c][b] == seq(64, _ => 0)
    ensures ImageKnown(image, have, Nothing(|image|))
  {
    hide Natural;
    var row := seq(DCTSIZE2, _ => -1);
    forall c, b | 0 <= c < |image| && 0 <= b < |image[c]| ensures BlockKnown(image[c][b], have[c][b], row) {
    }
  }

  /** Every progressive script, with any restart interval for each scan: after all scans have
      been encoded and decoded, each coefficient is known down to the last bit that the script
      sends of it.  It fails exactly when one of the scans cannot be coded. */
  method RoundTrip(script: seq<ScanInfo>, orders: seq<Order>, intervals: seq<nat>, image: Image, tables: seq<nat>,
                   fill: nat, marker: byte, tail: seq<byte>)
    returns (ok: bool, have: Image)
    requires Progressive(script, |image|) && |orders| == |intervals| == |script| && marker != 0 && marker != 0xFF
    requires forall i | 0 <= i < |script| :: Sendable(script[i], orders[i], image, tables, intervals[i])
    ensures ok ==> ImageKnown(image, have, ProgressiveScript.Run(script, |image|).value)
    ensures ok <==> forall i | 0 <= i < |script| :: !Fails(script[i], orders[i], image, tables, intervals[i])
  {
    hide Sendable, Fails, ImageKnown, Follows;
    ghost var n, last := |image|, Nothing(|image|);
    have := Blank(image);
    BlankKnown(image, have);
    for i := 0 to |script|
      invariant Shape(last, n) && ProgressiveScript.Run(script[..i], n) == Some(last) && ImageKnown(image, have, last)
      invariant forall j | 0 <= j < i :: !Fails(script[j], orders[j], image, tables, intervals[j])
    {
      assert script[..i + 1] == script[..i] + [script[i]];
      RunStops(script, i, n, last);
      RunNext(script[..i], script[i], n, last);
      ok, have := ScanPass(script[i], orders[i], image, have, tables, last, intervals[i], fill, marker, tail);
      if !ok { return; }
      last := After(script[i], last, n);
    }
    assert script[..|script|] == script;
    ok := true;
  }

  // --------------------------------------------------------- 8-bit samples

  /** The coefficients of 8-bit samples. */
  ghost predicate EightBit(image: Image) {
    forall c, b, k | 0 <= c < |image| && 0 <= b < |image[c]| && 0 <= k < DCTSIZE2 :: -1024 <= image[c][b][k] < 1024 && (k > 0 ==> image[c][b][k] > -1024)
  }

  lemma {:induction false} ShrNotMore(v: nat, k: nat)
    ensures Shr(v, k) <= v
  {
    if k > 0 { ShrNotMore(v, k - 1); }
  }

  lemma {:induction false} ShrIntStays(v: int, k: nat)
    requires -1024 <= v < 1024
    ensures -1024 <= ShrInt(v, k) < 1024
  {
    if k > 0 { ShrIntStays(v, k - 1); }
  }

  lemma AcRange(s: ScanInfo, image: Image, c: nat)
    requires BandOk(s) && s.ss > 0 && EightBit(image) && c < |image|
    ensures AcInRange(s, image[c])
  {
    hide Natural, Shr;
    forall i, k | 0 <= i < |image[c]| && s.ss <= k <= s.se
      ensures Size(BandOf(s), image[c][i], k) < Shl(1, AcFirstModel.MAX_COEF_BITS)
    {
      OnlyDcFirst(k);
      ShrNotMore(Abs(image[c][i][Natural(k)]), s.al);
      TenBits();
    }
    forall i | 0 <= i < |image[c]| ensures AcFirstModel.Small(BandOf(s), image[c][i]) {}
  }

  lemma TenBits()
    ensures Shl(1, 10) == 1024 && Shl(1, 11) == 2048
  {
    assert Shl(1, 5) == 32;
    ShlShl(1, 5, 5);
    assert Shl(32, 5) == 1024;
  }

  ghost predicate SmallValues(mcus: seq<seq<int>>) {
    forall i, j | 0 <= i < |mcus| && 0 <= j < |mcus[i]| :: -1024 <= mcus[i][j] < 1024
  }

  lemma {:induction false} DcRange(l: Dc.Layout, mcus: seq<seq<int>>, i: nat, j: nat, last: seq<int>)
    requires Dc.Laid(l, mcus) && i <= |mcus| && j <= |l.members| && |last| == |l.tables| && SmallValues(mcus)
    requires forall c | 0 <= c < |last| :: -1024 <= last[c] < 1024
    ensures Dc.InRange(l, mcus, i, j, last)
    decreases |mcus| - i, |l.members| - j
  {
    hide ShrInt, Shl;
    if i == |mcus| {
    } else if j == |l.members| {
      DcRange(l, mcus, i + 1, 0, last);
    } else {
      var c, v := l.members[j], ShrInt(mcus[i][j], l.al);
      ShrIntStays(mcus[i][j], l.al);
      TenBits();
      DcRange(l, mcus, i, j + 1, last[c := v]);
    }
  }

  lemma {:induction false} ScanRange(l: Dc.Layout, mcus: seq<seq<int>>, interval: nat, start: nat)
    requires Dc.Laid(l, mcus) && start <= |mcus| && SmallValues(mcus)
    ensures DcScan.RangeFrom(l, mcus, interval, start)
    decreases |mcus| - start
  {
    hide Dc.InRange;
    var end := Segments.SegmentEnd(interval, |mcus|, start);
    var slice := DcScan.Slice(mcus, interval, start);
    assert SmallValues(slice);
    DcRange(l, slice, 0, 0, Dc.Zero(l));
    if end < |mcus| { ScanRange(l, mcus, interval, end); }
  }

  /** With such coefficients, a scan can only fail because a code is too long. */
  ghost predicate NeedsLongCode(s: ScanInfo, order: Order, image: Image, tables: seq<nat>, interval: nat) {
    && ComponentsOk(s, |image|) && BandOk(s) && |tables| == |image|
    && if s.ss == 0
       then && OrderFits(s, order, image) && s.ah == 0
            && var l, mcus := LayoutOf(s, order, tables), Values(s, order, image);
            && Dc.Laid(l, mcus)
            && exists t | 0 <= t < NUM_HUFF_TBLS :: DcScan.UsedBy(l, |l.tables|, t) && TooLong(DcScan.Statistics(l, mcus, interval, t))
       else TooLong(AcStatistics(s, image[s.components[0]], interval))
  }

  lemma OnlyLongCodes(s: ScanInfo, order: Order, image: Image, tables: seq<nat>, interval: nat)
    requires EightBit(image)
    ensures Fails(s, order, image, tables, interval) <==> NeedsLongCode(s, order, image, tables, interval)
  {
    hide TooLong, DcScan.Statistics, AcStatistics, AcInRange, EightBit, DcScan.UsedBy, DcScan.RangeFrom;
    if ComponentsOk(s, |image|) && BandOk(s) && |tables| == |image| {
      if s.ss > 0 {
        AcRange(s, image, s.components[0]);
      } else if OrderFits(s, order, image) {
        var l, mcus := LayoutOf(s, order, tables), Values(s, order, image);
        SmallDc(s, order, image);
        if Dc.Laid(l, mcus) { ScanRange(l, mcus, interval, 0); }
      }
    }
  }

  lemma SmallDc(s: ScanInfo, order: Order, image: Image)
    requires OrderFits(s, order, image) && EightBit(image)
    ensures SmallValues(Values(s, order, image))
  {
    var mcus := Values(s, order, image);
    forall i, j | 0 <= i < |mcus| && 0 <= j < |mcus[i]| ensures -1024 <= mcus[i][j] < 1024 {
      var c, b := s.components[order.members[j]], order.places[i][j];
      assert b < |image[c]| && mcus[i][j] == image[c][b][0];
    }
  }

  /** When all bits have been sent, nothing is missing. */
  lemma AllSentExact(image: Image, have: Image)
    requires ImageKnown(image, have, AllSent(|image|))
    ensures have == image
  {
    hide Natural;
    forall c | 0 <= c < |image| ensures have[c] == image[c] {
      assert ComponentKnown(image[c], have[c], Levels(0, 0, 0));
      forall b | 0 <= b < |image[c]| ensures have[c][b] == image[c][b] {
        assert BlockKnown(image[c][b], have[c][b], Levels(0, 0, 0));
        BlockExact(image[c][b], have[c][b]);
      }
    }
  }

  lemma BlockExact(b: Block, have: Block)
    requires BlockKnown(b, have, Levels(0, 0, 0))
    ensures have == b
  {
    forall k | 0 <= k < DCTSIZE2 ensures Coefs(have)[k] == Coefs(b)[k] {
      Dc.DcPointAll(b[Natural(k)]);
    }
    assert Coefs(have) == Coefs(b);
    CoefsDetermine(have, b);
  }

  /** The recommended script loses nothing, for any number of components. */
  method SimpleRoundTrip(isYCbCr: bool, orders: seq<Order>, intervals: seq<nat>, image: Image, tables: seq<nat>,
                         fill: nat, marker: byte, tail: seq<byte>)
    returns (ok: bool, have: Image)
    requires 1 <= |image| <= MAX_COMPONENTS && EightBit(image) && marker != 0 && marker != 0xFF
    requires |orders| == |intervals| == |SimpleScript(|image|, isYCbCr)|
    requires forall i | 0 <= i < |orders| :: Sendable(SimpleScript(|image|, isYCbCr)[i], orders[i], image, tables, intervals[i])
    ensures ok ==> have == image
    ensures ok <==> forall i | 0 <= i < |orders| ::
              !NeedsLongCode(SimpleScript(|image|, isYCbCr)[i], orders[i], image, tables, intervals[i])
  {
    hide SimpleScript, EightBit, Sendable, Fails, NeedsLongCode, ImageKnown, Progressive, AllSent, ProgressiveScript.Run;
    var script := SimpleProgression(|image|, isYCbCr);
    ok, have := RoundTrip(script, orders, intervals, image, tables, fill, marker, tail);
    if ok { AllSentExact(image, have); }
    forall i | 0 <= i < |script|
      ensures Fails(script[i], orders[i], image, tables, intervals[i])
              <==> NeedsLongCode(script[i], orders[i], image, tables, intervals[i])
    {
      OnlyLongCodes(script[i], orders[i], image, tables, intervals[i]);
    }
  }
}
