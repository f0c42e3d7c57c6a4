/** `htest_one_block` and `encode_mcu_gather` of jchuff.c: how often each symbol of each
  table is used in a sequential scan with restarts. */
module HuffGather {
  import opened JpegLimits
  import opened Segments
  import opened Shifts
  import opened Totals
  import opened CodeEvents
  import opened EventTables
  import opened Zigzag
  import opened PointTransform
  import opened AcRefineModel
  import opened AcFirstModel
  import DcEncoder
  import Dc = DcModel
  import opened BaseModel
  import HuffEncoder
  import opened Wrappers

  const TABLES := 2 * NUM_HUFF_TBLS

  /** What stands for the MCUs from `start` on, where a segment begins. */
  function ScanFrom(l: Layout, mcus: seq<Mcu>, interval: nat, start: nat): Events
    requires Laid(l, mcus) && start <= |mcus|
    decreases |mcus| - start
  {
    var end := SegmentEnd(interval, |mcus|, start);
    if end == |mcus| then Segment(l, mcus, interval, start)
    else Append(Segment(l, mcus, interval, start), ScanFrom(l, mcus, interval, end))
  }

  /** The part of that behind the first segment. */
  function Later(l: Layout, mcus: seq<Mcu>, interval: nat, start: nat): Events
    requires Laid(l, mcus) && start <= |mcus|
  {
    var end := SegmentEnd(interval, |mcus|, start);
    if end == |mcus| then Nil else ScanFrom(l, mcus, interval, end)
  }

  /** All blocks of the segment that begins with MCU `start` are small. */
  predicate SegmentInRange(l: Layout, mcus: seq<Mcu>, interval: nat, start: nat)
    requires Laid(l, mcus) && start <= |mcus|
  {
    SmallRange(l, mcus, SegmentEnd(interval, |mcus|, start), start, 0, Zero(l))
  }

  /** All blocks of all segments from there on are small. */
  predicate RangeFrom(l: Layout, mcus: seq<Mcu>, interval: nat, start: nat)
    requires Laid(l, mcus) && start <= |mcus|
    decreases |mcus| - start
  {
    var end := SegmentEnd(interval, |mcus|, start);
    SegmentInRange(l, mcus, interval, start) && (end == |mcus| || RangeFrom(l, mcus, interval, end))
  }

  /** The coefficients are of 16 bits. */
  predicate Words(mcus: seq<Mcu>) {
    forall i, j | 0 <= i < |mcus| && 0 <= j < |mcus[i]| :: -0x8000 <= mcus[i][j][0] < 0x8000
  }

  /** Counting a segment, and then what is behind it. */
  lemma CountsSplit(l: Layout, mcus: seq<Mcu>, interval: nat, start: nat, t: nat, sink: Sink)
    requires Laid(l, mcus) && start <= |mcus|
    ensures EmitAll([], sink, Only(t, ScanFrom(l, mcus, interval, start)))
            == EmitAll([], EmitAll([], sink, Only(t, Segment(l, mcus, interval, start))), Only(t, Later(l, mcus, interval, start)))
  {
    hide Segment;
    var end := SegmentEnd(interval, |mcus|, start);
    if end < |mcus| {
      OnlyAppend(t, Segment(l, mcus, interval, start), ScanFrom(l, mcus, interval, end));
      EmitAppend([], sink, Only(t, Segment(l, mcus, interval, start)), Only(t, ScanFrom(l, mcus, interval, end)));
    }
  }

  class HuffmanGatherer {
    const counts: seq<array<nat>>     // one for each DC table, and behind them one for each AC table
    const layout: Layout
    const restartInterval: nat
    var lastDcVal: seq<int>
    var restartsToGo: nat
    ghost var start: nat              // where the current segment begins
    ghost var goal: seq<Sink>         // the counts at its end

    /** `start_pass_huff`, to gather statistics. */
    constructor (l: Layout, interval: nat)
      requires l.Valid()
      ensures Fixed() && layout == l && restartInterval == interval && lastDcVal == Zero(l) && restartsToGo == interval
      ensures forall t | 0 <= t < TABLES :: fresh(counts[t]) && counts[t][..] == seq(257, _ => 0)
    {
      var a, b, c, d := new nat[257](_ => 0), new nat[257](_ => 0), new nat[257](_ => 0), new nat[257](_ => 0);
      var e, f, g, h := new nat[257](_ => 0), new nat[257](_ => 0), new nat[257](_ => 0), new nat[257](_ => 0);
      counts := [a, b, c, d, e, f, g, h];
      layout, restartInterval, lastDcVal, restartsToGo := l, interval, Zero(l), interval;
      start, goal := 0, [];
    }

    ghost predicate Fixed() {
      && layout.Valid() && |counts| == TABLES && (forall t | 0 <= t < TABLES :: counts[t].Length == 257)
      && forall t, u | 0 <= t < u < TABLES :: counts[t] != counts[u]
    }

    /** The block is not one of the tables of counts. */
    ghost predicate Outside(block: array<int>)
      requires Fixed()
    {
      forall t | 0 <= t < TABLES :: counts[t] as object != block as object
    }

    /** Counting the events leads there. */
    ghost predicate Leads(events: Events, there: seq<Sink>)
      requires Fixed()
      reads counts
    {
      |there| == TABLES
      && forall t | 0 <= t < TABLES :: EmitAll([], Counts(counts[t][..]), Only(t, events)) == there[t]
    }

    method Count(tbl: nat, s: byte, ghost rest: Events, ghost there: seq<Sink>)
      requires Fixed() && tbl < TABLES && Leads(Cons(Symbol(tbl, s), rest), there)
      modifies counts
      ensures Leads(rest, there)
    {
      hide EmitAll, Only;
      ghost var before := seq(TABLES, t requires 0 <= t < TABLES reads counts => counts[t][..]);
      forall t | 0 <= t < TABLES { DcEncoder.CountsHead(t, Counts(counts[t][..]), Symbol(tbl, s), rest); }
      counts[tbl][s] := counts[tbl][s] + 1;
      assert forall t | 0 <= t < TABLES && t != tbl :: counts[t][..] == before[t];
      assert counts[tbl][..] == before[tbl][s as int := before[tbl][s] + 1];
    }

    /** Bits are not counted. */
    lemma Skip(v: nat, n: nat, rest: Events, there: seq<Sink>)
      requires Fixed() && Leads(Cons(Raw(v, n), rest), there)
      ensures Leads(rest, there)
    {
      hide EmitAll, Only;
      forall t | 0 <= t < TABLES { DcEncoder.CountsHead(t, Counts(counts[t][..]), Raw(v, n), rest); }
    }

    /** The DC difference.  False when it is out of range. */
    method TestDc(tbl: nat, diff: int, ghost rest: Events, ghost there: seq<Sink>) returns (ok: bool)
      requires Fixed() && tbl < NUM_HUFF_TBLS && Leads(Dc.Difference(tbl, diff, rest), there)
      modifies counts
      ensures ok <==> Abs(diff) < Shl(1, MAX_COEF_BITS + 1)
      ensures ok ==> Leads(rest, there)
    {
      hide Leads, Fixed, Shl, SignedBits, Log2;
      var temp := if diff < 0 then -diff else diff;
      var nbits := DcEncoder.CountBits(temp);
      DcEncoder.DifferenceIs(tbl, diff, nbits, rest);
      ok := nbits <= MAX_COEF_BITS + 1;
      if ok {
        ghost var bits := if nbits > 0 then Cons(Raw(SignedBits(diff < 0, temp, nbits), nbits), rest) else rest;
        Count(tbl, nbits as byte, bits, there);
        if nbits > 0 { Skip(SignedBits(diff < 0, temp, nbits), nbits, rest, there); }
      }
    }

    /** The sixteen-zeros symbols before a coefficient, and its own symbol.  False when it is
        too large. */
    method TestCoef(tbl: nat, r: nat, temp: nat, ghost b: Block, ghost k: nat, ghost rest: Events, ghost there: seq<Sink>)
      returns (ok: bool)
      requires Fixed() && NUM_HUFF_TBLS <= tbl < TABLES && 1 <= k - r && k <= 63 && FirstNonzero(AC, b, k - r) == k
      requires temp == Size(AC, b, k) && Leads(AcPlan(tbl, b, k - r, rest), there)
      modifies counts
      ensures ok <==> temp < Shl(1, MAX_COEF_BITS)
      ensures ok ==> Leads(AcPlan(tbl, b, k + 1, rest), there)
    {
      hide Fixed, Leads, AcPlan, FirstNonzero, Sent, Size, Natural, Shl, Log2, SignedBits;
      var run := r;
      while run > 15
        invariant 0 <= run <= r && FirstNonzero(AC, b, k - run) == k && Leads(AcPlan(tbl, b, k - run, rest), there)
      {
        AcIsZeros(tbl, b, k - run, k, rest);
        SkipZeros(AC, b, k - run, k - run + 16);
        Count(tbl, 0xF0, AcPlan(tbl, b, k - run + 16, rest), there);
        run := run - 16;
      }
      var nbits := DcEncoder.CountBits(temp);
      PositiveSize(b, k - run, k);
      DcEncoder.BitsAtMost(temp, MAX_COEF_BITS);
      ok := nbits <= MAX_COEF_BITS;
      Ten(temp);
      if ok {
        AcIsCoef(tbl, b, k - run, k, rest);
        ghost var more := AcPlan(tbl, b, k + 1, rest);
        ghost var v, n := SentFits(tbl, b, run, k, more);
        ghost var bits := SignedBits(b[Natural(k)] < 0, v, n);
        Count(tbl, (16 * run + nbits) as byte, Cons(Raw(bits, n), more), there);
        Skip(bits, n, more, there);
      }
    }

    /** The AC coefficients, from the first one on.  False when one is too large. */
    method TestAc(block: array<int>, tbl: nat, ghost b: Block, ghost rest: Events, ghost there: seq<Sink>) returns (ok: bool)
      requires Fixed() && block.Length == 64 && block[..] == b && NUM_HUFF_TBLS <= tbl < TABLES && Outside(block)
      requires Leads(AcPlan(tbl, b, 1, rest), there)
      modifies counts
      ensures ok <==> forall k | 1 <= k <= 63 :: Size(AC, b, k) < Shl(1, MAX_COEF_BITS)
      ensures ok ==> Leads(rest, there)
    {
      hide Fixed, Leads, AcPlan, FirstNonzero, Sent, Size, Natural, Shl, Log2;
      var r := 0;
      ShlPositive(MAX_COEF_BITS);
      for k := 1 to 64
        invariant block[..] == b && r <= k - 1 && Leads(AcPlan(tbl, b, k - r, rest), there)
        invariant forall j | k - r <= j < k :: Size(AC, b, j) == 0
        invariant forall j | 1 <= j < k :: Size(AC, b, j) < Shl(1, MAX_COEF_BITS)
      {
        var temp := block[Natural(k)];
        HuffEncoder.SizeIs(b, k);
        if temp == 0 {
          r := r + 1;
        } else {
          NonzeroIs(AC, b, k - r, k);
          ok := TestCoef(tbl, r, if temp < 0 then -temp else temp, b, k, rest, there);
          if !ok { return; }
          r := 0;
        }
      }
      if r > 0 {
        NonzeroIs(AC, b, 64 - r, 64);
        AcIsEob(tbl, b, 64 - r, rest);
        Count(tbl, 0, rest, there);
      } else {
        AcEnds(tbl, b, rest);
      }
      ok := true;
    }

    /** `htest_one_block`.  False when a coefficient is out of range. */
    method TestOneBlock(block: array<int>, lastDc: int, c: nat, ghost rest: Events, ghost there: seq<Sink>) returns (ok: bool)
      requires Fixed() && block.Length == 64 && c < |layout.dcTables| && -0x8000 <= block[0] < 0x8000
      requires Outside(block) && Leads(BlockPlan(layout, c, block[..], lastDc, rest), there)
      modifies counts
      ensures ok <==> BlockSmall(block[..], lastDc)
      ensures ok ==> Leads(rest, there)
      ensures block[..] == old(block[..])
    {
      hide Leads, AcPlan, Size, Shl, Dc.Difference;
      ghost var b: Block := block[..];
      var ac := NUM_HUFF_TBLS + layout.acTables[c];
      ok := TestDc(layout.dcTables[c], block[0] - lastDc, AcPlan(ac, b, 1, rest), there);
      assert block[..] == b;
      if ok { ok := TestAc(block, ac, b, rest, there); }
      assert block[..] == b;
    }

    // ------------------------------------------------------------------- the MCUs

    /** The state before MCU `i`, in the segment that begins with MCU `start`; `all` says
        whether the blocks from there on are small, `final` what is counted in the end. */
    ghost predicate Before(mcus: seq<Mcu>, i: nat, final: seq<Sink>, all: bool)
      requires Laid(layout, mcus)
      reads this, counts
    {
      && Fixed() && |lastDcVal| == |layout.dcTables| && start <= |mcus|
      && start <= i <= SegmentEnd(restartInterval, |mcus|, start)
      && (restartInterval > 0 ==> restartsToGo <= restartInterval && i - start == restartInterval - restartsToGo)
      && Goes(mcus, i, all) && Ends(mcus, final)
    }

    /** The rest of the segment leads to the goal. */
    ghost predicate Goes(mcus: seq<Mcu>, i: nat, all: bool)
      requires Laid(layout, mcus) && Fixed() && |lastDcVal| == |layout.dcTables| && start <= |mcus|
      requires i <= SegmentEnd(restartInterval, |mcus|, start)
      reads this, counts
    {
      var end := SegmentEnd(restartInterval, |mcus|, start);
      && Leads(BasePlan(layout, mcus, end, i, 0, lastDcVal), goal)
      && (all <==> SmallRange(layout, mcus, end, i, 0, lastDcVal) && (end == |mcus| || RangeFrom(layout, mcus, restartInterval, end)))
    }

    /** From the goal, what is behind the segment leads to the end. */
    ghost predicate Ends(mcus: seq<Mcu>, final: seq<Sink>)
      requires Laid(layout, mcus) && start <= |mcus|
      reads this
    {
      |goal| == |final| == TABLES
      && forall t | 0 <= t < TABLES :: EmitAll([], goal[t], Only(t, Later(layout, mcus, restartInterval, start))) == final[t]
    }

    /** Nothing is to come in this segment. */
    lemma Reached(mcus: seq<Mcu>, i: nat, final: seq<Sink>, all: bool)
      requires Laid(layout, mcus) && Before(mcus, i, final, all) && i == SegmentEnd(restartInterval, |mcus|, start)
      ensures forall t | 0 <= t < TABLES :: Counts(counts[t][..]) == goal[t]
      ensures all <==> i == |mcus| || RangeFrom(layout, mcus, restartInterval, i)
    {
      hide BasePlan, SmallRange, Later, RangeFrom;
      PlanDone(layout, mcus, i, lastDcVal);
      forall t | 0 <= t < TABLES ensures Counts(counts[t][..]) == goal[t] {
        assert EmitAll([], Counts(counts[t][..]), Only(t, Nil)) == goal[t];
      }
    }

    /** Behind the last segment the goal is the end. */
    lemma AtEnd(mcus: seq<Mcu>, final: seq<Sink>)
      requires Laid(layout, mcus) && start <= |mcus| && Ends(mcus, final) && SegmentEnd(restartInterval, |mcus|, start) == |mcus|
      ensures goal == final
    {
      forall t | 0 <= t < TABLES ensures goal[t] == final[t] {
        assert EmitAll([], goal[t], Only(t, Nil)) == final[t];
      }
    }

    /** A new segment begins with MCU `i`. */
    method Begin(ghost mcus: seq<Mcu>, ghost i: nat, ghost final: seq<Sink>, ghost all: bool)
      requires Laid(layout, mcus) && Fixed() && i <= |mcus| && |final| == TABLES
      requires forall t | 0 <= t < TABLES ::
                 EmitAll([], Counts(counts[t][..]), Only(t, ScanFrom(layout, mcus, restartInterval, i))) == final[t]
      requires all <==> RangeFrom(layout, mcus, restartInterval, i)
      modifies this
      ensures lastDcVal == Zero(layout) && start == i && restartsToGo == restartInterval && Before(mcus, i, final, all)
    {
      hide BasePlan, SmallRange, Later, EmitAll, Only;
      lastDcVal := Zero(layout);
      restartsToGo := restartInterval;
      start := i;
      goal := seq(TABLES, t requires 0 <= t < TABLES reads counts =>
                            EmitAll([], Counts(counts[t][..]), Only(t, Segment(layout, mcus, restartInterval, i))));
      forall t | 0 <= t < TABLES { CountsSplit(layout, mcus, restartInterval, i, t, Counts(counts[t][..])); }
    }

    /** The blocks of MCU `i`. */
    method TestBlocks(data: seq<array<int>>, ghost mcus: seq<Mcu>, ghost i: nat, ghost all: bool) returns (ok: bool)
      requires Laid(layout, mcus) && Fixed() && |lastDcVal| == |layout.dcTables| && start <= |mcus| && Words(mcus)
      requires i < SegmentEnd(restartInterval, |mcus|, start) && Goes(mcus, i, all)
      requires |data| == |layout.members|
      requires forall j | 0 <= j < |data| :: data[j].Length == 64 && data[j][..] == mcus[i][j] && Outside(data[j])
      modifies counts, this`lastDcVal
      ensures |lastDcVal| == |layout.dcTables| && (if ok then Goes(mcus, i + 1, all) else !all)
    {
      hide BasePlan, SmallRange, BlockPlan, BlockSmall, Leads, RangeFrom;
      ghost var end := SegmentEnd(restartInterval, |mcus|, start);
      ghost var more := end == |mcus| || RangeFrom(layout, mcus, restartInterval, end);
      for blkn := 0 to |layout.members|
        invariant |lastDcVal| == |layout.dcTables| && Leads(BasePlan(layout, mcus, end, i, blkn, lastDcVal), goal)
        invariant all <==> SmallRange(layout, mcus, end, i, blkn, lastDcVal) && more
        invariant forall j | 0 <= j < |data| :: data[j][..] == mcus[i][j]
      {
        var ci := layout.members[blkn];
        PlanBlock(layout, mcus, end, i, blkn, lastDcVal);
        ok := TestOneBlock(data[blkn], lastDcVal[ci], ci,
                           BasePlan(layout, mcus, end, i, blkn + 1, lastDcVal[ci := data[blkn][0]]), goal);
        if !ok { return; }
        lastDcVal := lastDcVal[ci := data[blkn][0]];
      }
      PlanMcu(layout, mcus, end, i, lastDcVal);
      ok := true;
    }

    /** `encode_mcu_gather`. */
    method EncodeMcuGather(data: seq<array<int>>, ghost mcus: seq<Mcu>, ghost i: nat, ghost final: seq<Sink>, ghost all: bool)
      returns (ok: bool)
      requires Laid(layout, mcus) && Before(mcus, i, final, all) && i < |mcus| && Words(mcus)
      requires |data| == |layout.members|
      requires forall j | 0 <= j < |data| :: data[j].Length == 64 && data[j][..] == mcus[i][j] && Outside(data[j])
      modifies counts, this
      ensures if ok then Before(mcus, i + 1, final, all) else !all
    {
      hide BasePlan, SmallRange, Leads, RangeFrom, Later, EmitAll, Only, ScanFrom;
      if restartInterval != 0 && restartsToGo == 0 {
        Reached(mcus, i, final, all);
        LaterIs(layout, mcus, restartInterval, start);
        Begin(mcus, i, final, all);
      }
      ok := TestBlocks(data, mcus, i, all);
      if restartInterval != 0 { restartsToGo := restartsToGo - 1; }
    }
  }

  lemma LaterIs(l: Layout, mcus: seq<Mcu>, interval: nat, start: nat)
    requires Laid(l, mcus) && start <= |mcus| && SegmentEnd(interval, |mcus|, start) < |mcus|
    ensures Later(l, mcus, interval, start) == ScanFrom(l, mcus, interval, SegmentEnd(interval, |mcus|, start))
  {
    hide ScanFrom;
  }

  /** A pass over all MCUs: it fails exactly when a coefficient is out of range; otherwise
      the counts of each table are those of its symbols in what stands for the scan. */
  method GatherScan(l: Layout, mcus: seq<Mcu>, interval: nat) returns (ok: bool, counts: seq<array<nat>>)
    requires Laid(l, mcus) && Words(mcus)
    ensures |counts| == TABLES && (forall t | 0 <= t < TABLES :: fresh(counts[t]) && counts[t].Length == 257)
    ensures forall t, u | 0 <= t < u < TABLES :: counts[t] != counts[u]
    ensures ok <==> RangeFrom(l, mcus, interval, 0)
    ensures ok ==> forall t | 0 <= t < TABLES :: counts[t][..] == StatisticsOf(Only(t, ScanFrom(l, mcus, interval, 0)))
  {
    hide BasePlan, SmallRange, RangeFrom, Later, EmitAll, Only, ScanFrom, HuffmanGatherer.Goes, HuffmanGatherer.Ends;
    var gatherer := new HuffmanGatherer(l, interval);
    counts := gatherer.counts;
    ghost var all := RangeFrom(l, mcus, interval, 0);
    ghost var final := seq(TABLES, t requires 0 <= t => Counts(StatisticsOf(Only(t, ScanFrom(l, mcus, interval, 0)))));
    gatherer.Begin(mcus, 0, final, all);
    for i := 0 to |mcus|
      invariant gatherer.Before(mcus, i, final, all) && fresh(gatherer)
      invariant forall t | 0 <= t < TABLES :: fresh(counts[t])
    {
      var data := HuffEncoder.BlockArrays(mcus[i]);
      ok := gatherer.EncodeMcuGather(data, mcus, i, final, all);
      if !ok { return; }
    }
    gatherer.Reached(mcus, |mcus|, final, all);
    gatherer.AtEnd(mcus, final);
    ok := true;
  }

  lemma PositiveSize(b: Block, k: nat, t: nat)
    requires k <= 63 && FirstNonzero(AC, b, k) == t <= 63
    ensures Size(AC, b, t) > 0
  {
    hide FirstNonzero, Size;
  }
}
