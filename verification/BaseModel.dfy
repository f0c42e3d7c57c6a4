/** The symbols and bits that stand for the blocks of a sequential scan (sections F.1.2 of
  ITU-T T.81). */
module BaseModel {
  import opened JpegLimits
  import opened Segments
  import opened Shifts
  import opened CodeEvents
  import opened Zigzag
  import opened PointTransform
  import opened AcRefineRun
  import opened AcRefineModel
  import opened AcFirstModel
  import Dc = DcModel
  import opened Wrappers

  /** All AC coefficients, with all their bits. */
  const AC: Band := Band(1, 63, 0)

  /** The blocks of an MCU: the component that each belongs to, and the tables of each
      component.  AC tables are numbered behind the DC tables. */
  datatype Layout = Layout(members: seq<nat>, dcTables: seq<nat>, acTables: seq<nat>) {
    predicate Valid() {
      && 1 <= |members| <= MAX_BLOCKS_IN_MCU && 1 <= |dcTables| == |acTables| <= MAX_COMPS_IN_SCAN
      && (forall j | 0 <= j < |members| :: members[j] < |dcTables|)
      && (forall c | 0 <= c < |dcTables| :: dcTables[c] < NUM_HUFF_TBLS)
      && forall c | 0 <= c < |acTables| :: acTables[c] < NUM_HUFF_TBLS
    }
  }

  type Mcu = seq<Block>

  predicate Laid(l: Layout, mcus: seq<Mcu>) {
    l.Valid() && forall i | 0 <= i < |mcus| :: |mcus[i]| == |l.members|
  }

  /** How a coefficient is sent: the zeros before it, its size, and its bits. */
  function Sent(tbl: nat, b: Block, zeros: nat, t: nat, rest: Events): Events
    requires t < 64 && Size(AC, b, t) > 0
  {
    var v := Size(AC, b, t);
    var n := BitLength(v);
    Cons(Symbol(tbl, ((16 * zeros + n) % 256) as byte), Cons(Raw(SignedBits(b[Natural(t)] < 0, v, n), n), rest))
  }

  /** The AC coefficients from zigzag index `k` on. */
  function AcPlan(tbl: nat, b: Block, k: nat, rest: Events): Events
    requires k <= 64
    decreases 64 - k
  {
    if k > 63 then rest
    else
      var t := FirstNonzero(AC, b, k);
      if t > 63 then Cons(Symbol(tbl, 0), rest)
      else if t - k > 15 then Cons(Symbol(tbl, 0xF0), AcPlan(tbl, b, k + 16, rest))
      else Sent(tbl, b, t - k, t, AcPlan(tbl, b, t + 1, rest))
  }

  function BlockPlan(l: Layout, c: nat, b: Block, last: int, rest: Events): Events
    requires l.Valid() && c < |l.dcTables|
  {
    Dc.Difference(l.dcTables[c], b[0] - last, AcPlan(NUM_HUFF_TBLS + l.acTables[c], b, 1, rest))
  }

  /** What stands for the blocks from block `j` of MCU `i` up to MCU `end`; `last` holds the
      previous DC value of each component. */
  function BasePlan(l: Layout, mcus: seq<Mcu>, end: nat, i: nat, j: nat, last: seq<int>): Events
    requires Laid(l, mcus) && i <= end <= |mcus| && j <= |l.members| && |last| == |l.dcTables|
    decreases end - i, |l.members| - j
  {
    if i == end then Nil
    else if j == |l.members| then BasePlan(l, mcus, end, i + 1, 0, last)
    else
      var c, b := l.members[j], mcus[i][j];
      BlockPlan(l, c, b, last[c], BasePlan(l, mcus, end, i, j + 1, last[c := b[0]]))
  }

  function Zero(l: Layout): (last: seq<int>)
    ensures |last| == |l.dcTables|
  {
    seq(|l.dcTables|, _ => 0)
  }

  /** The largest size that the symbol of a coefficient has room for. */
  const MAX_SIZE := 15

  /** A block of 16-bit coefficients for which there can be symbols: no AC coefficient is
      -32768, and the difference from the DC value `last` before has at most 15 bits. */
  predicate BlockFits(b: Block, last: int) {
    -0x8000 <= b[0] < 0x8000 && Abs(b[0] - last) < Shl(1, MAX_SIZE) && forall k | 1 <= k <= 63 :: Size(AC, b, k) < Shl(1, MAX_SIZE)
  }

  /** A block of 16-bit coefficients as 8-bit samples give them, after another with DC value
      `last`: the difference has at most 11 bits and the AC coefficients at most 10. */
  predicate BlockSmall(b: Block, last: int) {
    -0x8000 <= b[0] < 0x8000 && Abs(b[0] - last) < Shl(1, MAX_COEF_BITS + 1) && forall k | 1 <= k <= 63 :: Size(AC, b, k) < Shl(1, MAX_COEF_BITS)
  }

  /** These bounds in numbers. */
  lemma Magnitudes(b: Block, last: int)
    ensures BlockSmall(b, last) <==> -0x8000 <= b[0] < 0x8000 && Abs(b[0] - last) <= 2047
                                     && forall k | 1 <= k <= 63 :: Abs(b[Natural(k)]) <= 1023
    ensures BlockFits(b, last) <==> -0x8000 <= b[0] < 0x8000 && Abs(b[0] - last) <= 32767
                                    && forall k | 1 <= k <= 63 :: Abs(b[Natural(k)]) <= 32767
  {
    Powers();
    assert Shl(1, 10) == 1024 && Shl(1, 11) == 2048 by { ShlBy2(1, 8); assert Shl(1, 11) == 2 * Shl(1, 10); }
    hide Natural, Shl;
    forall k | 1 <= k <= 63 ensures Size(AC, b, k) == Abs(b[Natural(k)]) {}
  }

  lemma Ten(n: nat)
    ensures n < Shl(1, MAX_COEF_BITS) ==> n < Shl(1, MAX_SIZE)
    ensures n < Shl(1, MAX_COEF_BITS + 1) ==> n < Shl(1, MAX_SIZE)
  {
    hide Shl;
    ShlExponent(MAX_COEF_BITS, MAX_SIZE);
    ShlExponent(MAX_COEF_BITS + 1, MAX_SIZE);
  }

  lemma SmallFits(b: Block, last: int)
    requires BlockSmall(b, last)
    ensures BlockFits(b, last)
  {
    hide Shl, Size;
    Ten(Abs(b[0] - last));
    forall k | 1 <= k <= 63 ensures Size(AC, b, k) < Shl(1, MAX_SIZE) { Ten(Size(AC, b, k)); }
  }

  /** All blocks from there on are small. */
  predicate SmallRange(l: Layout, mcus: seq<Mcu>, end: nat, i: nat, j: nat, last: seq<int>)
    requires Laid(l, mcus) && i <= end <= |mcus| && j <= |l.members| && |last| == |l.dcTables|
    decreases end - i, |l.members| - j
  {
    if i == end then true
    else if j == |l.members| then SmallRange(l, mcus, end, i + 1, 0, last)
    else
      var c, b := l.members[j], mcus[i][j];
      BlockSmall(b, last[c]) && SmallRange(l, mcus, end, i, j + 1, last[c := b[0]])
  }

  lemma {:induction false} SmallInRange(l: Layout, mcus: seq<Mcu>, end: nat, i: nat, j: nat, last: seq<int>)
    requires Laid(l, mcus) && i <= end <= |mcus| && j <= |l.members| && |last| == |l.dcTables|
    requires SmallRange(l, mcus, end, i, j, last)
    ensures InRange(l, mcus, end, i, j, last)
    decreases end - i, |l.members| - j
  {
    hide BlockSmall, BlockFits;
    if i < end {
      if j == |l.members| {
        SmallInRange(l, mcus, end, i + 1, 0, last);
      } else {
        var c, b := l.members[j], mcus[i][j];
        SmallFits(b, last[c]);
        SmallInRange(l, mcus, end, i, j + 1, last[c := b[0]]);
      }
    }
  }

  /** All blocks from there on fit. */
  predicate InRange(l: Layout, mcus: seq<Mcu>, end: nat, i: nat, j: nat, last: seq<int>)
    requires Laid(l, mcus) && i <= end <= |mcus| && j <= |l.members| && |last| == |l.dcTables|
    decreases end - i, |l.members| - j
  {
    if i == end then true
    else if j == |l.members| then InRange(l, mcus, end, i + 1, 0, last)
    else
      var c, b := l.members[j], mcus[i][j];
      BlockFits(b, last[c]) && InRange(l, mcus, end, i, j + 1, last[c := b[0]])
  }

  // --------------------------------------------------------- unfolding the plan

  lemma AcEnds(tbl: nat, b: Block, rest: Events)
    ensures AcPlan(tbl, b, 64, rest) == rest
  {
  }

  lemma AcIsEob(tbl: nat, b: Block, k: nat, rest: Events)
    requires k <= 63 && FirstNonzero(AC, b, k) > 63
    ensures AcPlan(tbl, b, k, rest) == Cons(Symbol(tbl, 0), rest)
  {
    hide FirstNonzero, Sent;
  }

  lemma AcIsZeros(tbl: nat, b: Block, k: nat, t: nat, rest: Events)
    requires k <= 63 && t == FirstNonzero(AC, b, k) <= 63 && t - k > 15
    ensures AcPlan(tbl, b, k, rest) == Cons(Symbol(tbl, 0xF0), AcPlan(tbl, b, k + 16, rest))
  {
    hide FirstNonzero, Sent;
  }

  lemma AcIsCoef(tbl: nat, b: Block, k: nat, t: nat, rest: Events)
    requires k <= 63 && t == FirstNonzero(AC, b, k) <= 63 && t - k <= 15
    ensures AcPlan(tbl, b, k, rest) == Sent(tbl, b, t - k, t, AcPlan(tbl, b, t + 1, rest))
  {
    hide FirstNonzero, Sent;
  }

  lemma PlanBlock(l: Layout, mcus: seq<Mcu>, end: nat, i: nat, j: nat, last: seq<int>)
    requires Laid(l, mcus) && i < end <= |mcus| && j < |l.members| && |last| == |l.dcTables|
    ensures var c, b := l.members[j], mcus[i][j];
            && BasePlan(l, mcus, end, i, j, last)
               == BlockPlan(l, c, b, last[c], BasePlan(l, mcus, end, i, j + 1, last[c := b[0]]))
            && (InRange(l, mcus, end, i, j, last)
                <==> BlockFits(b, last[c]) && InRange(l, mcus, end, i, j + 1, last[c := b[0]]))
            && (SmallRange(l, mcus, end, i, j, last)
                <==> BlockSmall(b, last[c]) && SmallRange(l, mcus, end, i, j + 1, last[c := b[0]]))
  {
    hide BlockPlan, BlockSmall, BlockFits;
  }

  lemma PlanMcu(l: Layout, mcus: seq<Mcu>, end: nat, i: nat, last: seq<int>)
    requires Laid(l, mcus) && i < end <= |mcus| && |last| == |l.dcTables|
    ensures BasePlan(l, mcus, end, i, |l.members|, last) == BasePlan(l, mcus, end, i + 1, 0, last)
    ensures InRange(l, mcus, end, i, |l.members|, last) <==> InRange(l, mcus, end, i + 1, 0, last)
    ensures SmallRange(l, mcus, end, i, |l.members|, last) <==> SmallRange(l, mcus, end, i + 1, 0, last)
  {
    hide BlockPlan, BlockSmall, BlockFits;
  }

  lemma PlanDone(l: Layout, mcus: seq<Mcu>, end: nat, last: seq<int>)
    requires Laid(l, mcus) && end <= |mcus| && |last| == |l.dcTables|
    ensures BasePlan(l, mcus, end, end, 0, last) == Nil && InRange(l, mcus, end, end, 0, last)
    ensures SmallRange(l, mcus, end, end, 0, last)
  {
  }

  /** A coefficient that is not too large. */
  lemma SentFits(tbl: nat, b: Block, zeros: nat, t: nat, rest: Events) returns (v: nat, n: nat)
    requires t < 64 && 0 < Size(AC, b, t) < Shl(1, MAX_SIZE) && zeros <= 15
    ensures v == Size(AC, b, t) == Abs(b[Natural(t)]) && n == BitLength(v) && 1 <= n <= MAX_SIZE && v < Shl(1, n)
    ensures Size(AC, b, t) < Shl(1, MAX_COEF_BITS) ==> n <= MAX_COEF_BITS
    ensures 16 * zeros + n < 256 && (16 * zeros + n) / 16 == zeros && (16 * zeros + n) % 16 == n
    ensures Sent(tbl, b, zeros, t, rest)
            == Cons(Symbol(tbl, (16 * zeros + n) as byte), Cons(Raw(SignedBits(b[Natural(t)] < 0, v, n), n), rest))
  {
    v, n := Size(AC, b, t), BitLength(Size(AC, b, t));
    assert Size(AC, b, t) == Abs(b[Natural(t)]);
    hide Shl, Log2, Size, SignedBits, Natural;
    ExponentOrder(n - 1, MAX_COEF_BITS);
    ExponentOrder(n - 1, MAX_SIZE);
  }

  /** A coefficient of a block that fits. */
  lemma SentIs(tbl: nat, b: Block, zeros: nat, t: nat, rest: Events, last: int) returns (v: nat, n: nat)
    requires 1 <= t <= 63 && Size(AC, b, t) > 0 && zeros <= 15 && BlockFits(b, last)
    ensures v == Size(AC, b, t) == Abs(b[Natural(t)]) && n == BitLength(v) && 1 <= n <= MAX_SIZE && v < Shl(1, n)
    ensures BlockSmall(b, last) ==> n <= MAX_COEF_BITS
    ensures 16 * zeros + n < 256 && (16 * zeros + n) / 16 == zeros && (16 * zeros + n) % 16 == n
    ensures Sent(tbl, b, zeros, t, rest)
            == Cons(Symbol(tbl, (16 * zeros + n) as byte), Cons(Raw(SignedBits(b[Natural(t)] < 0, v, n), n), rest))
  {
    hide Shl, Log2, Size, SignedBits, Natural, Sent;
    v, n := SentFits(tbl, b, zeros, t, rest);
  }

  // ------------------------------------------------------------------- segments

  /** What stands for the MCUs of a segment. */
  function Segment(l: Layout, mcus: seq<Mcu>, interval: nat, start: nat): Events
    requires Laid(l, mcus) && start <= |mcus|
  {
    BasePlan(l, mcus, SegmentEnd(interval, |mcus|, start), start, 0, Zero(l))
  }
}
