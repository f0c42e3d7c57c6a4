/** The symbols and bits that stand for the blocks of an AC refinement scan (section
  G.1.2.3 of ITU-T T.81), in the order in which they are decoded. */
module AcRefineModel {
  import opened JpegLimits
  import opened Shifts
  import opened BitStrings
  import opened CodeEvents
  import opened Zigzag
  import opened PointTransform
  import opened AcRefineRun
  import opened Wrappers

  const MAX_EOBRUN := 0x7FFF
  const MAX_CORR_BITS := 1000

  type Block = b: seq<int> | |b| == 64 witness seq(64, _ => 0)

  /** The magnitude of the coefficient at zigzag index `k` after the point transform. */
  function Size(band: Band, b: Block, k: nat): nat
    requires k < 64
  {
    Shr(Abs(b[Natural(k)]), band.al)
  }

  /** The first coefficient from `k` on that becomes nonzero in this scan. */
  function FirstNew(band: Band, b: Block, k: nat): (t: nat)
    requires band.Valid() && k <= band.se + 1
    ensures k <= t <= band.se + 1 && (t <= band.se ==> Size(band, b, t) == 1)
    ensures forall j | k <= j < t :: Size(band, b, j) != 1
    decreases band.se + 1 - k
  {
    if k > band.se || Size(band, b, k) == 1 then k else FirstNew(band, b, k + 1)
  }

  /** How many coefficients from `from` up to before `to` are still zero. */
  function Zeros(band: Band, b: Block, from: nat, end: nat): (n: nat)
    requires end <= 64
    decreases end
  {
    if from >= end then 0 else Zeros(band, b, from, end - 1) + if Size(band, b, end - 1) == 0 then 1 else 0
  }

  /** The index of the zero behind `n` others. */
  function NthZero(band: Band, b: Block, k: nat, n: nat, end: nat): (m: nat)
    requires k <= end <= 64 && n < Zeros(band, b, k, end)
    ensures k <= m < end && Size(band, b, m) == 0
    decreases end
  {
    if Size(band, b, end - 1) == 0 && n == Zeros(band, b, k, end - 1) then end - 1 else NthZero(band, b, k, n, end - 1)
  }

  /** The correction bits of the coefficients that are nonzero already. */
  function OldBits(band: Band, b: Block, from: nat, end: nat, rest: Events): Events
    requires end <= 64
    decreases 64 - from
  {
    if from >= end then rest
    else if Size(band, b, from) > 1 then Cons(Raw(Size(band, b, from) % 2, 1), OldBits(band, b, from + 1, end, rest))
    else OldBits(band, b, from + 1, end, rest)
  }

  function OldCount(band: Band, b: Block, from: nat, end: nat): (n: nat)
    requires end <= 64
    ensures from <= end ==> n <= end - from
    decreases end
  {
    if from >= end then 0 else OldCount(band, b, from, end - 1) + if Size(band, b, end - 1) > 1 then 1 else 0
  }

  /** The end-of-band symbol for a run of `run` blocks (figure G.4). */
  function Eob(run: nat, rest: Events): Events
    requires 0 < run <= MAX_EOBRUN
  {
    var n := Log2(run);
    Log2Fits(run);
    Cons(Symbol(0, (16 * n) as byte), if n > 0 then Cons(Raw(run - Shl(1, n), n), rest) else rest)
  }

  function Log2(v: nat): nat {
    if v / 2 == 0 then 0 else 1 + Log2(v / 2)
  }

  lemma {:induction false} Log2Bounds(v: nat)
    requires v > 0
    ensures Shl(1, Log2(v)) <= v < Shl(1, Log2(v) + 1)
  {
    if v / 2 != 0 {
      Log2Bounds(v / 2);
      ShlDouble(1, Log2(v / 2));
    }
  }

  /** The run length never needs more than 14 bits. */
  lemma Log2Fits(run: nat)
    requires 0 < run <= MAX_EOBRUN
    ensures Log2(run) <= 14 && Shl(1, Log2(run)) <= run < Shl(1, Log2(run) + 1)
  {
    hide Log2, Shl;
    Log2Bounds(run);
    Powers();
    ExponentOrder(Log2(run), 15);
  }

  /** The run must be ended: its counter or the buffer of correction bits is full. */
  predicate Full(run: nat, bits: nat) {
    run >= MAX_EOBRUN || bits > MAX_CORR_BITS - DCTSIZE2 + 1
  }

  /** That is as late as possible: the counter has 15 bits, and the correction bits of another
      block, up to 63, must fit into the buffer of 1000. */
  lemma FullInTime(run: nat, bits: nat)
    ensures Full(run, bits) <==> run >= 0x7FFF || bits + 63 > 1000
  {
  }

  predicate HasNew(band: Band, b: Block)
    requires band.Valid()
  {
    FirstNew(band, b, band.ss) <= band.se
  }

  /** How many blocks from block `i` on join a run of `run` blocks with `bits` bits. */
  function Joins(band: Band, blocks: seq<Block>, run: nat, bits: nat, i: nat): (n: nat)
    requires band.Valid() && i <= |blocks|
    ensures n <= |blocks| - i
    ensures run <= MAX_EOBRUN ==> run + n <= MAX_EOBRUN
    decreases |blocks| - i
  {
    if i == |blocks| || Full(run, bits) || HasNew(band, blocks[i]) then 0
    else 1 + Joins(band, blocks, run + 1, bits + OldCount(band, blocks[i], band.ss, band.se + 1), i + 1)
  }

  /** What stands for the blocks from `i` on when `e` of them belong to the current run. */
  function Blocks(band: Band, blocks: seq<Block>, i: nat, e: nat): Events
    requires band.Valid() && i <= |blocks|
    decreases |blocks| - i, 66
  {
    if i == |blocks| then Nil
    else if e > 0 then OldBits(band, blocks[i], band.ss, band.se + 1, Blocks(band, blocks, i + 1, e - 1))
    else Plan(band, blocks, i, band.ss)
  }

  /** What stands for block `i` from zigzag index `k` on, and for the blocks after it: a
      new coefficient behind a run of zeros, or sixteen zeros, each followed by the
      correction bits of the coefficients passed; or the end of the band. */
  function Plan(band: Band, blocks: seq<Block>, i: nat, k: nat): Events
    requires band.Valid() && i < |blocks| && k <= 64
    decreases |blocks| - i, 65 - k
  {
    if k > band.se then Blocks(band, blocks, i + 1, 0)
    else
      var b := blocks[i];
      var t := FirstNew(band, b, k);
      if t > band.se then
        var n := Joins(band, blocks, 1, OldCount(band, b, k, band.se + 1), i + 1);
        Eob(1 + n, OldBits(band, b, k, band.se + 1, Blocks(band, blocks, i + 1, n)))
      else if Zeros(band, b, k, t) > 15 then
        var m := NthZero(band, b, k, 15, t);
        Cons(Symbol(0, 0xF0), OldBits(band, b, k, m, Plan(band, blocks, i, m + 1)))
      else
        Cons(Symbol(0, (16 * Zeros(band, b, k, t) + 1) as byte),
             Cons(Raw(if b[Natural(t)] < 0 then 0 else 1, 1),
                  OldBits(band, b, k, t, Plan(band, blocks, i, t + 1))))
  }

  lemma PlanEnds(band: Band, blocks: seq<Block>, i: nat, k: nat)
    requires band.Valid() && i < |blocks| && band.se < k <= 64
    ensures Plan(band, blocks, i, k) == Blocks(band, blocks, i + 1, 0)
  {
    hide Blocks;
  }

  lemma PlanIsEob(band: Band, blocks: seq<Block>, i: nat, k: nat)
    requires band.Valid() && i < |blocks| && k <= band.se && FirstNew(band, blocks[i], k) > band.se
    ensures var n := Joins(band, blocks, 1, OldCount(band, blocks[i], k, band.se + 1), i + 1);
            Plan(band, blocks, i, k)
            == Eob(1 + n, OldBits(band, blocks[i], k, band.se + 1, Blocks(band, blocks, i + 1, n)))
  {
    hide Blocks, Joins, OldBits, Zeros, NthZero, FirstNew, Eob, OldCount;
  }

  lemma PlanIsZeros(band: Band, blocks: seq<Block>, i: nat, k: nat)
    requires band.Valid() && i < |blocks| && k <= band.se && FirstNew(band, blocks[i], k) <= band.se
    requires Zeros(band, blocks[i], k, FirstNew(band, blocks[i], k)) > 15
    ensures var m := NthZero(band, blocks[i], k, 15, FirstNew(band, blocks[i], k));
            Plan(band, blocks, i, k)
            == Cons(Symbol(0, 0xF0), OldBits(band, blocks[i], k, m, Plan(band, blocks, i, m + 1)))
  {
    hide Blocks, Joins, OldBits, Zeros, NthZero, FirstNew, Eob, OldCount;
  }

  lemma PlanIsNew(band: Band, blocks: seq<Block>, i: nat, k: nat)
    requires band.Valid() && i < |blocks| && k <= band.se && FirstNew(band, blocks[i], k) <= band.se
    requires Zeros(band, blocks[i], k, FirstNew(band, blocks[i], k)) <= 15
    ensures var b, t := blocks[i], FirstNew(band, blocks[i], k);
            Plan(band, blocks, i, k)
            == Cons(Symbol(0, (16 * Zeros(band, b, k, t) + 1) as byte),
                    Cons(Raw(if b[Natural(t)] < 0 then 0 else 1, 1),
                         OldBits(band, b, k, t, Plan(band, blocks, i, t + 1))))
  {
    hide Blocks, Joins, OldBits, Zeros, NthZero, FirstNew, Eob, OldCount, Natural;
  }

  lemma PlanIsZerosAt(band: Band, blocks: seq<Block>, i: nat, k: nat, t: nat, m: nat)
    requires band.Valid() && i < |blocks| && k <= t <= band.se && FirstNew(band, blocks[i], k) == t
    requires Zeros(band, blocks[i], k, t) > 15 && NthZero(band, blocks[i], k, 15, t) == m
    ensures Plan(band, blocks, i, k) == Cons(Symbol(0, 0xF0), OldBits(band, blocks[i], k, m, Plan(band, blocks, i, m + 1)))
  {
    hide Plan, OldBits, Zeros, FirstNew, NthZero;
    PlanIsZeros(band, blocks, i, k);
  }

  lemma PlanIsNewAt(band: Band, blocks: seq<Block>, i: nat, k: nat, t: nat, z: nat)
    requires band.Valid() && i < |blocks| && k <= t <= band.se && FirstNew(band, blocks[i], k) == t
    requires Zeros(band, blocks[i], k, t) == z <= 15
    ensures Plan(band, blocks, i, k)
            == Cons(Symbol(0, (16 * z + 1) as byte),
                    Cons(Raw(if blocks[i][Natural(t)] < 0 then 0 else 1, 1),
                         OldBits(band, blocks[i], k, t, Plan(band, blocks, i, t + 1))))
  {
    hide Plan, OldBits, Zeros, FirstNew, Natural;
    PlanIsNew(band, blocks, i, k);
  }

  /** The blocks that join a run have no new coefficients. */
  lemma {:induction false} JoinsNoNew(band: Band, blocks: seq<Block>, run: nat, bits: nat, i: nat)
    requires band.Valid() && i <= |blocks|
    ensures forall j | i <= j < i + Joins(band, blocks, run, bits, i) :: !HasNew(band, blocks[j])
    decreases |blocks| - i
  {
    hide Full, HasNew, OldCount;
    if !(i == |blocks| || Full(run, bits) || HasNew(band, blocks[i])) {
      JoinsNoNew(band, blocks, run + 1, bits + OldCount(band, blocks[i], band.ss, band.se + 1), i + 1);
    }
  }

  /** None of the next `e` blocks has new coefficients. */
  ghost predicate RunAhead(band: Band, blocks: seq<Block>, i: nat, e: nat)
    requires band.Valid()
  {
    i + e <= |blocks| && forall j | i <= j < i + e :: !HasNew(band, blocks[j])
  }

  lemma JoinsAhead(band: Band, blocks: seq<Block>, run: nat, bits: nat, i: nat)
    requires band.Valid() && i <= |blocks|
    ensures RunAhead(band, blocks, i, Joins(band, blocks, run, bits, i))
  {
    JoinsNoNew(band, blocks, run, bits, i);
  }

  lemma {:induction false} ZerosFront(band: Band, b: Block, k: nat, end: nat)
    requires k < end <= 64
    ensures Zeros(band, b, k, end) == Zeros(band, b, k + 1, end) + if Size(band, b, k) == 0 then 1 else 0
    decreases end
  {
    if k < end - 1 { ZerosFront(band, b, k, end - 1); }
  }

  lemma {:induction false} ZerosBefore(band: Band, b: Block, k: nat, n: nat, end: nat)
    requires k <= end <= 64 && n < Zeros(band, b, k, end)
    ensures Zeros(band, b, k, NthZero(band, b, k, n, end)) == n
    decreases end
  {
    if !(Size(band, b, end - 1) == 0 && n == Zeros(band, b, k, end - 1)) { ZerosBefore(band, b, k, n, end - 1); }
  }
}
