/** The symbols and bits that stand for the blocks of a first AC scan (section G.1.2.2 of
  ITU-T T.81). */
module AcFirstModel {
  import opened Shifts
  import opened BitStrings
  import opened CodeEvents
  import opened Zigzag
  import opened PointTransform
  import opened AcRefineRun
  import opened AcRefineModel
  import opened Wrappers

  const MAX_COEF_BITS := 10

  /** The number of significant bits. */
  function BitLength(v: nat): (n: nat)
    requires v > 0
    ensures n > 0 && Shl(1, n - 1) <= v < Shl(1, n)
  {
    Log2Bounds(v);
    Log2(v) + 1
  }

  /** The bits appended for a value of `n` bits: the magnitude, complemented if negative. */
  function SignedBits(negative: bool, v: nat, n: nat): (bits: nat)
    requires v < Shl(1, n)
    ensures bits < Shl(1, n)
  {
    if negative then Shl(1, n) - 1 - v else v
  }

  /** `HUFF_EXTEND` (figure F.12). */
  function Extend(x: nat, s: nat): int
    requires s > 0
  {
    if x < Shl(1, s - 1) then x - Shl(1, s) + 1 else x
  }

  /** Extending the sign undoes the complement. */
  lemma ExtendInverts(negative: bool, v: nat)
    requires v > 0
    ensures Extend(SignedBits(negative, v, BitLength(v)), BitLength(v)) == Signed(negative, v)
  {
    var n := BitLength(v);
    assert Shl(1, n) == 2 * Shl(1, n - 1);
  }

  /** The first of the bits tells the sign, and the bits of a number and of its negative are
      complements of each other. */
  lemma SignFirst(negative: bool, v: nat)
    requires v > 0
    ensures var n, bits := BitLength(v), SignedBits(negative, v, BitLength(v));
            (bits < Shl(1, n - 1) <==> negative) && bits + SignedBits(!negative, v, n) == Shl(1, n) - 1
  {
    assert Shl(1, BitLength(v)) == 2 * Shl(1, BitLength(v) - 1);
  }

  /** The first coefficient from `k` on that is not zero after the point transform. */
  function FirstNonzero(band: Band, b: Block, k: nat): (t: nat)
    requires band.Valid() && k <= band.se + 1
    ensures k <= t <= band.se + 1 && (t <= band.se ==> Size(band, b, t) > 0)
    ensures forall j | k <= j < t :: Size(band, b, j) == 0
    decreases band.se + 1 - k
  {
    if k > band.se || Size(band, b, k) > 0 then k else FirstNonzero(band, b, k + 1)
  }

  predicate Empty(band: Band, b: Block)
    requires band.Valid()
  {
    FirstNonzero(band, b, band.ss) > band.se
  }

  /** How many blocks from block `i` on join a run of `run` blocks. */
  function EmptyRun(band: Band, blocks: seq<Block>, run: nat, i: nat): (n: nat)
    requires band.Valid() && i <= |blocks|
    ensures n <= |blocks| - i
    ensures run <= MAX_EOBRUN ==> run + n <= MAX_EOBRUN
    decreases |blocks| - i
  {
    if i == |blocks| || run >= MAX_EOBRUN || !Empty(band, blocks[i]) then 0
    else 1 + EmptyRun(band, blocks, run + 1, i + 1)
  }

  /** What stands for the blocks from `i` on when `e` of them belong to the current run. */
  function FirstBlocks(band: Band, blocks: seq<Block>, i: nat, e: nat): Events
    requires band.Valid() && i <= |blocks|
    decreases |blocks| - i, 66
  {
    if i == |blocks| then Nil
    else if e > 0 then FirstBlocks(band, blocks, i + 1, e - 1)
    else FirstPlan(band, blocks, i, band.ss)
  }

  /** What stands for a coefficient that is not zero.  (The encoder rejects magnitudes of
      more than 10 bits, so that the symbol is below 256.) */
  function Coefficient(band: Band, b: Block, zeros: nat, t: nat, rest: Events): Events
    requires t < 64 && Size(band, b, t) > 0 && zeros <= 15
  {
    var v := Size(band, b, t);
    var n := BitLength(v);
    Cons(Symbol(0, ((16 * zeros + n) % 256) as byte), Cons(Raw(SignedBits(b[Natural(t)] < 0, v, n), n), rest))
  }

  /** What stands for block `i` from zigzag index `k` on, and for the blocks after it. */
  function FirstPlan(band: Band, blocks: seq<Block>, i: nat, k: nat): Events
    requires band.Valid() && i < |blocks| && k <= 64
    decreases |blocks| - i, 65 - k
  {
    if k > band.se then FirstBlocks(band, blocks, i + 1, 0)
    else
      var t := FirstNonzero(band, blocks[i], k);
      if t > band.se then
        var n := EmptyRun(band, blocks, 1, i + 1);
        Eob(1 + n, FirstBlocks(band, blocks, i + 1, n))
      else if t - k > 15 then Cons(Symbol(0, 0xF0), FirstPlan(band, blocks, i, k + 16))
      else Coefficient(band, blocks[i], t - k, t, FirstPlan(band, blocks, i, t + 1))
  }

  // --------------------------------------------------------- unfolding the plan

  lemma FirstPlanEnds(band: Band, blocks: seq<Block>, i: nat, k: nat)
    requires band.Valid() && i < |blocks| && band.se < k <= 64
    ensures FirstPlan(band, blocks, i, k) == FirstBlocks(band, blocks, i + 1, 0)
  {
    hide FirstBlocks;
  }

  lemma FirstPlanIsEob(band: Band, blocks: seq<Block>, i: nat, k: nat)
    requires band.Valid() && i < |blocks| && k <= band.se && FirstNonzero(band, blocks[i], k) > band.se
    ensures var n := EmptyRun(band, blocks, 1, i + 1);
            FirstPlan(band, blocks, i, k) == Eob(1 + n, FirstBlocks(band, blocks, i + 1, n))
  {
    hide FirstBlocks, EmptyRun, FirstNonzero, Eob, Coefficient;
  }

  lemma FirstPlanIsZeros(band: Band, blocks: seq<Block>, i: nat, k: nat, t: nat)
    requires band.Valid() && i < |blocks| && k <= band.se && t == FirstNonzero(band, blocks[i], k) <= band.se && t - k > 15
    ensures FirstPlan(band, blocks, i, k) == Cons(Symbol(0, 0xF0), FirstPlan(band, blocks, i, k + 16))
  {
    hide FirstBlocks, EmptyRun, FirstNonzero, Eob, Coefficient;
  }

  lemma FirstPlanIsCoef(band: Band, blocks: seq<Block>, i: nat, k: nat, t: nat)
    requires band.Valid() && i < |blocks| && k <= band.se && t == FirstNonzero(band, blocks[i], k) <= band.se && t - k <= 15
    ensures FirstPlan(band, blocks, i, k)
            == Coefficient(band, blocks[i], t - k, t, FirstPlan(band, blocks, i, t + 1))
  {
    hide FirstBlocks, EmptyRun, FirstNonzero, Eob, Coefficient;
  }

  lemma {:induction false} SkipZeros(band: Band, b: Block, k: nat, m: nat)
    requires band.Valid() && k <= band.se + 1 && k <= m <= FirstNonzero(band, b, k)
    ensures FirstNonzero(band, b, m) == FirstNonzero(band, b, k)
    decreases m - k
  {
    if k < m { SkipZeros(band, b, k + 1, m); }
  }

  lemma {:induction false} NonzeroIs(band: Band, b: Block, k: nat, t: nat)
    requires band.Valid() && k <= t <= band.se + 1 && (t <= band.se ==> Size(band, b, t) > 0)
    requires forall j | k <= j < t :: Size(band, b, j) == 0
    ensures FirstNonzero(band, b, k) == t
    decreases t - k
  {
    if k < t { NonzeroIs(band, b, k + 1, t); }
  }

  lemma {:induction false} EmptyAhead(band: Band, blocks: seq<Block>, run: nat, i: nat)
    requires band.Valid() && i <= |blocks|
    ensures forall j | i <= j < i + EmptyRun(band, blocks, run, i) :: Empty(band, blocks[j])
    decreases |blocks| - i
  {
    hide Empty;
    if !(i == |blocks| || run >= MAX_EOBRUN || !Empty(band, blocks[i])) {
      EmptyAhead(band, blocks, run + 1, i + 1);
    }
  }

  /** All of the next `e` blocks are empty. */
  ghost predicate EmptyBlocks(band: Band, blocks: seq<Block>, i: nat, e: nat)
    requires band.Valid()
  {
    i + e <= |blocks| && forall j | i <= j < i + e :: Empty(band, blocks[j])
  }

  /** The magnitudes are within what the encoder accepts. */
  ghost predicate Small(band: Band, b: Block)
    requires band.Valid()
  {
    forall k | band.ss <= k <= band.se :: Size(band, b, k) < Shl(1, MAX_COEF_BITS)
  }
}
