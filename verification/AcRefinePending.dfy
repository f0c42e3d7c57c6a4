/** What the AC refinement encoder still has to emit: the run of blocks it has counted, the
  correction bits it has buffered, and what comes after them. */
module AcRefinePending {
  import opened Shifts
  import opened CodeEvents
  import opened Zigzag
  import opened PointTransform
  import opened AcRefineRun
  import opened AcRefineModel
  import opened Wrappers

  /** Buffered correction bits. */
  function BitEvents(bits: seq<nat>, from: nat, end: nat, rest: Events): Events
    requires end <= |bits|
    decreases end - from
  {
    if from >= end then rest else Cons(Raw(bits[from], 1), BitEvents(bits, from + 1, end, rest))
  }

  lemma {:induction false} BitEventsSplit(bits: seq<nat>, from: nat, mid: nat, end: nat, rest: Events)
    requires from <= mid <= end <= |bits|
    ensures BitEvents(bits, from, end, rest) == BitEvents(bits, from, mid, BitEvents(bits, mid, end, rest))
    decreases mid - from
  {
    if from < mid { BitEventsSplit(bits, from + 1, mid, end, rest); }
  }

  lemma {:induction false} BitEventsSame(a: seq<nat>, b: seq<nat>, from: nat, end: nat, rest: Events)
    requires end <= |a| && end <= |b| && forall j | from <= j < end :: a[j] == b[j]
    ensures BitEvents(a, from, end, rest) == BitEvents(b, from, end, rest)
    decreases end - from
  {
    if from < end { BitEventsSame(a, b, from + 1, end, rest); }
  }

  /** From `start` on the buffer holds the correction bits of the coefficients from `k` up
      to before `end`. */
  ghost predicate Buffered(band: Band, b: Block, bits: seq<nat>, start: nat, k: nat, end: nat)
    requires end <= 64
    decreases end
  {
    if k >= end then start <= |bits|
    else
      && Buffered(band, b, bits, start, k, end - 1)
      && (Size(band, b, end - 1) > 1 ==>
            var n := start + OldCount(band, b, k, end - 1);
            n < |bits| && bits[n] == Size(band, b, end - 1) % 2)
  }

  lemma {:induction false} BufferedSame(band: Band, b: Block, bits: seq<nat>, more: seq<nat>, start: nat, k: nat, end: nat)
    requires end <= 64 && Buffered(band, b, bits, start, k, end) && |bits| == |more|
    requires forall j | start <= j < start + OldCount(band, b, k, end) && j < |bits| :: more[j] == bits[j]
    ensures Buffered(band, b, more, start, k, end)
    decreases end
  {
    if k < end { BufferedSame(band, b, bits, more, start, k, end - 1); }
  }

  lemma {:induction false} BufferedFits(band: Band, b: Block, bits: seq<nat>, start: nat, k: nat, end: nat)
    requires end <= 64 && Buffered(band, b, bits, start, k, end)
    ensures start + OldCount(band, b, k, end) <= |bits|
    decreases end
  {
    if k < end { BufferedFits(band, b, bits, start, k, end - 1); }
  }

  /** The last coefficient: its bit, if it has one, is the last in the buffer. */
  lemma BufferedLast(band: Band, b: Block, bits: seq<nat>, start: nat, k: nat, end: nat, rest: Events) returns (last: Events)
    requires k < end <= 64 && Buffered(band, b, bits, start, k, end)
    ensures Buffered(band, b, bits, start, k, end - 1)
    ensures OldCount(band, b, k, end - 1) <= OldCount(band, b, k, end) && start + OldCount(band, b, k, end) <= |bits|
    ensures last == OldBits(band, b, end - 1, end, rest)
    ensures last == BitEvents(bits, start + OldCount(band, b, k, end - 1), start + OldCount(band, b, k, end), rest)
  {
    BufferedFits(band, b, bits, start, k, end);
    last := OldBits(band, b, end - 1, end, rest);
  }

  lemma NoBits(band: Band, b: Block, bits: seq<nat>, start: nat, k: nat, rest: Events)
    requires k <= 64 && start <= |bits|
    ensures OldCount(band, b, k, k) == 0 && BitEvents(bits, start, start, rest) == rest == OldBits(band, b, k, k, rest)
  {
  }

  lemma {:induction false} BufferedBits(band: Band, b: Block, bits: seq<nat>, start: nat, k: nat, end: nat, n: nat,
                                        rest: Events)
    requires k <= end <= 64 && Buffered(band, b, bits, start, k, end)
    requires n == OldCount(band, b, k, end) && start + n <= |bits|
    ensures BitEvents(bits, start, start + n, rest) == OldBits(band, b, k, end, rest)
    decreases end
  {
    hide OldBits, BitEvents, OldCount, Buffered;
    if k == end {
      NoBits(band, b, bits, start, k, rest);
    } else {
      var last := BufferedLast(band, b, bits, start, k, end, rest);
      var m := OldCount(band, b, k, end - 1);
      OldBitsSplit(band, b, k, end - 1, end, rest);
      BitEventsSplit(bits, start, start + m, start + n, rest);
      BufferedBits(band, b, bits, start, k, end - 1, m, last);
    }
  }

  lemma {:induction false} ZerosGrow(band: Band, b: Block, k: nat, m: nat, end: nat)
    requires k <= m <= end <= 64
    ensures Zeros(band, b, k, m) <= Zeros(band, b, k, end)
    decreases end
  {
    if m < end { ZerosGrow(band, b, k, m, end - 1); }
  }

  lemma {:induction false} ZerosSplit(band: Band, b: Block, k: nat, m: nat, end: nat)
    requires k <= m <= end <= 64
    ensures Zeros(band, b, k, end) == Zeros(band, b, k, m) + Zeros(band, b, m, end)
    decreases end
  {
    if m < end { ZerosSplit(band, b, k, m, end - 1); }
  }

  lemma {:induction false} SixteenthSame(band: Band, b: Block, k: nat, n: nat, end: nat, later: nat)
    requires k <= end <= later <= 64 && n < Zeros(band, b, k, end)
    ensures n < Zeros(band, b, k, later) && NthZero(band, b, k, n, later) == NthZero(band, b, k, n, end)
    decreases later
  {
    if end < later {
      SixteenthSame(band, b, k, n, end, later - 1);
      ZerosGrow(band, b, k, end, later - 1);
    }
  }

  lemma {:induction false} NoOldBits(band: Band, b: Block, m: nat, end: nat, rest: Events)
    requires m <= end <= 64 && forall j | m <= j < end :: Size(band, b, j) <= 1
    ensures OldBits(band, b, m, end, rest) == rest && OldCount(band, b, m, end) == 0
    decreases end - m
  {
    if m < end {
      NoOldBits(band, b, m + 1, end, rest);
      NoOldCount(band, b, m, end);
    }
  }

  lemma {:induction false} NoOldCount(band: Band, b: Block, m: nat, end: nat)
    requires m <= end <= 64 && forall j | m <= j < end :: Size(band, b, j) <= 1
    ensures OldCount(band, b, m, end) == 0
    decreases end
  {
    if m < end { NoOldCount(band, b, m, end - 1); }
  }

  lemma {:induction false} NoneBuffered(band: Band, b: Block, bits: seq<nat>, m: nat, end: nat)
    requires m <= end <= 64 && forall j | m <= j < end :: Size(band, b, j) <= 1
    ensures Buffered(band, b, bits, 0, m, end)
    decreases end
  {
    if m < end { NoneBuffered(band, b, bits, m, end - 1); }
  }

  /** Correction bits in two parts. */
  lemma {:induction false} OldBitsSplit(band: Band, b: Block, k: nat, m: nat, end: nat, rest: Events)
    requires k <= m <= end <= 64
    ensures OldBits(band, b, k, end, rest) == OldBits(band, b, k, m, OldBits(band, b, m, end, rest))
    decreases m - k
  {
    if k < m { OldBitsSplit(band, b, k + 1, m, end, rest); }
  }

  lemma {:induction false} FirstNewIs(band: Band, b: Block, k: nat, t: nat)
    requires band.Valid() && k <= t <= band.se && Size(band, b, t) == 1
    requires forall j | k <= j < t :: Size(band, b, j) != 1
    ensures FirstNew(band, b, k) == t
    decreases t - k
  {
    if k < t { FirstNewIs(band, b, k + 1, t); }
  }

  lemma {:induction false} NothingNew(band: Band, b: Block, k: nat)
    requires band.Valid() && k <= band.se + 1 && forall j | k <= j <= band.se :: Size(band, b, j) != 1
    ensures FirstNew(band, b, k) == band.se + 1
    decreases band.se + 1 - k
  {
    if k <= band.se { NothingNew(band, b, k + 1); }
  }

  /** Without new coefficients, each is either still zero or has a correction bit. */
  lemma {:induction false} ZeroOrOld(band: Band, b: Block, k: nat, end: nat)
    requires k <= end <= 64 && forall j | k <= j < end :: Size(band, b, j) != 1
    ensures Zeros(band, b, k, end) + OldCount(band, b, k, end) == end - k
    decreases end
  {
    if k < end { ZeroOrOld(band, b, k, end - 1); }
  }

  // ----------------------------------------------------------------- what is due

  /** The current run, ended here, and then `rest`. */
  function Flush(run: nat, bits: seq<nat>, be: nat, rest: Events): Events
    requires run <= MAX_EOBRUN && be <= |bits|
  {
    if run == 0 then rest else Eob(run, BitEvents(bits, 0, be, rest))
  }

  /** What is due before block `i`: the run goes on as far as the blocks allow. */
  function Pend(band: Band, blocks: seq<Block>, run: nat, bits: seq<nat>, be: nat, i: nat): Events
    requires band.Valid() && i <= |blocks| && run <= MAX_EOBRUN && be <= |bits|
  {
    if run == 0 then Blocks(band, blocks, i, 0)
    else
      var n := Joins(band, blocks, run, be, i);
      Eob(run + n, BitEvents(bits, 0, be, Blocks(band, blocks, i, n)))
  }

  /** A block with a new coefficient ends the run. */
  lemma PendNew(band: Band, blocks: seq<Block>, run: nat, bits: seq<nat>, be: nat, i: nat)
    requires band.Valid() && i < |blocks| && run <= MAX_EOBRUN && be <= |bits| && HasNew(band, blocks[i])
    ensures Pend(band, blocks, run, bits, be, i) == Flush(run, bits, be, Plan(band, blocks, i, band.ss))
  {
    hide Plan, Eob, BitEvents;
  }

  /** A run that is full ends. */
  lemma PendFull(band: Band, blocks: seq<Block>, run: nat, bits: seq<nat>, be: nat, i: nat)
    requires band.Valid() && i <= |blocks| && run <= MAX_EOBRUN && be <= |bits| && (i == |blocks| || Full(run, be))
    ensures Pend(band, blocks, run, bits, be, i) == Flush(run, bits, be, Blocks(band, blocks, i, 0))
  {
    hide Blocks, Eob, BitEvents;
  }

  /** Changes behind the buffered bits do not matter. */
  lemma PendSame(band: Band, blocks: seq<Block>, run: nat, a: seq<nat>, b: seq<nat>, be: nat, i: nat, rest: Events)
    requires band.Valid() && i <= |blocks| && run <= MAX_EOBRUN && be <= |a| && be <= |b|
    requires forall j | 0 <= j < be :: a[j] == b[j]
    ensures Pend(band, blocks, run, a, be, i) == Pend(band, blocks, run, b, be, i)
    ensures Flush(run, a, be, rest) == Flush(run, b, be, rest)
  {
    hide Blocks, Eob, Joins;
    BitEventsSame(a, b, 0, be, rest);
    BitEventsSame(a, b, 0, be, Blocks(band, blocks, i, Joins(band, blocks, run, be, i)));
  }

  /** Nothing but zeros from the sixteenth of a run of zeros on. */
  ghost predicate Quiet(band: Band, b: Block, k: nat, end: nat)
    requires k <= end <= 64
  {
    Zeros(band, b, k, end) > 15 ==> forall j | NthZero(band, b, k, 15, end) <= j < end :: Size(band, b, j) == 0
  }

  /** Sixteen zeros are taken off a run, together with the bits before the sixteenth. */
  lemma TakeSixteen(band: Band, b: Block, k: nat, end: nat, bits: seq<nat>) returns (m: nat)
    requires k <= end <= 64 && Zeros(band, b, k, end) > 15 && Quiet(band, b, k, end)
    ensures k <= m < end && m == NthZero(band, b, k, 15, end)
    ensures Zeros(band, b, m + 1, end) == Zeros(band, b, k, end) - 16 && OldCount(band, b, m + 1, end) == 0
    ensures Quiet(band, b, m + 1, end)
    ensures Buffered(band, b, bits, 0, m + 1, end)
  {
    hide Size;
    m := NthZero(band, b, k, 15, end);
    ZerosBefore(band, b, k, 15, end);
    ZerosSplit(band, b, k, m, end);
    ZerosFront(band, b, m, end);
    NoOldCount(band, b, m + 1, end);
    NoneBuffered(band, b, bits, m + 1, end);
  }

  /** The correction bits before the sixteenth zero are all that are buffered. */
  lemma SixteenBits(band: Band, b: Block, bits: seq<nat>, start: nat, k: nat, end: nat, m: nat, rest: Events)
    requires k <= end <= 64 && Zeros(band, b, k, end) > 15 && Quiet(band, b, k, end)
    requires m == NthZero(band, b, k, 15, end) && Buffered(band, b, bits, start, k, end)
    ensures start + OldCount(band, b, k, end) <= |bits|
    ensures OldBits(band, b, k, m, rest) == BitEvents(bits, start, start + OldCount(band, b, k, end), rest)
  {
    hide Size, Zeros, NthZero, BitEvents, Buffered, OldBits, OldCount;
    NoOldBits(band, b, m, end, rest);
    OldBitsSplit(band, b, k, m, end, rest);
    BufferedFits(band, b, bits, start, k, end);
    BufferedBits(band, b, bits, start, k, end, OldCount(band, b, k, end), rest);
  }

  lemma StartCount(band: Band, b: Block, k: nat)
    requires k <= 64
    ensures OldCount(band, b, k, k) == 0 == Zeros(band, b, k, k)
  {
  }

  // ------------------------------------------------------------- inside a block

  /** `eob` is the index of the last new coefficient, or 0. */
  ghost predicate LastNew(band: Band, b: Block, eob: nat) {
    && band.Valid()
    && (eob > 0 ==> band.ss <= eob <= band.se && Size(band, b, eob) == 1)
    && forall j | band.ss <= j <= band.se && j > eob :: Size(band, b, j) != 1
  }

  lemma LastNewTells(band: Band, b: Block, eob: nat)
    requires LastNew(band, b, eob)
    ensures eob > 0 <==> HasNew(band, b)
  {
  }

  /** At zigzag index `k`, with everything before `k0` emitted: `r` zeros and `br` correction
      bits have been passed since, the bits being in the buffer from `start` on. */
  ghost predicate Track(band: Band, b: Block, bits: seq<nat>, start: nat, k0: nat, k: nat, r: nat, br: nat, eob: nat) {
    && LastNew(band, b, eob)
    && band.ss <= k0 <= k <= band.se + 1
    && (forall j | k0 <= j < k :: Size(band, b, j) != 1)
    && r == Zeros(band, b, k0, k) && br == OldCount(band, b, k0, k)
    && Buffered(band, b, bits, start, k0, k)
    && (k <= eob ==> Quiet(band, b, k0, k))
    && (eob > 0 && k > eob ==> k0 > eob)
  }

  lemma TrackStart(band: Band, b: Block, bits: seq<nat>, start: nat, k: nat, eob: nat)
    requires LastNew(band, b, eob) && band.ss <= k <= band.se + 1 && start <= |bits| && (eob > 0 && k > eob ==> k > eob)
    ensures Track(band, b, bits, start, k, k, 0, 0, eob)
  {
  }

  /** A coefficient that is still zero. */
  lemma TrackZero(band: Band, b: Block, bits: seq<nat>, start: nat, k0: nat, k: nat, r: nat, br: nat, eob: nat)
    requires Track(band, b, bits, start, k0, k, r, br, eob) && k <= band.se && Size(band, b, k) == 0
    ensures Track(band, b, bits, start, k0, k + 1, r + 1, br, eob)
  {
    hide Quiet, NthZero, FirstNew, OldBits;
    if k <= eob { QuietGrows(band, b, k0, k); }
  }

  lemma QuietGrows(band: Band, b: Block, k0: nat, k: nat)
    requires k0 <= k < 64 && Size(band, b, k) == 0 && Quiet(band, b, k0, k)
    ensures Quiet(band, b, k0, k + 1)
  {
    LastZero(band, b, k0, k);
    hide NthZero, Zeros, Size;
    if Zeros(band, b, k0, k) > 15 { SixteenthSame(band, b, k0, 15, k, k + 1); }
  }

  lemma LastZero(band: Band, b: Block, k0: nat, k: nat)
    requires k0 <= k < 64 && Size(band, b, k) == 0
    ensures Zeros(band, b, k0, k + 1) == Zeros(band, b, k0, k) + 1
    ensures NthZero(band, b, k0, Zeros(band, b, k0, k), k + 1) == k
  {
  }

  /** One that is nonzero already: its bit is appended to the buffer.  Up to the last new
      coefficient this happens only behind fewer than sixteen zeros. */
  lemma TrackOld(band: Band, b: Block, bits: seq<nat>, start: nat, k0: nat, k: nat, r: nat, br: nat, eob: nat)
    requires Track(band, b, bits, start, k0, k, r, br, eob) && k <= band.se && Size(band, b, k) > 1
    requires start + br < |bits| && (k <= eob ==> r <= 15)
    ensures Track(band, b, bits[start + br := Size(band, b, k) % 2], start, k0, k + 1, r, br + 1, eob)
  {
    hide Size;
    var more := bits[start + br := Size(band, b, k) % 2];
    BufferedMore(band, b, bits, more, start, k0, k, br);
  }

  lemma BufferedMore(band: Band, b: Block, bits: seq<nat>, more: seq<nat>, start: nat, k0: nat, k: nat, n: nat)
    requires k0 <= k < 64 && Buffered(band, b, bits, start, k0, k) && Size(band, b, k) > 1
    requires n == OldCount(band, b, k0, k) && start + n < |bits| && more == bits[start + n := Size(band, b, k) % 2]
    ensures Buffered(band, b, more, start, k0, k + 1)
  {
    BufferedSame(band, b, bits, more, start, k0, k);
  }

  /** One that becomes nonzero is the next in the plan. */
  lemma TrackNew(band: Band, b: Block, bits: seq<nat>, start: nat, k0: nat, k: nat, r: nat, br: nat, eob: nat, rest: Events)
    requires Track(band, b, bits, start, k0, k, r, br, eob) && k <= band.se && Size(band, b, k) == 1
    ensures k <= eob && FirstNew(band, b, k0) == k
    ensures Track(band, b, bits, 0, k + 1, k + 1, 0, 0, eob)
    ensures start + br <= |bits| && OldBits(band, b, k0, k, rest) == BitEvents(bits, start, start + br, rest)
  {
    hide Size, Zeros, OldCount, NthZero, FirstNew, OldBits, BitEvents;
    FirstNewIs(band, b, k0, k);
    StartCount(band, b, k + 1);
    BufferedFits(band, b, bits, start, k0, k);
    BufferedBits(band, b, bits, start, k0, k, br, rest);
  }

  /** Sixteen zeros are the next in the plan. */
  lemma TrackSixteen(band: Band, b: Block, bits: seq<nat>, start: nat, k0: nat, k: nat, r: nat, br: nat, eob: nat)
    returns (t: nat, m: nat)
    requires Track(band, b, bits, start, k0, k, r, br, eob) && r > 15 && k <= eob
    ensures t == FirstNew(band, b, k0) && k <= t <= band.se && Zeros(band, b, k0, t) > 15
    ensures m == NthZero(band, b, k0, 15, t) && k0 <= m < k && m == NthZero(band, b, k0, 15, k)
    ensures Track(band, b, bits, 0, m + 1, k, r - 16, 0, eob)
  {
    hide Size, Zeros, OldCount, NthZero, OldBits, BitEvents, Buffered, Quiet, FirstNew;
    m := TakeSixteen(band, b, k0, k, bits);
    NewAhead(band, b, k0, k, eob);
    t := FirstNew(band, b, k0);
    SixteenthSame(band, b, k0, 15, k, t);
  }

  lemma {:induction false} NewAhead(band: Band, b: Block, k0: nat, k: nat, eob: nat)
    requires LastNew(band, b, eob) && 0 < eob && k0 <= k <= eob && forall j | k0 <= j < k :: Size(band, b, j) != 1
    ensures k <= FirstNew(band, b, k0) <= band.se
    decreases eob - k0
  {
    if k0 < k { NewAhead(band, b, k0 + 1, k, eob); }
    else if k0 < eob && Size(band, b, k0) != 1 { NewAhead(band, b, k0 + 1, k0 + 1, eob); }
  }
}
