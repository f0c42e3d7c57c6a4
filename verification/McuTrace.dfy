/** What decoding an MCU of a sequential scan does, on any bit stream (section F.2.2 of
  ITU-T T.81): which coefficients are stored, and where the next MCU begins. */
module McuTrace {
  import opened JpegLimits
  import opened Shifts
  import opened BitStrings
  import opened CodeLengths
  import opened CanonicalCodes
  import opened HuffmanTables
  import opened Zigzag
  import opened AcFirstModel
  import BaseModel
  import BitReader
  import opened Wrappers

  type Place = p: nat | p < 64 witness 0

  /** The coefficients that are stored one after the other, and the position behind. */
  datatype Trace = Stop(at: nat) | Put(pos: Place, value: int, rest: Trace)

  /** A value stored into 16 bits. */
  function Jcoef(v: int): (c: int)
    ensures -0x8000 <= c < 0x8000
    ensures -0x8000 <= v < 0x8000 ==> c == v
  {
    (v + 0x8000) % 0x1_0000 - 0x8000
  }

  function Apply(block: seq<int>, trace: Trace): (r: seq<int>)
    requires |block| == 64
    ensures |r| == 64
    decreases trace
  {
    match trace
    case Stop(_) => block
    case Put(p, v, rest) => Apply(block[p := v], rest)
  }

  function End(trace: Trace): nat {
    match trace
    case Stop(at) => at
    case Put(_, _, rest) => End(rest)
  }

  ghost predicate Touches(trace: Trace, q: nat) {
    match trace
    case Stop(_) => false
    case Put(p, _, rest) => p == q || Touches(rest, q)
  }

  /** The blocks differ at most where the trace stores a coefficient. */
  ghost predicate SameBut(a: seq<int>, b: seq<int>, trace: Trace) {
    |a| == |b| == 64 && forall q: nat | q < 64 :: a[q] == b[q] || Touches(trace, q)
  }

  /** What has been stored before by a call that was given up does not matter. */
  lemma {:induction false} StoredAgain(a: seq<int>, b: seq<int>, trace: Trace)
    requires SameBut(a, b, trace)
    ensures Apply(a, trace) == Apply(b, trace)
    decreases trace
  {
    if trace.Put? {
      StoredAgain(a[trace.pos := trace.value], b[trace.pos := trace.value], trace.rest);
    } else {
      assert a == b;
    }
  }

  predicate Sized(table: DecoderTable) {
    |table.bits| == 17 && |table.huffval| == 256
  }

  /** The number in the next `n` bits with its sign; nothing for no bits. */
  function Amount(stream: seq<bool>, at: nat, n: nat): int {
    if n == 0 then 0 else Extend(NumberAt(stream, at, n), n)
  }

  /** The AC coefficients from zigzag index `k` on.  A run may lead past the end of the block:
      the coefficient is stored in the last place then. */
  function AcTrace(table: DecoderTable, stream: seq<bool>, at: nat, k: nat): Trace
    requires Sized(table)
    decreases 80 - k
  {
    if k >= 64 then Stop(at)
    else
      var (symbol, behind) := DecodeAt(table.bits, table.huffval, stream, at);
      var r, s := symbol as nat / 16, symbol as nat % 16;
      if s != 0 then Put(Natural(k + r), Jcoef(Amount(stream, behind, s)), AcTrace(table, stream, behind + s, k + r + 1))
      else if r == 15 then AcTrace(table, stream, behind, k + 16)
      else Stop(behind)
  }

  /** All codes on the way are valid. */
  predicate AcSound(table: DecoderTable, stream: seq<bool>, at: nat, k: nat)
    requires Sized(table)
    decreases 80 - k
  {
    k < 64 ==>
      && ReadLength(table.bits, stream, at, 1) <= 16
      && var (symbol, behind) := DecodeAt(table.bits, table.huffval, stream, at);
      var r, s := symbol as nat / 16, symbol as nat % 16;
      if s != 0 then AcSound(table, stream, behind + s, k + r + 1)
      else r == 15 ==> AcSound(table, stream, behind, k + 16)
  }

  /** The DC value of a block and where its AC coefficients begin. */
  function DcStep(table: DecoderTable, stream: seq<bool>, at: nat, last: int): (r: (int, nat))
    requires Sized(table)
  {
    var (s, behind) := DecodeAt(table.bits, table.huffval, stream, at);
    (last + Amount(stream, behind, s as nat), behind + s as nat)
  }

  function BlockTrace(dc: DecoderTable, ac: DecoderTable, stream: seq<bool>, at: nat, last: int): Trace
    requires Sized(dc) && Sized(ac)
  {
    var (v, behind) := DcStep(dc, stream, at, last);
    Put(0, Jcoef(v), AcTrace(ac, stream, behind, 1))
  }

  predicate BlockSound(dc: DecoderTable, ac: DecoderTable, stream: seq<bool>, at: nat, last: int)
    requires Sized(dc) && Sized(ac)
  {
    ReadLength(dc.bits, stream, at, 1) <= 16 && AcSound(ac, stream, DcStep(dc, stream, at, last).1, 1)
  }

  // ------------------------------------------------------------------------ MCUs

  /** A decoder's tables: all symbols of DC tables are sizes, and behind the symbols there are
      zeros (jdmarker.c). */
  datatype Tables = Tables(l: BaseModel.Layout, dc: seq<DecoderTable>, ac: seq<DecoderTable>) {
    ghost predicate Valid() {
      && l.Valid() && |dc| == |ac| == NUM_HUFF_TBLS
      && forall c | 0 <= c < |l.dcTables| ::
           && Dc(c).Valid() && Ac(c).Valid()
           && forall p | 0 <= p < 256 :: Dc(c).huffval[p] <= 15
    }

    /** The tables of component `c`. */
    function Dc(c: nat): DecoderTable
      requires l.Valid() && |dc| == NUM_HUFF_TBLS && c < |l.dcTables|
    {
      dc[l.dcTables[c]]
    }

    function Ac(c: nat): DecoderTable
      requires l.Valid() && |ac| == NUM_HUFF_TBLS && c < |l.dcTables|
    {
      ac[l.acTables[c]]
    }
  }

  /** The traces of the blocks, the previous DC values behind them, and the position. */
  datatype Run = Run(traces: seq<Trace>, last: seq<int>, at: nat)

  ghost function McuRun(t: Tables, stream: seq<bool>, at: nat, last: seq<int>, n: nat): (r: Run)
    requires t.Valid() && |last| == |t.l.dcTables| && n <= |t.l.members|
    ensures |r.traces| == n && |r.last| == |last|
  {
    if n == 0 then Run([], last, at)
    else
      var before := McuRun(t, stream, at, last, n - 1);
      var c := t.l.members[n - 1];
      var trace := BlockTrace(t.Dc(c), t.Ac(c), stream, before.at, before.last[c]);
      Run(before.traces + [trace], before.last[c := DcStep(t.Dc(c), stream, before.at, before.last[c]).0], End(trace))
  }

  ghost predicate McuSound(t: Tables, stream: seq<bool>, at: nat, last: seq<int>, n: nat)
    requires t.Valid() && |last| == |t.l.dcTables| && n <= |t.l.members|
  {
    n > 0 ==>
      && McuSound(t, stream, at, last, n - 1)
      && var before := McuRun(t, stream, at, last, n - 1);
      var c := t.l.members[n - 1];
      BlockSound(t.Dc(c), t.Ac(c), stream, before.at, before.last[c])
  }

  lemma {:induction false} EarlierTraces(t: Tables, stream: seq<bool>, at: nat, last: seq<int>, m: nat, n: nat)
    requires t.Valid() && |last| == |t.l.dcTables| && m <= n <= |t.l.members|
    ensures McuRun(t, stream, at, last, m).traces <= McuRun(t, stream, at, last, n).traces
    ensures McuSound(t, stream, at, last, n) ==> McuSound(t, stream, at, last, m)
    decreases n
  {
    hide BlockTrace, BlockSound, DcStep;
    if m < n { EarlierTraces(t, stream, at, last, m, n - 1); }
  }

  /** The size in front of a DC difference. */
  lemma DcSymbol(t: Tables, c: nat, stream: seq<bool>, at: nat)
    requires t.Valid() && c < |t.l.dcTables|
    ensures Sized(t.Dc(c)) && DecodeAt(t.Dc(c).bits, t.Dc(c).huffval, stream, at).0 <= 15
  {
    hide NumberAt, Used, CodesUpTo, ReadLength;
  }
}
