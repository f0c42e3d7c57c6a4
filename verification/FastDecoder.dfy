/** `decode_mcu_fast` of jdhuff.c, on any bit stream whose codes are valid. */
module FastDecoder {
  import opened JpegLimits
  import opened Shifts
  import opened CodeLengths
  import opened BitStrings
  import opened CanonicalCodes
  import opened HuffmanTables
  import opened BitReader
  import opened Zigzag
  import opened AcFirstModel
  import BaseModel
  import opened McuTrace
  import opened FastReader
  import opened HuffDecoder
  import opened Wrappers

  /** The bits of a block: at most 31 for each coefficient. */
  const BLOCK_BITS := 1984
  const BUFSIZE := 512

  /** The room left when `n` more bits have been used. */
  ghost predicate RoomFor(f: Fetcher, n: int)
    reads f`at, f`lost
  {
    f.lost || f.at + n + 64 - f.bits <= 4 * (f.available - f.origin) - 8
  }

  /** A valid code has at most 16 bits. */
  lemma CodeLength(table: DecoderTable, stream: seq<bool>, at: nat)
    requires Sized(table) && ReadLength(table.bits, stream, at, 1) <= 16
    ensures DecodeAt(table.bits, table.huffval, stream, at).1 <= at + 16
  {
    hide NumberAt, Used, CodesUpTo, ReadLength;
  }

  method FastAmount(f: Fetcher, s: nat) returns (v: int)
    requires f.Valid() && RoomFor(f, 0) && s <= 15
    modifies f`pos, f`unreadMarker, f`getBuffer, f`bitsLeft, f`at, f`spent, f`lost
    ensures f.Valid() && (old(f.lost) ==> f.lost) && f.at == old(f.at) + s
    ensures !f.lost ==> v == Amount(f.stream, old(f.at), s)
  {
    hide Fetcher.Valid, NumberAt, Extend, Shl;
    v := 0;
    if s != 0 {
      f.Fill();
      var bits := f.Get(s);
      v := Extend(bits, s);
    }
  }

  /** The DC value of a block. */
  method FastDc(f: Fetcher, dctbl: DecoderTable, last: int) returns (v: int)
    requires f.Valid() && RoomFor(f, 16) && dctbl.Valid() && Sized(dctbl)
    requires !f.lost ==> ReadLength(dctbl.bits, f.stream, f.at, 1) <= 16
    requires forall p | 0 <= p < 256 :: dctbl.huffval[p] <= 15
    modifies f`pos, f`unreadMarker, f`getBuffer, f`bitsLeft, f`at, f`spent, f`lost
    ensures f.Valid() && (old(f.lost) ==> f.lost) && (!f.lost ==> f.at <= old(f.at) + 31)
    ensures !f.lost ==> (v, f.at) == DcStep(dctbl, f.stream, old(f.at), last)
  {
    hide Fetcher.Valid, DecodeAt, Amount, DecoderTable.Valid, NumberAt, ReadLength;
    if !f.lost { CodeLength(dctbl, f.stream, f.at); }
    var s := f.Decode(dctbl);
    var diff := FastAmount(f, s as nat);
    v := last + diff;
  }

  /** One AC symbol and what belongs to it. */
  method FastAcSymbol(f: Fetcher, actbl: DecoderTable, block: array<int>, k: nat, ghost was: seq<int>, ghost all: Trace)
    returns (next: nat)
    requires f.Valid() && RoomFor(f, 16) && actbl.Valid() && Sized(actbl) && block.Length == 64 && k < 64
    requires !f.lost ==> AcSound(actbl, f.stream, f.at, k) && Doing(was, block[..], all, AcTrace(actbl, f.stream, f.at, k))
    modifies f`pos, f`unreadMarker, f`getBuffer, f`bitsLeft, f`at, f`spent, f`lost, block
    ensures f.Valid() && (old(f.lost) ==> f.lost) && k < next <= 80 && (!f.lost ==> f.at <= old(f.at) + 31)
    ensures !f.lost ==> AcSound(actbl, f.stream, f.at, next) && Doing(was, block[..], all, AcTrace(actbl, f.stream, f.at, next))
  {
    hide Fetcher.Valid, Doing, DecoderTable.Valid, DecodeAt, Natural, Amount, Jcoef, ReadLength;
    ghost var start, now, rest := f.at, block[..], AcTrace(actbl, f.stream, f.at, k);
    if !f.lost { CodeLength(actbl, f.stream, f.at); }
    var symbol := f.Decode(actbl);
    var r, s := symbol as nat / 16, symbol as nat % 16;
    if s != 0 {
      var value := FastAmount(f, s);
      if !f.lost { DoingPut(was, now, all, rest); }
      block[Natural(k + r)] := Jcoef(value);
      if !f.lost { assert block[..] == now[rest.pos := rest.value]; }
      next := k + r + 1;
    } else if r == 15 {
      next := k + 16;
    } else {
      AcTraceEnds(actbl, f.stream, f.at, 64);
      next := 64;
    }
  }

  /** One block. */
  method FastBlock(f: Fetcher, t: Tables, c: nat, block: array<int>, last: int, ghost all: Trace) returns (dc: int)
    requires f.Valid() && RoomFor(f, BLOCK_BITS - 15) && t.Valid() && c < |t.l.dcTables| && block.Length == 64
    requires Sized(t.Dc(c)) && Sized(t.Ac(c))
    requires !f.lost ==> BlockSound(t.Dc(c), t.Ac(c), f.stream, f.at, last)
                         && all == BlockTrace(t.Dc(c), t.Ac(c), f.stream, f.at, last)
    modifies f`pos, f`unreadMarker, f`getBuffer, f`bitsLeft, f`at, f`spent, f`lost, block
    ensures f.Valid() && (old(f.lost) ==> f.lost) && (!f.lost ==> f.at <= old(f.at) + BLOCK_BITS)
    ensures !f.lost ==> dc == DcStep(t.Dc(c), f.stream, old(f.at), last).0
                        && block[..] == Apply(old(block[..]), all) && f.at == End(all)
  {
    hide Fetcher.Valid, Doing, DcStep, AcTrace, Apply, End, SameBut, Jcoef, AcSound, ReadLength, CodesUpTo;
    ghost var was, start := block[..], f.at;
    if !f.lost {
      DoingStarts(was, all);
      DoingPut(was, was, all, all);
    }
    dc := FastDc(f, t.Dc(c), last);
    block[0] := Jcoef(dc);
    if !f.lost { assert block[..] == was[all.pos := all.value]; }
    var k := 1;
    while k < 64
      invariant f.Valid() && 1 <= k <= 80 && (old(f.lost) ==> f.lost) && (!f.lost ==> f.at <= start + 31 * (if k < 64 then k else 64))
      invariant !f.lost ==> AcSound(t.Ac(c), f.stream, f.at, k) && Doing(was, block[..], all, AcTrace(t.Ac(c), f.stream, f.at, k))
      invariant !f.lost ==> dc == DcStep(t.Dc(c), f.stream, start, last).0
      decreases 80 - k
    {
      k := FastAcSymbol(f, t.Ac(c), block, k, was, all);
    }
    if !f.lost {
      AcTraceEnds(t.Ac(c), f.stream, f.at, k);
      DoingEnds(was, block[..], all, f.at);
    }
  }

  /** The blocks of an MCU. */
  method FastBlocks(f: Fetcher, t: Tables, data: seq<array<int>>, last: seq<int>) returns (state: seq<int>)
    requires f.Valid() && !f.lost && RoomFor(f, BLOCK_BITS * |data| - 15) && t.Valid() && |last| == |t.l.dcTables|
    requires Apart(data) && |data| == |t.l.members| && (forall j | 0 <= j < |data| :: data[j].Length == 64)
    requires McuSound(t, f.stream, f.at, last, |data|)
    modifies f`pos, f`unreadMarker, f`getBuffer, f`bitsLeft, f`at, f`spent, f`lost, data
    ensures f.Valid() && |state| == |last|
    ensures var r := McuRun(t, f.stream, old(f.at), last, |data|);
            !f.lost ==> Stored(old(Contents(data)), Contents(data), r.traces) && state == r.last && f.at == r.at
  {
    hide Fetcher.Valid, BlockTrace, DcStep, Apply, DecoderTable.Valid, CodesUpTo, End, McuRun, McuSound, BlockSound;
    ghost var was, start, stream := Contents(data), f.at, f.stream;
    ghost var all := McuRun(t, stream, start, last, |data|).traces;
    NoBlocks(t, stream, start, last);
    state := last;
    for blkn := 0 to |data|
      invariant f.Valid() && |state| == |last| && (!f.lost ==> f.at <= start + BLOCK_BITS * blkn)
      invariant !f.lost ==> McuRun(t, stream, start, last, blkn) == Run(all[..blkn], state, f.at)
      invariant !f.lost ==> forall j | 0 <= j < blkn :: data[j][..] == Apply(was[j], all[j])
      invariant forall j | blkn <= j < |data| :: data[j][..] == was[j]
    {
      var ci := t.l.members[blkn];
      TablesSized(t, ci);
      ghost var trace := Stop(0);
      if !f.lost {
        trace := NextBlock(t, stream, start, last, blkn, |data|);
        SoundBlock(t, stream, start, last, blkn, |data|);
      }
      var s := FastBlock(f, t, ci, data[blkn], state[ci], trace);
      state := state[ci := s];
    }
    assert all[..|data|] == all;
  }

  /** Every block of a sound MCU is sound. */
  lemma SoundBlock(t: Tables, stream: seq<bool>, at: nat, last: seq<int>, n: nat, m: nat)
    requires t.Valid() && |last| == |t.l.dcTables| && n < m <= |t.l.members| && McuSound(t, stream, at, last, m)
    ensures var r, c := McuRun(t, stream, at, last, n), t.l.members[n];
            && c < |t.l.dcTables| && Sized(t.Dc(c)) && Sized(t.Ac(c))
            && BlockSound(t.Dc(c), t.Ac(c), stream, r.at, r.last[c])
  {
    hide BlockTrace, DcStep, CodesUpTo, End, BlockSound;
    TablesSized(t, t.l.members[n]);
    EarlierTraces(t, stream, at, last, n + 1, m);
  }
}
