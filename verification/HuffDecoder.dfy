/** `decode_mcu_slow` of jdhuff.c, on any bit stream. */
module HuffDecoder {
  import opened JpegLimits
  import opened Shifts
  import opened BitStrings
  import opened CanonicalCodes
  import opened HuffmanTables
  import opened BitReader
  import opened Zigzag
  import opened AcFirstModel
  import BaseModel
  import opened McuTrace
  import opened Wrappers

  /** On the way through the trace `all` of a block: `rest` is still to be done. */
  ghost predicate Doing(was: seq<int>, now: seq<int>, all: Trace, rest: Trace) {
    && SameBut(now, was, all) && Apply(now, rest) == Apply(was, all) && End(rest) == End(all)
    && forall q: nat | Touches(rest, q) :: Touches(all, q)
  }

  lemma DoingStarts(was: seq<int>, all: Trace)
    requires |was| == 64
    ensures Doing(was, was, all, all)
  {
  }

  lemma DoingPut(was: seq<int>, now: seq<int>, all: Trace, rest: Trace)
    requires Doing(was, now, all, rest) && rest.Put?
    ensures Doing(was, now[rest.pos := rest.value], all, rest.rest)
  {
    assert Touches(rest, rest.pos);
    forall q: nat | Touches(rest.rest, q) ensures Touches(all, q) { assert Touches(rest, q); }
  }

  lemma DoingEnds(was: seq<int>, now: seq<int>, all: Trace, at: nat)
    requires Doing(was, now, all, Stop(at))
    ensures now == Apply(was, all) && at == End(all)
  {
  }

  lemma DoingSame(was: seq<int>, now: seq<int>, all: Trace, rest: Trace)
    requires Doing(was, now, all, rest)
    ensures SameBut(now, was, all)
  {
  }

  /** `CHECK_BIT_BUFFER`, `GET_BITS` and `HUFF_EXTEND`. */
  method ReadAmount(reader: Reader, s: nat) returns (r: Option<int>)
    requires reader.Valid() && s <= 15
    modifies reader`pos, reader`unreadMarker, reader`getBuffer, reader`bitsLeft, reader`insufficientData
    modifies reader`spent, reader`at
    ensures reader.Valid()
    ensures r.Some? ==> r.value == Amount(reader.stream, old(reader.at), s) && reader.at == old(reader.at) + s
    ensures r.None? ==> reader.unreadMarker == 0
    ensures old(reader.unreadMarker) != 0 ==> reader.unreadMarker != 0
    ensures reader.unreadMarker == 0 ==> reader.insufficientData == old(reader.insufficientData)
    ensures r.Some? && reader.insufficientData ==> old(reader.insufficientData) || reader.at > |reader.stream|
    ensures old(reader.Complete()) ==> r.Some? && reader.Complete()
  {
    hide Reader.Valid, Reader.Complete, NumberAt, Extend;
    r := Some(0);
    if s != 0 {
      var bits := reader.GetBits(s);
      if bits.None? { return None; }
      r := Some(Extend(bits.value, s));
    }
  }

  /** The DC value of a block. */
  method DecodeDc(reader: Reader, dctbl: DecoderTable, last: int) returns (r: Option<int>)
    requires reader.Valid() && dctbl.Valid() && Sized(dctbl)
    requires DecodeAt(dctbl.bits, dctbl.huffval, reader.stream, reader.at).0 <= 15
    modifies reader`pos, reader`unreadMarker, reader`getBuffer, reader`bitsLeft, reader`insufficientData
    modifies reader`spent, reader`at
    ensures reader.Valid()
    ensures r.Some? ==> (r.value, reader.at) == DcStep(dctbl, reader.stream, old(reader.at), last)
    ensures r.None? ==> reader.unreadMarker == 0
    ensures old(reader.unreadMarker) != 0 ==> reader.unreadMarker != 0
    ensures reader.unreadMarker == 0 ==> reader.insufficientData == old(reader.insufficientData)
    ensures r.Some? && reader.insufficientData ==> old(reader.insufficientData) || reader.at > |reader.stream|
    ensures old(reader.Complete()) ==> r.Some? && reader.Complete()
  {
    hide Reader.Valid, Reader.Complete, DecodeAt, Amount, DecoderTable.Valid, NumberAt;
    DecodeMoves(dctbl.bits, dctbl.huffval, reader.stream, reader.at);
    var s := reader.HuffDecode(dctbl);
    if s.None? { return None; }
    var diff := ReadAmount(reader, s.value as nat);
    if diff.None? { return None; }
    r := Some(last + diff.value);
  }

  /** One AC symbol and what belongs to it; `next` is the index behind it, 64 at the end of
      the block. */
  method DecodeAcSymbol(reader: Reader, actbl: DecoderTable, block: array<int>, k: nat, ghost was: seq<int>, ghost all: Trace)
    returns (ok: bool, next: nat)
    requires reader.Valid() && actbl.Valid() && block.Length == 64 && k < 64 && Sized(actbl)
    requires Doing(was, block[..], all, AcTrace(actbl, reader.stream, reader.at, k))
    modifies reader`pos, reader`unreadMarker, reader`getBuffer, reader`bitsLeft, reader`insufficientData
    modifies reader`spent, reader`at, block
    ensures reader.Valid() && next <= 80 && (ok ==> reader.at >= old(reader.at))
    ensures ok ==> k < next && Doing(was, block[..], all, AcTrace(actbl, reader.stream, reader.at, next))
    ensures !ok ==> reader.unreadMarker == 0 && SameBut(block[..], was, all)
    ensures old(reader.unreadMarker) != 0 ==> reader.unreadMarker != 0
    ensures reader.unreadMarker == 0 ==> reader.insufficientData == old(reader.insufficientData)
    ensures ok && reader.insufficientData ==> old(reader.insufficientData) || reader.at > |reader.stream|
    ensures old(reader.Complete()) ==> ok && reader.Complete()
  {
    hide Reader.Valid, Reader.Complete, Doing, DecoderTable.Valid, DecodeAt, Natural, Amount, SameBut, Jcoef;
    ghost var start, now, rest := reader.at, block[..], AcTrace(actbl, reader.stream, reader.at, k);
    DoingSame(was, now, all, rest);
    DecodeMoves(actbl.bits, actbl.huffval, reader.stream, reader.at);
    ok, next := false, k;
    var symbol := reader.HuffDecode(actbl);
    if symbol.None? { return; }
    var r, s := symbol.value as nat / 16, symbol.value as nat % 16;
    if s != 0 {
      var value := ReadAmount(reader, s);
      if value.None? { return; }
      DoingPut(was, now, all, rest);
      block[Natural(k + r)] := Jcoef(value.value);
      assert block[..] == now[rest.pos := rest.value];
      ok, next := true, k + r + 1;
    } else if r == 15 {
      ok, next := true, k + 16;
    } else {
      AcTraceEnds(actbl, reader.stream, reader.at, 64);
      ok, next := true, 64;
    }
  }

  lemma AcTraceEnds(table: DecoderTable, stream: seq<bool>, at: nat, k: nat)
    requires Sized(table) && k >= 64
    ensures AcTrace(table, stream, at, k) == Stop(at)
  {
  }

  /** One block, on the working state. */
  method DecodeBlock(reader: Reader, t: Tables, c: nat, block: array<int>, last: int, ghost all: Trace)
    returns (ok: bool, dc: int)
    requires reader.Valid() && t.Valid() && c < |t.l.dcTables| && block.Length == 64
    requires Sized(t.Dc(c)) && Sized(t.Ac(c)) && all == BlockTrace(t.Dc(c), t.Ac(c), reader.stream, reader.at, last)
    modifies reader`pos, reader`unreadMarker, reader`getBuffer, reader`bitsLeft, reader`insufficientData
    modifies reader`spent, reader`at, block
    ensures reader.Valid()
    ensures ok ==> dc == DcStep(t.Dc(c), reader.stream, old(reader.at), last).0
                   && block[..] == Apply(old(block[..]), all) && reader.at == End(all)
    ensures !ok ==> reader.unreadMarker == 0 && SameBut(block[..], old(block[..]), all)
    ensures old(reader.unreadMarker) != 0 ==> reader.unreadMarker != 0
    ensures reader.unreadMarker == 0 ==> reader.insufficientData == old(reader.insufficientData)
    ensures ok && reader.insufficientData ==> old(reader.insufficientData) || reader.at > |reader.stream|
    ensures old(reader.Complete()) ==> ok && reader.Complete()
  {
    hide Reader.Valid, Reader.Complete, Doing, DcStep, AcTrace, Apply, End, SameBut, Jcoef;
    ghost var was := block[..];
    DoingStarts(was, all);
    DoingSame(was, was, all, all);
    ok, dc := false, 0;
    DcSymbol(t, c, reader.stream, reader.at);
    var value := DecodeDc(reader, t.Dc(c), last);
    if value.None? { return; }
    dc := value.value;
    DoingPut(was, was, all, all);
    block[0] := Jcoef(dc);
    assert block[..] == was[all.pos := all.value];
    var k := 1;
    while k < 64
      invariant reader.Valid() && 1 <= k <= 80
      invariant Doing(was, block[..], all, AcTrace(t.Ac(c), reader.stream, reader.at, k))
      invariant old(reader.unreadMarker) != 0 ==> reader.unreadMarker != 0
      invariant reader.unreadMarker == 0 ==> reader.insufficientData == old(reader.insufficientData)
      invariant reader.insufficientData ==> old(reader.insufficientData) || reader.at > |reader.stream|
      invariant old(reader.Complete()) ==> reader.Complete()
      decreases 80 - k
    {
      ok, k := DecodeAcSymbol(reader, t.Ac(c), block, k, was, all);
      if !ok { return; }
    }
    AcTraceEnds(t.Ac(c), reader.stream, reader.at, k);
    DoingEnds(was, block[..], all, reader.at);
    ok := true;
  }

  // ------------------------------------------------------------------------ MCUs

  predicate Apart(data: seq<array<int>>) {
    forall j, k | 0 <= j < k < |data| :: data[j] != data[k]
  }

  /** The blocks hold what the traces make of the contents before. */
  ghost predicate Stored(was: seq<seq<int>>, now: seq<seq<int>>, traces: seq<Trace>) {
    && |was| == |now| == |traces|
    && forall j | 0 <= j < |now| :: |was[j]| == 64 && now[j] == Apply(was[j], traces[j])
  }

  /** Some of the coefficients have been stored; to decode the MCU again from there comes to
      the same. */
  ghost predicate PartlyStored(was: seq<seq<int>>, now: seq<seq<int>>, traces: seq<Trace>) {
    && |was| == |now| == |traces|
    && forall j | 0 <= j < |now| :: SameBut(now[j], was[j], traces[j])
  }

  lemma StoredPartly(was: seq<seq<int>>, mid: seq<seq<int>>, now: seq<seq<int>>, traces: seq<Trace>)
    requires PartlyStored(was, mid, traces) && Stored(mid, now, traces)
    ensures Stored(was, now, traces)
  {
    hide Apply, SameBut;
    forall j | 0 <= j < |now| ensures |was[j]| == 64 && now[j] == Apply(was[j], traces[j]) {
      SameSizes(mid[j], was[j], traces[j]);
      StoredAgain(mid[j], was[j], traces[j]);
    }
  }

  lemma SameSizes(a: seq<int>, b: seq<int>, trace: Trace)
    requires SameBut(a, b, trace)
    ensures |a| == |b| == 64
  {
  }

  lemma {:induction false} AppliedPartly(was: seq<int>, trace: Trace)
    requires |was| == 64
    ensures SameBut(Apply(was, trace), was, trace)
    decreases trace
  {
    if trace.Put? { AppliedPartly(was[trace.pos := trace.value], trace.rest); }
  }

  /** The contents of the blocks. */
  ghost function Contents(data: seq<array<int>>): (c: seq<seq<int>>)
    reads data
    ensures |c| == |data| && forall j | 0 <= j < |data| :: c[j] == data[j][..]
  {
    seq(|data|, j requires 0 <= j < |data| reads data => data[j][..])
  }

  /** Some blocks are done, one is partly done, and nothing has happened to those behind. */
  lemma PartsStored(was: seq<seq<int>>, now: seq<seq<int>>, traces: seq<Trace>, n: nat)
    requires |was| == |now| == |traces| && n < |now| && forall j | 0 <= j < |was| :: |was[j]| == 64
    requires forall j | 0 <= j < n :: now[j] == Apply(was[j], traces[j])
    requires SameBut(now[n], was[n], traces[n])
    requires forall j | n < j < |now| :: now[j] == was[j]
    ensures PartlyStored(was, now, traces)
  {
    hide Apply;
    forall j | 0 <= j < |now| ensures SameBut(now[j], was[j], traces[j]) {
      if j < n { AppliedPartly(was[j], traces[j]); }
    }
  }

  /** The blocks of an MCU, on the working state. */
  method DecodeBlocks(reader: Reader, t: Tables, data: seq<array<int>>, last: seq<int>)
    returns (ok: bool, state: seq<int>)
    requires reader.Valid() && t.Valid() && |last| == |t.l.dcTables|
    requires Apart(data) && |data| == |t.l.members| && (forall j | 0 <= j < |data| :: data[j].Length == 64)
    modifies reader`pos, reader`unreadMarker, reader`getBuffer, reader`bitsLeft, reader`insufficientData
    modifies reader`spent, reader`at, data
    ensures reader.Valid() && |state| == |last|
    ensures var r := McuRun(t, reader.stream, old(reader.at), last, |data|);
            if ok then Stored(old(Contents(data)), Contents(data), r.traces) && state == r.last && reader.at == r.at
            else PartlyStored(old(Contents(data)), Contents(data), r.traces)
    ensures !ok ==> reader.unreadMarker == 0
    ensures old(reader.unreadMarker) != 0 ==> reader.unreadMarker != 0
    ensures reader.unreadMarker == 0 ==> reader.insufficientData == old(reader.insufficientData)
    ensures ok && reader.insufficientData ==> old(reader.insufficientData) || reader.at > |reader.stream|
    ensures old(reader.Complete()) ==> ok && reader.Complete()
  {
    hide Reader.Valid, Reader.Complete, BlockTrace, DcStep, Apply, DecoderTable.Valid, SameBut, CodesUpTo, End, McuRun;
    NoBlocks(t, reader.stream, reader.at, last);
    ghost var was, start, stream := Contents(data), reader.at, reader.stream;
    ghost var all := McuRun(t, stream, start, last, |data|).traces;
    state, ok := last, true;
    for blkn := 0 to |data|
      invariant reader.Valid() && McuRun(t, stream, start, last, blkn) == Run(all[..blkn], state, reader.at)
      invariant |state| == |last|
      invariant forall j | 0 <= j < blkn :: data[j][..] == Apply(was[j], all[j])
      invariant forall j | blkn <= j < |data| :: data[j][..] == was[j]
      invariant old(reader.unreadMarker) != 0 ==> reader.unreadMarker != 0
      invariant reader.unreadMarker == 0 ==> reader.insufficientData == old(reader.insufficientData)
      invariant reader.insufficientData ==> old(reader.insufficientData) || reader.at > |reader.stream|
      invariant old(reader.Complete()) ==> reader.Complete()
    {
      var ci := t.l.members[blkn];
      ghost var trace := NextBlock(t, stream, start, last, blkn, |data|);
      EndsLater(t, ci, stream, reader.at, state[ci]);
      var s;
      ok, s := DecodeBlock(reader, t, ci, data[blkn], state[ci], trace);
      if !ok {
        PartsStored(was, Contents(data), all, blkn);
        return;
      }
      state := state[ci := s];
    }
    assert all[..|data|] == all;
  }

  lemma NoBlocks(t: Tables, stream: seq<bool>, at: nat, last: seq<int>)
    requires t.Valid() && |last| == |t.l.dcTables|
    ensures McuRun(t, stream, at, last, 0) == Run([], last, at)
  {
  }

  /** One more block of the run. */
  lemma NextBlock(t: Tables, stream: seq<bool>, at: nat, last: seq<int>, n: nat, m: nat) returns (trace: Trace)
    requires t.Valid() && |last| == |t.l.dcTables| && n < m <= |t.l.members|
    requires McuRun(t, stream, at, last, n).traces == McuRun(t, stream, at, last, m).traces[..n]
    ensures var r, all, c := McuRun(t, stream, at, last, n), McuRun(t, stream, at, last, m).traces, t.l.members[n];
            && c < |t.l.dcTables| && Sized(t.Dc(c)) && Sized(t.Ac(c))
            && trace == all[n] == BlockTrace(t.Dc(c), t.Ac(c), stream, r.at, r.last[c])
            && McuRun(t, stream, at, last, n + 1)
               == Run(all[..n + 1], r.last[c := DcStep(t.Dc(c), stream, r.at, r.last[c]).0], End(trace))
  {
    hide BlockTrace, DcStep, DecoderTable.Valid, CodesUpTo, End;
    var c := t.l.members[n];
    TablesSized(t, c);
    EarlierTraces(t, stream, at, last, n + 1, m);
    var next := McuRun(t, stream, at, last, n + 1).traces;
    var all := McuRun(t, stream, at, last, m).traces;
    trace := next[n];
    assert next == all[..n + 1];
  }

  lemma TablesSized(t: Tables, c: nat)
    requires t.Valid() && c < |t.l.dcTables|
    ensures Sized(t.Dc(c)) && Sized(t.Ac(c))
  {
    var dc, ac := t.Dc(c), t.Ac(c);
    TableSizes(dc);
    TableSizes(ac);
  }

  lemma {:induction false} AcEndsLater(table: DecoderTable, stream: seq<bool>, at: nat, k: nat)
    requires Sized(table)
    ensures End(AcTrace(table, stream, at, k)) >= at
    decreases 80 - k
  {
    hide DecodeAt;
    if k < 64 {
      DecodeMoves(table.bits, table.huffval, stream, at);
      var (symbol, behind) := DecodeAt(table.bits, table.huffval, stream, at);
      var r, s := symbol as nat / 16, symbol as nat % 16;
      if s != 0 { AcEndsLater(table, stream, behind + s, k + r + 1); }
      else if r == 15 { AcEndsLater(table, stream, behind, k + 16); }
    }
  }

  lemma EndsLater(t: Tables, c: nat, stream: seq<bool>, at: nat, last: int)
    requires t.Valid() && c < |t.l.dcTables| && Sized(t.Dc(c)) && Sized(t.Ac(c))
    ensures End(BlockTrace(t.Dc(c), t.Ac(c), stream, at, last)) >= at
  {
    hide DecodeAt, AcTrace;
    DecodeMoves(t.Dc(c).bits, t.Dc(c).huffval, stream, at);
    AcEndsLater(t.Ac(c), stream, DcStep(t.Dc(c), stream, at, last).1, 1);
  }
}
