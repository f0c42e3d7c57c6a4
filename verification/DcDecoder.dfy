/** `decode_mcu_DC_first` and `decode_mcu_DC_refine` of jdphuff.c. */
module DcDecoder {
  import opened JpegLimits
  import opened Shifts
  import opened EntropySource
  import opened Resync
  import opened BitStrings
  import opened CanonicalCodes
  import opened HuffmanTables
  import opened CodeEvents
  import opened BitReader
  import opened EventReader
  import opened PointTransform
  import opened AcRefineModel
  import opened AcFirstModel
  import opened EventTables
  import opened DcModel
  import opened DcEncoder
  import opened Wrappers

  /** The decoder has the tables of the books. */
  ghost predicate HasTables(tables: seq<DecoderTable>, books: Books, l: Layout) {
    && |tables| == |books| == NUM_HUFF_TBLS && l.Valid()
    && forall c | 0 <= c < |l.tables| ::
         && tables[l.tables[c]].Valid()
         && tables[l.tables[c]].bits == books[l.tables[c]].bits && tables[l.tables[c]].huffval == books[l.tables[c]].huffval
  }

  /** What has been assigned so far; a call that had to be suspended may have assigned more. */
  ghost predicate DcAssigned(l: Layout, values: seq<int>, was: seq<int>, cur: seq<int>, j: nat) {
    && |values| == |was| == |cur| == |l.members|
    && forall k | 0 <= k < |cur| :: cur[k] == DcPoint(values[k], l.al) || (k >= j && cur[k] == was[k])
  }

  /** What is sent for a difference, and what the decoder makes of it. */
  lemma DifferenceHead(tbl: nat, diff: int, rest: Events) returns (n: nat)
    requires Abs(diff) < Shl(1, MAX_COEF_BITS + 1)
    ensures n <= MAX_COEF_BITS + 1 && (n == 0 <==> diff == 0)
    ensures n > 0 ==> n == BitLength(Abs(diff)) && Extend(SignedBits(diff < 0, Abs(diff), n), n) == diff
    ensures Difference(tbl, diff, rest)
            == Cons(Symbol(tbl, n as byte), if n > 0 then Cons(Raw(SignedBits(diff < 0, Abs(diff), n), n), rest) else rest)
  {
    hide Shl, Log2, SignedBits, Extend, Difference;
    ShlExponent(MAX_COEF_BITS + 1, 15);
    n := WideHead(tbl, diff, rest);
  }

  /** The same of differences of up to 15 bits. */
  lemma WideHead(tbl: nat, diff: int, rest: Events) returns (n: nat)
    requires Abs(diff) < Shl(1, 15)
    ensures n <= 15 && (n == 0 <==> diff == 0) && (Abs(diff) < Shl(1, MAX_COEF_BITS + 1) ==> n <= MAX_COEF_BITS + 1)
    ensures n > 0 ==> n == BitLength(Abs(diff)) && Extend(SignedBits(diff < 0, Abs(diff), n), n) == diff
    ensures Difference(tbl, diff, rest)
            == Cons(Symbol(tbl, n as byte), if n > 0 then Cons(Raw(SignedBits(diff < 0, Abs(diff), n), n), rest) else rest)
  {
    hide Shl, Log2, SignedBits, Extend;
    n := if diff == 0 then 0 else BitLength(Abs(diff));
    if diff != 0 {
      BitsAtMost(Abs(diff), 15);
      ExtendInverts(diff < 0, Abs(diff));
    }
    DifferenceIs(tbl, diff, n, rest);
  }

  /** Reads a difference. */
  method DecodeDifference(reader: Reader, table: DecoderTable, ghost books: Books, ghost tbl: nat, ghost diff: int,
                          ghost rest: Events) returns (r: Option<int>)
    requires reader.Valid() && table.Valid() && !reader.insufficientData
    requires tbl < |books| && table.bits == books[tbl].bits && table.huffval == books[tbl].huffval
    requires Abs(diff) < Shl(1, MAX_COEF_BITS + 1) && Facing(reader, books, Difference(tbl, diff, rest))
    modifies reader`pos, reader`unreadMarker, reader`getBuffer, reader`bitsLeft, reader`insufficientData
    modifies reader`spent, reader`at
    ensures reader.Valid() && !reader.insufficientData
    ensures r.Some? ==> r.value == diff && Facing(reader, books, rest)
    ensures r.None? ==> reader.unreadMarker == 0
    ensures old(reader.unreadMarker) != 0 ==> reader.unreadMarker != 0
    ensures old(reader.Complete()) ==> r.Some? && reader.Complete()
  {
    hide Reader.Valid, Reader.Complete, Facing, Shl, SignedBits, Extend, DecoderTable.Valid, Difference, Log2;
    ghost var n := DifferenceHead(tbl, diff, rest);
    ghost var v := if n > 0 then SignedBits(diff < 0, Abs(diff), n) else 0;
    var s := ReadAhead(reader, table, books, tbl, n as byte, if n > 0 then Cons(Raw(v, n), rest) else rest);
    if s.None? { return None; }
    r := Some(0);
    if s.value != 0 {
      var bits := ReadBits(reader, s.value as nat, books, v, rest);
      if bits.None? { return None; }
      r := Some(Extend(bits.value, s.value as nat));
    }
  }

  lemma AssignNext(l: Layout, values: seq<int>, was: seq<int>, cur: seq<int>, j: nat)
    requires DcAssigned(l, values, was, cur, j) && j < |l.members|
    ensures DcAssigned(l, values, was, cur[j := DcPoint(values[j], l.al)], j + 1)
  {
    hide DcPoint;
  }

  lemma AssignedLess(l: Layout, values: seq<int>, was: seq<int>, cur: seq<int>, j: nat)
    requires DcAssigned(l, values, was, cur, j)
    ensures DcAssigned(l, values, was, cur, 0)
  {
    hide DcPoint;
  }

  lemma AssignedWhole(l: Layout, values: seq<int>, was: seq<int>, cur: seq<int>)
    requires DcAssigned(l, values, was, cur, |l.members|)
    ensures |cur| == |values| && forall k | 0 <= k < |cur| :: cur[k] == DcPoint(values[k], l.al)
  {
    hide DcPoint;
  }

  class PhuffDcDecoder {
    const reader: Reader
    const tables: seq<DecoderTable>
    const layout: Layout
    const restartInterval: nat
    var lastDcVal: seq<int>    // the saved state
    var restartsToGo: int
    var nextRestartNum: nat

    /** `start_pass_phuff_decoder`. */
    constructor (source: Reader, t: seq<DecoderTable>, l: Layout, interval: nat)
      requires source.Saved() && l.Valid()
      ensures Ready() && reader == source && tables == t && layout == l && lastDcVal == Zero(l)
      ensures restartInterval == interval == restartsToGo && nextRestartNum == 0
    {
      reader, tables, layout, lastDcVal := source, t, l, Zero(l);
      restartInterval, restartsToGo, nextRestartNum := interval, interval, 0;
    }

    ghost predicate Ready()
      reads this`lastDcVal, reader
    {
      reader.Saved() && layout.Valid() && |lastDcVal| == |layout.tables|
    }

    /** How decoding goes on where restart marker `nextRestartNum` should be. */
    ghost function Recovery(): Recovery
      reads this`nextRestartNum, reader`input, reader`ending
    {
      Recovered(reader.input, reader.ending, nextRestartNum)
    }

    /** `process_restart`, whatever is found; a call that has to wait for input changes nothing
        but what is discarded. */
    method ProcessRestart() returns (ok: bool)
      requires Ready() && nextRestartNum < 8
      modifies this, reader
      ensures Ready() && reader.input == old(reader.input) && reader.available == old(reader.available) && reader.savedAt == 0
      ensures ok ==> lastDcVal == Zero(layout) && restartsToGo == restartInterval && nextRestartNum == (old(nextRestartNum) + 1) % 8
      ensures ok ==> !old(Recovery()).Wait? && reader.stream == NextStream(reader.input, old(Recovery()))
                     && reader.ending == NextEnding(reader.input, old(Recovery()))
      ensures ok ==> if old(Recovery()).GoOn? then reader.unreadMarker == 0 && !reader.insufficientData && reader.savedPos == old(Recovery()).next
                     else reader.unreadMarker != 0 && reader.insufficientData == old(reader.insufficientData)
      ensures !ok ==> lastDcVal == old(lastDcVal) && restartsToGo == old(restartsToGo) && nextRestartNum == old(nextRestartNum)
                      && Recovery() == old(Recovery()) && reader.insufficientData == old(reader.insufficientData)
      ensures !ok ==> reader.available < |reader.input| || Recovery().Wait?
    {
      hide Reader.Saved, Recovered;
      ok := reader.Restart(nextRestartNum);
      if ok {
        nextRestartNum := (nextRestartNum + 1) % 8;
        lastDcVal, restartsToGo := Zero(layout), restartInterval;
      }
    }

    /** The counter behind an MCU. */
    method CountMcu()
      modifies this`restartsToGo
      ensures restartsToGo == old(restartsToGo) - 1
    {
      restartsToGo := restartsToGo - 1;
    }

    ghost predicate FacingSaved(books: Books, events: Events)
      reads reader`stream, reader`savedAt
    {
      Ahead(books, reader.stream, reader.savedAt, events) && AllCodable(books, events)
    }

    /** The blocks of an MCU, on the working state. */
    method DecodeFirstBlocks(dc: array<int>, ghost mcus: seq<seq<int>>, ghost i: nat, ghost books: Books)
      returns (ok: bool, state: seq<int>)
      requires reader.Valid() && !reader.insufficientData && HasTables(tables, books, layout) && |lastDcVal| == |layout.tables|
      requires Laid(layout, mcus) && i < |mcus| && dc.Length == |layout.members|
      requires InRange(layout, mcus, i, 0, lastDcVal) && Facing(reader, books, DcPlan(layout, mcus, i, 0, lastDcVal))
      modifies reader`pos, reader`unreadMarker, reader`getBuffer, reader`bitsLeft, reader`insufficientData
      modifies reader`spent, reader`at, dc
      ensures reader.Valid() && !reader.insufficientData && |state| == |layout.tables|
      ensures ok ==> DcAssigned(layout, mcus[i], old(dc[..]), dc[..], |layout.members|)
                     && InRange(layout, mcus, i + 1, 0, state) && Facing(reader, books, DcPlan(layout, mcus, i + 1, 0, state))
      ensures !ok ==> reader.unreadMarker == 0 && DcAssigned(layout, mcus[i], old(dc[..]), dc[..], 0)
      ensures old(reader.unreadMarker) != 0 ==> reader.unreadMarker != 0
      ensures old(reader.Complete()) ==> ok && reader.Complete()
    {
      hide Reader.Valid, Reader.Complete, Facing, DcPlan, InRange, DcAssigned, ShrInt, ShlInt, Difference, Shl, DecoderTable.Valid;
      ghost var was, values := dc[..], mcus[i];
      state, ok := lastDcVal, true;
      NothingAssigned(layout, values, was);
      for blkn := 0 to |layout.members|
        invariant reader.Valid() && !reader.insufficientData && |state| == |layout.tables|
        invariant DcAssigned(layout, values, was, dc[..], blkn)
        invariant InRange(layout, mcus, i, blkn, state) && Facing(reader, books, DcPlan(layout, mcus, i, blkn, state))
        invariant old(reader.unreadMarker) != 0 ==> reader.unreadMarker != 0
        invariant old(reader.Complete()) ==> reader.Complete()
      {
        var ci := layout.members[blkn];
        ghost var v, now := ShrInt(values[blkn], layout.al), dc[..];
        PlanBlock(layout, mcus, i, blkn, state);
        AssignedLess(layout, values, was, dc[..], blkn);
        var diff := DecodeDifference(reader, tables[layout.tables[ci]], books, layout.tables[ci], v - state[ci],
                                     DcPlan(layout, mcus, i, blkn + 1, state[ci := v]));
        if diff.None? { return false, state; }
        AssignNext(layout, values, was, dc[..], blkn);
        var s := diff.value + state[ci];
        state := state[ci := s];
        dc[blkn] := ShlInt(s, layout.al);
        assert dc[..] == now[blkn := DcPoint(values[blkn], layout.al)];
      }
      PlanMcu(layout, mcus, i, state);
    }

    /** `decode_mcu_DC_first` on the DC coefficients of the blocks of MCU `i`.  What a call
        that had to be suspended has assigned is assigned again by the next. */
    method DecodeFirstMcu(dc: array<int>, ghost mcus: seq<seq<int>>, ghost i: nat, ghost books: Books) returns (ok: bool)
      requires Ready() && HasTables(tables, books, layout)
      requires Laid(layout, mcus) && i < |mcus| && dc.Length == |layout.members|
      requires InRange(layout, mcus, i, 0, lastDcVal) && FacingSaved(books, DcPlan(layout, mcus, i, 0, lastDcVal))
      modifies this`lastDcVal, dc
      modifies reader`pos, reader`unreadMarker, reader`getBuffer, reader`bitsLeft, reader`insufficientData
      modifies reader`spent, reader`at, reader`savedPos, reader`savedBuffer, reader`savedLeft, reader`savedAt, reader`savedSpent
      ensures Ready() && reader.insufficientData == old(reader.insufficientData)
      ensures old(reader.insufficientData) ==> ok && dc[..] == old(dc[..]) && lastDcVal == old(lastDcVal)
      ensures ok && !old(reader.insufficientData) ==>
                && (forall k | 0 <= k < dc.Length :: dc[k] == DcPoint(mcus[i][k], layout.al))
                && InRange(layout, mcus, i + 1, 0, lastDcVal) && FacingSaved(books, DcPlan(layout, mcus, i + 1, 0, lastDcVal))
      ensures !ok ==> DcAssigned(layout, mcus[i], old(dc[..]), dc[..], 0)
                      && lastDcVal == old(lastDcVal) && reader.savedAt == old(reader.savedAt)
      ensures old(reader.Settled()) ==> ok && reader.Settled()
    {
      hide Reader.Valid, Reader.Saved, Reader.Complete, Reader.Settled, DecoderTable.Valid, Ahead, AllCodable, DcPlan, InRange,
           DcAssigned, ShrInt, ShlInt;
      ok := true;
      if reader.insufficientData { return; }
      reader.Load();
      ghost var was := dc[..];
      var state;
      ok, state := DecodeFirstBlocks(dc, mcus, i, books);
      if ok {
        AssignedWhole(layout, mcus[i], was, dc[..]);
        reader.Save();
        lastDcVal := state;
      }
    }

    /** The blocks of an MCU of a refinement scan, on the working state. */
    method DecodeRefineBlocks(dc: array<int>, ghost values: seq<int>, ghost books: Books, ghost rest: Events) returns (ok: bool)
      requires reader.Valid() && !reader.insufficientData && BitKnown(layout, values, dc[..])
      requires Facing(reader, books, Append(BitPlan(layout.al, values, 0), rest))
      modifies reader`pos, reader`unreadMarker, reader`getBuffer, reader`bitsLeft, reader`insufficientData
      modifies reader`spent, reader`at, dc
      ensures reader.Valid() && !reader.insufficientData && BitKnown(layout, values, dc[..])
      ensures ok ==> (forall k | 0 <= k < dc.Length :: dc[k] == DcPoint(values[k], layout.al)) && Facing(reader, books, rest)
      ensures !ok ==> reader.unreadMarker == 0
      ensures old(reader.unreadMarker) != 0 ==> reader.unreadMarker != 0
      ensures old(reader.Complete()) ==> ok && reader.Complete()
    {
      hide Reader.Valid, Reader.Complete, Facing, ShrInt, ShlInt, Shl;
      ok := true;
      for blkn := 0 to dc.Length
        invariant reader.Valid() && !reader.insufficientData && BitKnown(layout, values, dc[..])
        invariant forall k | 0 <= k < blkn :: dc[k] == DcPoint(values[k], layout.al)
        invariant Facing(reader, books, Append(BitPlan(layout.al, values, blkn), rest))
        invariant old(reader.unreadMarker) != 0 ==> reader.unreadMarker != 0
        invariant old(reader.Complete()) ==> reader.Complete()
      {
        ghost var now := dc[..];
        var bit := ReadBits(reader, 1, books, if BitSet(values[blkn], layout.al) then 1 else 0,
                            Append(BitPlan(layout.al, values, blkn + 1), rest));
        if bit.None? { return false; }
        BitAdded(layout, values, now, blkn);
        if bit.value != 0 {
          dc[blkn] := SetBit(dc[blkn], layout.al);
        }
        assert dc[..] == now[blkn := DcPoint(values[blkn], layout.al)];
      }
    }

    /** `decode_mcu_DC_refine`.  A call that had to be suspended may have set some bits; to
        set them again does no harm. */
    method DecodeRefineMcu(dc: array<int>, ghost values: seq<int>, ghost books: Books, ghost rest: Events) returns (ok: bool)
      requires Ready() && BitKnown(layout, values, dc[..]) && !reader.insufficientData
      requires FacingSaved(books, Append(BitPlan(layout.al, values, 0), rest))
      modifies dc
      modifies reader`pos, reader`unreadMarker, reader`getBuffer, reader`bitsLeft, reader`insufficientData
      modifies reader`spent, reader`at, reader`savedPos, reader`savedBuffer, reader`savedLeft, reader`savedAt, reader`savedSpent
      ensures Ready() && BitKnown(layout, values, dc[..]) && !reader.insufficientData
      ensures ok ==> (forall k | 0 <= k < dc.Length :: dc[k] == DcPoint(values[k], layout.al)) && FacingSaved(books, rest)
      ensures !ok ==> reader.savedAt == old(reader.savedAt)
      ensures old(reader.Settled()) ==> ok && reader.Settled()
    {
      hide Reader.Valid, Reader.Saved, Reader.Complete, Reader.Settled, Ahead, AllCodable, BitKnown, ShrInt, ShlInt, BitPlan;
      reader.Load();
      ok := DecodeRefineBlocks(dc, values, books, rest);
      if ok { reader.Save(); }
    }
  }

  /** Each coefficient is known but for the bit of this scan, or with that bit already. */
  ghost predicate BitKnown(l: Layout, values: seq<int>, cur: seq<int>) {
    && |values| == |cur|
    && forall k | 0 <= k < |cur| :: cur[k] == DcPoint(values[k], l.al + 1) || cur[k] == DcPoint(values[k], l.al)
  }

  lemma BitAdded(l: Layout, values: seq<int>, cur: seq<int>, j: nat)
    requires BitKnown(l, values, cur) && j < |cur|
    ensures (if BitSet(values[j], l.al) then SetBit(cur[j], l.al) else cur[j]) == DcPoint(values[j], l.al)
    ensures BitKnown(l, values, cur[j := DcPoint(values[j], l.al)])
  {
    hide ShlInt, ShrInt, BitSet, SetBit, DcPoint;
    DcPointRefines(values[j], l.al);
  }

  lemma NothingAssigned(l: Layout, values: seq<int>, cur: seq<int>)
    requires |values| == |cur| == |l.members|
    ensures DcAssigned(l, values, cur, cur, 0)
  {
  }
}
