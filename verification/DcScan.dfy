/** DC scans are decoded to what was encoded, and optimal tables made from the statistics
  of a first scan code it. */
module DcScan {
  import opened JpegLimits
  import opened Shifts
  import opened Totals
  import opened EntropySource
  import opened BitReader
  import opened BitWriter
  import opened BitCodec
  import opened HuffmanCost
  import opened HuffmanMerge
  import opened HuffmanLimit
  import opened HuffmanTables
  import opened CodeEvents
  import opened EventTables
  import opened EventReader
  import opened PointTransform
  import opened Segments
  import HuffEncoder
  import opened HuffScan
  import opened Restarts
  import opened DcModel
  import opened DcEncoder
  import opened DcDecoder
  import opened DcRestarts
  import opened Wrappers

  /** Every component of the scan has a block in the MCU. */
  ghost predicate Covers(l: Layout) {
    l.Valid() && forall c: nat | c < |l.tables| :: c in l.members
  }

  /** The encoder's and the decoder's tables are those of the books. */
  ghost predicate Agree(l: Layout, codes: seq<EncoderTable>, tables: seq<DecoderTable>, books: Books) {
    && |codes| == NUM_HUFF_TBLS && HasTables(tables, books, l)
    && forall c | 0 <= c < |l.tables| :: books[l.tables[c]].Valid() && books[l.tables[c]].codes == codes[l.tables[c]]
  }

  /** The MCUs after the point transform. */
  ghost predicate Transformed(al: nat, mcus: seq<seq<int>>, result: seq<seq<int>>) {
    && |result| == |mcus|
    && forall i | 0 <= i < |mcus| :: |result[i]| == |mcus[i]| && forall k | 0 <= k < |mcus[i]| :: result[i][k] == DcPoint(mcus[i][k], al)
  }

  // --------------------------------------------------------- segments of a scan

  /** The MCUs of the segment that begins with MCU `start`. */
  function Slice(mcus: seq<seq<int>>, interval: nat, start: nat): (slice: seq<seq<int>>)
    requires start <= |mcus|
    ensures |slice| == SegmentEnd(interval, |mcus|, start) - start
  {
    mcus[start..SegmentEnd(interval, |mcus|, start)]
  }

  /** What stands for any stretch of the MCUs, when it is a segment. */
  function PartOf(l: Layout, mcus: seq<seq<int>>): Part {
    (a: nat, b: nat) => if a <= b <= |mcus| && Laid(l, mcus) then DcEvents(l, mcus[a..b]) else Nil
  }

  /** Everything that stands for a scan with restarts. */
  function ScanEvents(l: Layout, mcus: seq<seq<int>>, interval: nat): Events {
    ScanFrom(PartOf(l, mcus), |mcus|, interval, 0)
  }

  lemma SliceEvents(l: Layout, mcus: seq<seq<int>>, interval: nat, start: nat)
    requires Laid(l, mcus) && start <= |mcus|
    ensures Laid(l, Slice(mcus, interval, start))
    ensures SegmentAt(PartOf(l, mcus), |mcus|, interval, start) == DcEvents(l, Slice(mcus, interval, start))
  {
    hide DcEvents;
  }

  /** No difference in the segments from there on has more than 11 bits. */
  predicate RangeFrom(l: Layout, mcus: seq<seq<int>>, interval: nat, start: nat)
    requires Laid(l, mcus) && start <= |mcus|
    decreases |mcus| - start
  {
    var end := SegmentEnd(interval, |mcus|, start);
    DcInRange(l, Slice(mcus, interval, start)) && (end == |mcus| || RangeFrom(l, mcus, interval, end))
  }

  lemma RangeSplit(l: Layout, mcus: seq<seq<int>>, interval: nat, start: nat)
    requires Laid(l, mcus) && start <= |mcus|
    ensures var end := SegmentEnd(interval, |mcus|, start);
            RangeFrom(l, mcus, interval, start)
            <==> DcInRange(l, Slice(mcus, interval, start)) && (end == |mcus| || RangeFrom(l, mcus, interval, end))
  {
    hide DcInRange;
  }

  predicate ScanInRange(l: Layout, mcus: seq<seq<int>>, interval: nat)
    requires Laid(l, mcus)
  {
    RangeFrom(l, mcus, interval, 0)
  }

  // ------------------------------------------------------------------- encoding

  /** The encoder stands before MCU `i`; `range` tells whether all differences from there on
      are in range. */
  ghost predicate Before(encoder: PhuffDcEncoder, mcus: seq<seq<int>>, i: nat, aim: DcAim, range: bool)
    reads encoder, encoder.writer, encoder.counts, encoder.lastDcVal
  {
    && encoder.Valid() && !encoder.refining && Laid(encoder.layout, mcus)
    && InCount(|mcus|, encoder.restartInterval, |aim.segments|, i, encoder.restartsToGo, encoder.nextRestartNum)
    && Aiming(encoder, PartOf(encoder.layout, mcus), |mcus|, aim) && Goes(encoder, mcus, i, aim, range)
  }

  /** The rest of the current segment leads to its end. */
  ghost predicate Goes(encoder: PhuffDcEncoder, mcus: seq<seq<int>>, i: nat, aim: DcAim, range: bool)
    requires encoder.Fixed() && Laid(encoder.layout, mcus)
    reads encoder.writer`written, encoder.counts, encoder.lastDcVal
  {
    var start := SegmentStart(encoder.restartInterval, |aim.segments|);
    && start <= |mcus| && start <= i <= SegmentEnd(encoder.restartInterval, |mcus|, start)
    && var slice, end := Slice(mcus, encoder.restartInterval, start), SegmentEnd(encoder.restartInterval, |mcus|, start);
       && encoder.Leads(DcPlan(encoder.layout, slice, i - start, 0, encoder.Last()), aim.goal)
       && (range <==> InRange(encoder.layout, slice, i - start, 0, encoder.Last())
                      && (end == |mcus| || RangeFrom(encoder.layout, mcus, encoder.restartInterval, end)))
  }

  /** The first MCU of a segment. */
  lemma GoesFirst(encoder: PhuffDcEncoder, mcus: seq<seq<int>>, aim: DcAim)
    requires encoder.Fixed() && Laid(encoder.layout, mcus) && encoder.Last() == DcModel.Zero(encoder.layout)
    requires Begins(encoder, PartOf(encoder.layout, mcus), |mcus|, aim)
    ensures var start := SegmentStart(encoder.restartInterval, |aim.segments|);
            Goes(encoder, mcus, start, aim, RangeFrom(encoder.layout, mcus, encoder.restartInterval, start))
  {
    hide PartOf, SegmentAt, PhuffDcEncoder.Leads, PhuffDcEncoder.Fixed, DcPlan, InRange, RangeFrom, ScanFrom, Slice, SegmentEnd, Laid;
    SliceEvents(encoder.layout, mcus, encoder.restartInterval, SegmentStart(encoder.restartInterval, |aim.segments|));
    RangeSplit(encoder.layout, mcus, encoder.restartInterval, SegmentStart(encoder.restartInterval, |aim.segments|));
  }

  /** At the end of a segment. */
  lemma SegmentOver(encoder: PhuffDcEncoder, mcus: seq<seq<int>>, i: nat, aim: DcAim, range: bool)
    requires encoder.Fixed() && Laid(encoder.layout, mcus) && Goes(encoder, mcus, i, aim, range)
    requires i == SegmentEnd(encoder.restartInterval, |mcus|, SegmentStart(encoder.restartInterval, |aim.segments|))
    ensures encoder.Leads(Nil, aim.goal)
    ensures range <==> i == |mcus| || RangeFrom(encoder.layout, mcus, encoder.restartInterval, i)
  {
    hide PhuffDcEncoder.Leads, DcPlan, InRange, RangeFrom;
    PlanDone(encoder.layout, Slice(mcus, encoder.restartInterval, SegmentStart(encoder.restartInterval, |aim.segments|)),
             encoder.Last());
  }

  /** The restart marker before MCU `i`. */
  method Restart(encoder: PhuffDcEncoder, ghost mcus: seq<seq<int>>, ghost i: nat, ghost aim: DcAim, ghost range: bool)
    returns (ghost next: DcAim)
    requires Before(encoder, mcus, i, aim, range) && i < |mcus| && encoder.restartInterval != 0 && encoder.restartsToGo == 0
    modifies encoder.lastDcVal, encoder.writer
    ensures encoder.Valid() && |next.segments| == |aim.segments| + 1 && next.all == aim.all && next.final == aim.final
    ensures i == SegmentStart(encoder.restartInterval, |next.segments|)
    ensures Aiming(encoder, PartOf(encoder.layout, mcus), |mcus|, next) && Goes(encoder, mcus, i, next, range)
  {
    hide PhuffDcEncoder.Leads, PhuffWriter.Valid, PartOf, SegmentAt, Aiming, RangeFrom, DcPlan, InRange, Goes, Begins,
         PhuffDcEncoder.Fixed;
    DueThen(|mcus|, encoder.restartInterval, |aim.segments|, i, encoder.restartsToGo, encoder.nextRestartNum);
    SegmentOver(encoder, mcus, i, aim, range);
    next := EmitRestart(encoder, PartOf(encoder.layout, mcus), |mcus|, i, aim);
    GoesFirst(encoder, mcus, next);
  }

  /** The MCU itself. */
  method EncodeHere(encoder: PhuffDcEncoder, values: seq<int>, ghost mcus: seq<seq<int>>, ghost i: nat, ghost aim: DcAim,
                    ghost range: bool) returns (ok: bool)
    requires encoder.Valid() && !encoder.refining && Laid(encoder.layout, mcus) && Goes(encoder, mcus, i, aim, range)
    requires i < SegmentEnd(encoder.restartInterval, |mcus|, SegmentStart(encoder.restartInterval, |aim.segments|))
    requires i < |mcus| && values == mcus[i]
    modifies encoder.counts, encoder.lastDcVal
    modifies encoder.writer`putBuffer, encoder.writer`putBits, encoder.writer`output, encoder.writer`data, encoder.writer`written
    ensures encoder.Valid()
    ensures if ok then Goes(encoder, mcus, i + 1, aim, range) else !range || (!encoder.gather && !aim.goal.fine)
  {
    hide PhuffDcEncoder.Leads, PhuffWriter.Valid, RangeFrom, DcPlan, InRange, PhuffDcEncoder.Fixed;
    ghost var start := SegmentStart(encoder.restartInterval, |aim.segments|);
    ghost var slice := Slice(mcus, encoder.restartInterval, start);
    assert slice[i - start] == mcus[i];
    ghost var all := InRange(encoder.layout, slice, i - start, 0, encoder.Last());
    ok := encoder.EncodeFirstMcu(values, slice, i - start, aim.goal, all);
  }

  /** `encode_mcu_DC_first`, with the restart marker before the MCU if one is due. */
  method EncodeNext(encoder: PhuffDcEncoder, values: seq<int>, ghost mcus: seq<seq<int>>, ghost i: nat, ghost aim: DcAim,
                    ghost range: bool) returns (ok: bool, ghost next: DcAim)
    requires Before(encoder, mcus, i, aim, range) && i < |mcus| && values == mcus[i]
    modifies encoder, encoder.counts, encoder.lastDcVal, encoder.writer
    ensures if ok then Before(encoder, mcus, i + 1, next, range) && next.all == aim.all && next.final == aim.final
            else !range || (!encoder.gather && !aim.all)
  {
    hide PhuffDcEncoder.Leads, PhuffWriter.Valid, Aiming, Goes, PartOf, PhuffDcEncoder.Fixed;
    ok, next := true, aim;
    DueThen(|mcus|, encoder.restartInterval, |aim.segments|, i, encoder.restartsToGo, encoder.nextRestartNum);
    if encoder.restartInterval != 0 && encoder.restartsToGo == 0 {
      next := Restart(encoder, mcus, i, aim, range);
    }
    AimingWithin(encoder, PartOf(encoder.layout, mcus), |mcus|, next);
    ok := EncodeHere(encoder, values, mcus, i, next, range);
    if !ok { return; }
    encoder.CountMcu();
  }

  /** All MCUs, and the end of the pass. */
  method EncodeMcus(encoder: PhuffDcEncoder, mcus: seq<seq<int>>) returns (ok: bool, ghost segments: seq<seq<byte>>)
    requires encoder.Valid() && !encoder.refining && Laid(encoder.layout, mcus)
    requires encoder.writer.written == [] && encoder.writer.earlier == [] && encoder.Last() == DcModel.Zero(encoder.layout)
    requires encoder.restartsToGo == encoder.restartInterval && encoder.nextRestartNum == 0
    modifies encoder, encoder.counts, encoder.lastDcVal, encoder.writer
    ensures ok <==> ScanInRange(encoder.layout, mcus, encoder.restartInterval)
                    && (encoder.gather || AllCodable(encoder.books, ScanEvents(encoder.layout, mcus, encoder.restartInterval)))
    ensures ok && encoder.gather ==> |encoder.counts| == NUM_HUFF_TBLS && forall t | 0 <= t < NUM_HUFF_TBLS ::
              Counts(encoder.counts[t][..])
              == EmitAll([], Counts(old(encoder.counts[t][..])),
                         ScanFrom(PartOnly(t, PartOf(encoder.layout, mcus)), |mcus|, encoder.restartInterval, 0))
    ensures ok && !encoder.gather ==>
              && Divided(|mcus|, encoder.restartInterval, |segments|) && encoder.writer.output == HuffEncoder.Scan(segments)
              && AllHold(PartOf(encoder.layout, mcus), |mcus|, encoder.restartInterval, encoder.books, segments)
  {
    hide PhuffDcEncoder.Leads, PhuffWriter.Valid, Aiming, Goes, PartOf, RangeFrom, ScanFrom, AllCodable, Begins, DcPlan, InRange,
         AllHold, HuffEncoder.Scan, Divided, EmitAll, Only;
    ghost var part, range := PartOf(encoder.layout, mcus), RangeFrom(encoder.layout, mcus, encoder.restartInterval, 0);
    FirstAimIs(encoder, part, |mcus|);
    ghost var aim, final := FirstAim(encoder, part, |mcus|), CountsInAll(encoder, part, |mcus|);
    GoesFirst(encoder, mcus, aim);
    ok, segments := true, [];
    for i := 0 to |mcus|
      invariant Before(encoder, mcus, i, aim, range) && aim.final == final
      invariant aim.all == (encoder.gather || AllCodable(encoder.books, ScanFrom(part, |mcus|, encoder.restartInterval, 0)))
    {
      ok, aim := EncodeNext(encoder, mcus[i], mcus, i, aim, range);
      if !ok { return; }
    }
    AtLast(|mcus|, encoder.restartInterval, |aim.segments|, encoder.restartsToGo, encoder.nextRestartNum);
    SegmentOver(encoder, mcus, |mcus|, aim, range);
    segments := FinishScan(encoder, part, |mcus|, aim);
  }

  /** A pass that writes: it succeeds if and only if every symbol has a code and every
      difference is in range, and then each segment holds the bits of its events. */
  method EncodeScan(l: Layout, mcus: seq<seq<int>>, interval: nat, codes: seq<EncoderTable>, ghost books: Books)
    returns (ok: bool, bytes: seq<byte>, ghost segments: seq<seq<byte>>)
    requires Laid(l, mcus) && |codes| == |books| == NUM_HUFF_TBLS
    requires forall c | 0 <= c < |l.tables| :: books[l.tables[c]].Valid() && books[l.tables[c]].codes == codes[l.tables[c]]
    ensures ok <==> AllCodable(books, ScanEvents(l, mcus, interval)) && ScanInRange(l, mcus, interval)
    ensures ok ==> Divided(|mcus|, interval, |segments|) && bytes == HuffEncoder.Scan(segments)
                   && AllHold(PartOf(l, mcus), |mcus|, interval, books, segments)
  {
    hide PhuffWriter.Valid, AllCodable, PartOf, ScanFrom, ScanInRange, Book.Valid, PhuffDcEncoder.Leads, AllHold, Divided,
         HuffEncoder.Scan;
    var encoder := new PhuffDcEncoder(false, false, codes, l, interval, books);
    bytes := [];
    ok, segments := EncodeMcus(encoder, mcus);
    if ok { bytes := encoder.writer.output; }
  }

  /** A pass that gathers the statistics of each table. */
  method GatherScan(l: Layout, mcus: seq<seq<int>>, interval: nat) returns (ok: bool, counts: seq<array<nat>>)
    requires Laid(l, mcus)
    ensures |counts| == NUM_HUFF_TBLS && (forall t | 0 <= t < NUM_HUFF_TBLS :: fresh(counts[t]) && counts[t].Length == 257)
    ensures forall t, u | 0 <= t < u < NUM_HUFF_TBLS :: counts[t] != counts[u]
    ensures ok <==> ScanInRange(l, mcus, interval)
    ensures ok ==> forall t | 0 <= t < NUM_HUFF_TBLS :: counts[t][..] == Statistics(l, mcus, interval, t)
  {
    hide PhuffWriter.Valid, AllCodable, PartOf, ScanFrom, ScanInRange, PhuffDcEncoder.Leads, Only, EmitAll, AllHold, Divided;
    var none := EncoderTable([], []);
    ghost var books := seq(NUM_HUFF_TBLS, _ => Book([], [], none));
    var encoder := new PhuffDcEncoder(true, false, seq(NUM_HUFF_TBLS, _ => none), l, interval, books);
    counts := encoder.counts;
    ghost var segments;
    ok, segments := EncodeMcus(encoder, mcus);
    forall t: nat | t < NUM_HUFF_TBLS { OnlyScan(t, PartOf(l, mcus), |mcus|, interval, 0); }
  }

  // ------------------------------------------------------------------- decoding

  /** The decoder stands before MCU `i`, in segment `s`. */
  ghost predicate DecodesFrom(x: Stretch, decoder: PhuffDcDecoder, mcus: seq<seq<int>>, i: nat, s: nat, pos: nat)
    reads decoder, decoder.reader
  {
    && decoder.Ready() && Laid(decoder.layout, mcus) && x.part == PartOf(decoder.layout, mcus) && x.n == |mcus|
    && x.interval == decoder.restartInterval && ScanInRange(decoder.layout, mcus, x.interval)
    && HasTables(decoder.tables, x.books, decoder.layout)
    && Stands(x, decoder.reader, i, s, pos, decoder.restartsToGo, decoder.nextRestartNum)
    && Faces(x, decoder, mcus, i, s)
  }

  /** The rest of the segment stands ahead. */
  ghost predicate Faces(x: Stretch, decoder: PhuffDcDecoder, mcus: seq<seq<int>>, i: nat, s: nat)
    requires Laid(decoder.layout, mcus)
    reads decoder`lastDcVal, decoder.reader`stream, decoder.reader`savedAt
  {
    var start := SegmentStart(x.interval, s);
    && start <= |mcus| && start <= i <= SegmentEnd(x.interval, |mcus|, start) && |decoder.lastDcVal| == |decoder.layout.tables|
    && var slice := Slice(mcus, x.interval, start);
       && InRange(decoder.layout, slice, i - start, 0, decoder.lastDcVal)
       && decoder.FacingSaved(x.books, DcPlan(decoder.layout, slice, i - start, 0, decoder.lastDcVal))
  }

  /** Each segment is in range. */
  lemma {:induction false} SegmentInRange(l: Layout, mcus: seq<seq<int>>, interval: nat, s: nat)
    requires Laid(l, mcus) && ScanInRange(l, mcus, interval) && SegmentStart(interval, s) <= |mcus|
    requires s > 0 ==> interval > 0 && SegmentStart(interval, s) < |mcus|
    ensures RangeFrom(l, mcus, interval, SegmentStart(interval, s))
  {
    hide DcInRange;
    if s > 0 { SegmentInRange(l, mcus, interval, s - 1); }
  }

  /** At the start of a segment. */
  lemma FacesFirst(x: Stretch, decoder: PhuffDcDecoder, mcus: seq<seq<int>>, s: nat, pos: nat)
    requires Laid(decoder.layout, mcus) && x.part == PartOf(decoder.layout, mcus) && x.n == |mcus|
    requires ScanInRange(decoder.layout, mcus, x.interval)
    requires x.Valid() && Chain(x.input, x.segments, s, pos, x.marker) && (s > 0 ==> x.interval > 0)
    requires decoder.reader.stream == Coming(x.input, pos) && decoder.reader.savedAt == 0
    requires decoder.lastDcVal == DcModel.Zero(decoder.layout)
    ensures SegmentStart(x.interval, s) <= |mcus| && Faces(x, decoder, mcus, SegmentStart(x.interval, s), s)
  {
    hide Ahead, AllCodable, DcPlan, InRange, Chain, PartOf, SegmentAt, Coming, ScanInRange;
    EventsStand(x, s, pos);
    SegmentBefore(x, s, pos);
    SliceEvents(decoder.layout, mcus, x.interval, SegmentStart(x.interval, s));
    SegmentInRange(decoder.layout, mcus, x.interval, s);
  }

  lemma SegmentBefore(x: Stretch, s: nat, pos: nat)
    requires x.Valid() && Chain(x.input, x.segments, s, pos, x.marker)
    ensures SegmentStart(x.interval, s) <= x.n && (s > 0 ==> SegmentStart(x.interval, s) < x.n)
  {
    hide Holds, AllCodable, ScanFrom;
    SegmentCodable(x, s);
  }

  /** The restart marker before MCU `i`. */
  method StartSegment(decoder: PhuffDcDecoder, ghost x: Stretch, ghost mcus: seq<seq<int>>, ghost i: nat, ghost s: nat,
                      ghost pos: nat) returns (ghost next: nat)
    requires DecodesFrom(x, decoder, mcus, i, s, pos) && i < |mcus|
    requires decoder.restartInterval != 0 && decoder.restartsToGo == 0
    modifies decoder, decoder.reader
    ensures DecodesFrom(x, decoder, mcus, i, s + 1, next) && decoder.restartsToGo == decoder.restartInterval
  {
    hide Stands, PartOf, Faces, HasTables, Coming, Chain, Stretch.Valid, Reader.Saved, ScanInRange;
    next := ReadRestart(decoder, x, i, s, pos);
    FacesFirst(x, decoder, mcus, s + 1, next);
  }

  /** The MCU itself. */
  method DecodeHere(decoder: PhuffDcDecoder, ghost x: Stretch, ghost mcus: seq<seq<int>>, ghost i: nat, ghost s: nat)
    returns (result: seq<int>)
    requires decoder.Ready() && decoder.reader.Settled() && !decoder.reader.insufficientData && i < |mcus|
    requires Laid(decoder.layout, mcus) && HasTables(decoder.tables, x.books, decoder.layout)
    requires SegmentStart(x.interval, s) <= |mcus| && i < SegmentEnd(x.interval, |mcus|, SegmentStart(x.interval, s))
    requires Faces(x, decoder, mcus, i, s)
    modifies decoder`lastDcVal
    modifies decoder.reader`pos, decoder.reader`unreadMarker, decoder.reader`getBuffer, decoder.reader`bitsLeft
    modifies decoder.reader`insufficientData, decoder.reader`spent, decoder.reader`at, decoder.reader`savedPos
    modifies decoder.reader`savedBuffer, decoder.reader`savedLeft, decoder.reader`savedAt, decoder.reader`savedSpent
    ensures decoder.Ready() && decoder.reader.Settled() && !decoder.reader.insufficientData
    ensures Faces(x, decoder, mcus, i + 1, s)
    ensures |result| == |mcus[i]| && forall k | 0 <= k < |result| :: result[k] == DcPoint(mcus[i][k], decoder.layout.al)
  {
    hide Ahead, AllCodable, DcPlan, InRange, Reader.Saved, Reader.Settled, HasTables, DcPoint;
    ghost var start := SegmentStart(x.interval, s);
    ghost var slice := Slice(mcus, x.interval, start);
    assert slice[i - start] == mcus[i];
    var dc := new int[|decoder.layout.members|](_ => 0);
    var ok := decoder.DecodeFirstMcu(dc, slice, i - start, x.books);
    result := dc[..];
  }

  /** One MCU, behind a restart marker if one is due. */
  method DecodeOne(decoder: PhuffDcDecoder, ghost x: Stretch, ghost mcus: seq<seq<int>>, ghost i: nat, ghost s: nat, ghost pos: nat)
    returns (result: seq<int>, ghost s': nat, ghost pos': nat)
    requires DecodesFrom(x, decoder, mcus, i, s, pos) && i < |mcus|
    modifies decoder, decoder.reader
    ensures DecodesFrom(x, decoder, mcus, i + 1, s', pos')
    ensures |result| == |mcus[i]| && forall k | 0 <= k < |result| :: result[k] == DcPoint(mcus[i][k], decoder.layout.al)
  {
    hide Reader.Saved, Reader.Settled, Stretch.Valid, PartOf, Chain, Ending, Coming, Faces, HasTables, DcPoint, ScanInRange;
    s', pos' := s, pos;
    if decoder.restartInterval != 0 && decoder.restartsToGo == 0 {
      pos' := StartSegment(decoder, x, mcus, i, s, pos);
      s' := s + 1;
    }
    DueThen(|mcus|, x.interval, s', i, decoder.restartsToGo, decoder.nextRestartNum);
    result := DecodeHere(decoder, x, mcus, i, s');
    decoder.CountMcu();
  }

  method DecodeScan(l: Layout, tables: seq<DecoderTable>, interval: nat, input: seq<byte>, n: nat, ghost x: Stretch,
                    ghost mcus: seq<seq<int>>)
    returns (result: seq<seq<int>>)
    requires Laid(l, mcus) && n == |mcus| && HasTables(tables, x.books, l) && ScanInRange(l, mcus, interval)
    requires x.Valid() && x.part == PartOf(l, mcus) && x.n == |mcus| && x.interval == interval && x.input == input
    requires Chain(input, x.segments, 0, 0, x.marker)
    ensures Transformed(l.al, mcus, result)
  {
    hide HasTables, DecodesFrom, Stretch.Valid, PartOf, Chain, Reader.Saved, Coming, Ending, DcPoint, ScanInRange;
    var reader := new Reader(input, |input|);
    var decoder := new PhuffDcDecoder(reader, tables, l, interval);
    ghost var s, pos := 0, 0;
    FirstStands(x, decoder, mcus);
    result := [];
    for i := 0 to n
      invariant DecodesFrom(x, decoder, mcus, i, s, pos) && fresh(decoder) && fresh(decoder.reader)
      invariant Transformed(l.al, mcus[..i], result)
    {
      var mcu;
      mcu, s, pos := DecodeOne(decoder, x, mcus, i, s, pos);
      result := result + [mcu];
    }
    assert mcus[..n] == mcus;
  }

  lemma FirstStands(x: Stretch, decoder: PhuffDcDecoder, mcus: seq<seq<int>>)
    requires decoder.Ready() && x.Valid() && Laid(decoder.layout, mcus) && x.part == PartOf(decoder.layout, mcus) && x.n == |mcus|
    requires x.interval == decoder.restartInterval && decoder.reader.input == x.input && decoder.reader.available == |x.input|
    requires HasTables(decoder.tables, x.books, decoder.layout) && ScanInRange(decoder.layout, mcus, x.interval)
    requires Chain(x.input, x.segments, 0, 0, x.marker) && decoder.lastDcVal == DcModel.Zero(decoder.layout)
    requires decoder.restartsToGo == x.interval && decoder.nextRestartNum == 0
    requires decoder.reader.stream == Coming(x.input, 0) && decoder.reader.savedAt == 0 && decoder.reader.savedPos == 0
    requires decoder.reader.ending == Ending(x.input, 0) && !decoder.reader.insufficientData
    ensures DecodesFrom(x, decoder, mcus, 0, 0, 0)
  {
    hide Reader.Saved, HasTables, PartOf, Faces, Coming, Holds, AllHold, AllCodable, ScanFrom, Ending, ScanInRange;
    FacesFirst(x, decoder, mcus, 0, 0);
  }

  /** With any tables that have a code for every symbol, and for every restart interval: what
      is decoded are the DC coefficients after the point transform. */
  method RoundTrip(l: Layout, mcus: seq<seq<int>>, interval: nat, codes: seq<EncoderTable>, tables: seq<DecoderTable>,
                   ghost books: Books, fill: nat, marker: byte, tail: seq<byte>)
    returns (ok: bool, result: seq<seq<int>>)
    requires Laid(l, mcus) && Agree(l, codes, tables, books) && marker != 0 && marker != 0xFF
    ensures ok <==> AllCodable(books, ScanEvents(l, mcus, interval)) && ScanInRange(l, mcus, interval)
    ensures ok ==> Transformed(l.al, mcus, result)
  {
    hide AllCodable, PartOf, ScanInRange, DecoderTable.Valid, Book.Valid, Chain, HuffEncoder.Scan, HuffEncoder.Restarted,
         ScanFrom, AllHold, MarkerBytes;
    var bytes;
    ghost var segments;
    ok, bytes, segments := EncodeScan(l, mcus, interval, codes, books);
    result := [];
    if ok {
      var input := bytes + MarkerBytes(fill, marker) + tail;
      ScanChain(segments, fill, marker, tail, 0);
      NothingRestarted(segments);
      ghost var x := Stretch(PartOf(l, mcus), |mcus|, interval, books, input, segments, marker);
      result := DecodeScan(l, tables, interval, input, |mcus|, x, mcus);
    }
  }

  // ------------------------------------------------------ with optimal tables

  lemma {:induction false} PlainAppend(a: Events, b: Events, n: nat)
    requires Plain(a, n) && Plain(b, n)
    ensures Plain(Append(a, b), n)
    decreases a
  {
    hide Shl;
    if a.Cons? { PlainAppend(a.tail, b, n); }
  }

  lemma {:induction false} AppearsAppend(t: nat, a: Events, b: Events)
    ensures Appears(t, Append(a, b)) <==> Appears(t, a) || Appears(t, b)
    decreases a
  {
    if a.Cons? { AppearsAppend(t, a.tail, b); }
  }

  /** What stands for a segment uses the tables of its blocks, and no others. */
  lemma PartPlain(l: Layout, mcus: seq<seq<int>>)
    requires Laid(l, mcus) && DcInRange(l, mcus)
    ensures Plain(DcEvents(l, mcus), NUM_HUFF_TBLS)
    ensures forall t | Appears(t, DcEvents(l, mcus)) :: exists k | 0 <= k < |l.members| :: l.tables[l.members[k]] == t
    ensures |mcus| > 0 ==> forall k | 0 <= k < |l.members| :: Appears(l.tables[l.members[k]], DcEvents(l, mcus))
  {
    hide DcPlan, InRange, Plain, Appears;
    PlanPlain(l, mcus, 0, 0, Zero(l));
    forall t | Appears(t, DcEvents(l, mcus)) ensures exists k | 0 <= k < |l.members| :: l.tables[l.members[k]] == t {
      OnlyUsed(l, mcus, 0, 0, Zero(l), t);
    }
    if |mcus| > 0 {
      forall k | 0 <= k < |l.members| ensures Appears(l.tables[l.members[k]], DcEvents(l, mcus)) {
        TableUsed(l, mcus, 0, 0, Zero(l), k);
      }
    }
  }

  lemma {:induction false} ScanPlain(l: Layout, mcus: seq<seq<int>>, interval: nat, start: nat)
    requires Laid(l, mcus) && start <= |mcus| && RangeFrom(l, mcus, interval, start)
    ensures var events := ScanFrom(PartOf(l, mcus), |mcus|, interval, start);
            && Plain(events, NUM_HUFF_TBLS)
            && (forall t | Appears(t, events) :: exists k | 0 <= k < |l.members| :: l.tables[l.members[k]] == t)
            && (start < |mcus| ==> forall k | 0 <= k < |l.members| :: Appears(l.tables[l.members[k]], events))
    decreases |mcus| - start
  {
    hide DcEvents, DcInRange, Plain, Appears, Append;
    var end := SegmentEnd(interval, |mcus|, start);
    SliceEvents(l, mcus, interval, start);
    PartPlain(l, Slice(mcus, interval, start));
    if end < |mcus| {
      ScanPlain(l, mcus, interval, end);
      var a, b := SegmentAt(PartOf(l, mcus), |mcus|, interval, start), ScanFrom(PartOf(l, mcus), |mcus|, interval, end);
      PlainAppend(a, b, NUM_HUFF_TBLS);
      forall t ensures Appears(t, Append(a, b)) <==> Appears(t, a) || Appears(t, b) { AppearsAppend(t, a, b); }
    }
  }

  /** What is known about a table that has been made. */
  ghost predicate Made(codes: EncoderTable, table: DecoderTable, book: Book, events: Events) {
    table.Valid() && book == Book(table.bits, table.huffval, codes) && book.Valid() && AllCodable([book], events)
  }

  /** The statistics of table `t`. */
  ghost function Statistics(l: Layout, mcus: seq<seq<int>>, interval: nat, t: nat): Table
    requires Laid(l, mcus)
  {
    StatisticsOf(Only(t, ScanEvents(l, mcus, interval)))
  }

  /** The table `t` of a component of the scan. */
  method MakeTable(counts: array<nat>, l: Layout, interval: nat, ghost mcus: seq<seq<int>>, ghost t: nat)
    returns (tables: Option<(EncoderTable, DecoderTable)>, ghost book: Book)
    requires Laid(l, mcus) && |mcus| > 0 && ScanInRange(l, mcus, interval) && exists k | 0 <= k < |l.members| :: l.tables[l.members[k]] == t
    requires counts.Length == 257 && counts[..] == Statistics(l, mcus, interval, t)
    requires Total(Statistics(l, mcus, interval, t)[256 := 1]) <= MAX_COUNT
    modifies counts
    ensures tables.Some? <==> !TooLong(Statistics(l, mcus, interval, t))
    ensures tables.Some? ==> Made(tables.value.0, tables.value.1, book, Only(t, ScanEvents(l, mcus, interval)))
  {
    hide AllCodable, DecoderTable.Valid, Book.Valid, ScanFrom, RangeFrom, PartOf, Only, Occurs, Shaped, Plain, Total, TooLong;
    ghost var k :| 0 <= k < |l.members| && l.tables[l.members[k]] == t;
    ScanPlain(l, mcus, interval, 0);
    OnlyShaped(t, ScanEvents(l, mcus, interval));
    ghost var some := AppearsOccurs(t, ScanEvents(l, mcus, interval));
    tables, book := TablesFor(counts, true, Only(t, ScanEvents(l, mcus, interval)), 11, some);
  }

  /** Component `c` uses table `t`. */
  ghost predicate UsedBy(l: Layout, n: nat, t: nat) {
    exists c | 0 <= c < n <= |l.tables| :: l.tables[c] == t
  }

  lemma Used(l: Layout, mcus: seq<seq<int>>, c: nat)
    requires Laid(l, mcus) && Covers(l) && c < |l.tables|
    ensures exists k | 0 <= k < |l.members| :: l.tables[l.members[k]] == l.tables[c]
  {
    assert c in l.members;
    var k :| 0 <= k < |l.members| && l.members[k] == c;
    assert l.tables[l.members[k]] == l.tables[c];
  }

  /** For no table in use does Huffman's algorithm give a code of more than 32 bits. */
  ghost predicate CodesFit(l: Layout, mcus: seq<seq<int>>, interval: nat)
    requires Laid(l, mcus)
  {
    forall t | 0 <= t < NUM_HUFF_TBLS && UsedBy(l, |l.tables|, t) :: !TooLong(Statistics(l, mcus, interval, t))
  }

  /** `finish_pass_gather_phuff`: a table for each of those in use, made only once even if
      components share it. */
  method MakeTables(counts: seq<array<nat>>, l: Layout, interval: nat, ghost mcus: seq<seq<int>>)
    returns (ok: bool, codes: seq<EncoderTable>, tables: seq<DecoderTable>, ghost books: Books)
    requires Laid(l, mcus) && Covers(l) && |mcus| > 0 && ScanInRange(l, mcus, interval)
    requires |counts| == NUM_HUFF_TBLS && forall t, u | 0 <= t < u < NUM_HUFF_TBLS :: counts[t] != counts[u]
    requires forall t | 0 <= t < NUM_HUFF_TBLS :: counts[t].Length == 257 && counts[t][..] == Statistics(l, mcus, interval, t)
    requires forall t | 0 <= t < NUM_HUFF_TBLS :: Total(Statistics(l, mcus, interval, t)[256 := 1]) <= MAX_COUNT
    modifies counts
    ensures |codes| == |tables| == |books| == NUM_HUFF_TBLS && (ok <==> CodesFit(l, mcus, interval))
    ensures ok ==> forall t | 0 <= t < NUM_HUFF_TBLS && UsedBy(l, |l.tables|, t) ::
              Made(codes[t], tables[t], books[t], Only(t, ScanEvents(l, mcus, interval)))
  {
    hide Made, TooLong, Statistics, ScanInRange, ScanEvents, Total, Only;
    var did := new bool[NUM_HUFF_TBLS](_ => false);
    codes, tables := seq(NUM_HUFF_TBLS, _ => EncoderTable([], [])), seq(NUM_HUFF_TBLS, _ => DecoderTable([], [], [], [], []));
    books := seq(NUM_HUFF_TBLS, _ => Book([], [], EncoderTable([], [])));
    for ci := 0 to |l.tables|
      invariant |codes| == |tables| == |books| == NUM_HUFF_TBLS
      invariant forall t | 0 <= t < NUM_HUFF_TBLS :: did[t] <==> UsedBy(l, ci, t)
      invariant forall t | 0 <= t < NUM_HUFF_TBLS && !did[t] :: counts[t][..] == Statistics(l, mcus, interval, t)
      invariant forall t | 0 <= t < NUM_HUFF_TBLS && did[t] ::
                  Made(codes[t], tables[t], books[t], Only(t, ScanEvents(l, mcus, interval)))
                  && !TooLong(Statistics(l, mcus, interval, t))
    {
      var tbl := l.tables[ci];
      UsedMore(l, ci);
      if !did[tbl] {
        ghost var before := seq(NUM_HUFF_TBLS, t requires 0 <= t < NUM_HUFF_TBLS reads counts => counts[t][..]);
        Used(l, mcus, ci);
        var made;
        ghost var book;
        made, book := MakeTable(counts[tbl], l, interval, mcus, tbl);
        assert forall t | 0 <= t < NUM_HUFF_TBLS && t != tbl :: counts[t][..] == before[t];
        books := books[tbl := book];
        if made.None? {
          assert UsedBy(l, |l.tables|, tbl);
          return false, codes, tables, books;
        }
        codes, tables := codes[tbl := made.value.0], tables[tbl := made.value.1];
        did[tbl] := true;
      }
    }
    ok := true;
  }

  lemma UsedMore(l: Layout, n: nat)
    requires n < |l.tables|
    ensures forall t :: UsedBy(l, n + 1, t) <==> UsedBy(l, n, t) || l.tables[n] == t
  {
    forall t | UsedBy(l, n, t) || l.tables[n] == t ensures UsedBy(l, n + 1, t) {
      if l.tables[n] != t {
        var c :| 0 <= c < n && l.tables[c] == t;
        assert l.tables[c] == t;
      }
    }
  }

  lemma TablesAgree(l: Layout, mcus: seq<seq<int>>, interval: nat, codes: seq<EncoderTable>, tables: seq<DecoderTable>, books: Books)
    requires Laid(l, mcus) && ScanInRange(l, mcus, interval) && |codes| == |tables| == |books| == NUM_HUFF_TBLS
    requires forall t | 0 <= t < NUM_HUFF_TBLS && UsedBy(l, |l.tables|, t) ::
               Made(codes[t], tables[t], books[t], Only(t, ScanEvents(l, mcus, interval)))
    ensures Agree(l, codes, tables, books) && AllCodable(books, ScanEvents(l, mcus, interval))
  {
    hide AllCodable, DecoderTable.Valid, Book.Valid, ScanFrom, RangeFrom, PartOf, Only, Plain, Tabled, Appears;
    forall c | 0 <= c < |l.tables|
      ensures Made(codes[l.tables[c]], tables[l.tables[c]], books[l.tables[c]], Only(l.tables[c], ScanEvents(l, mcus, interval)))
    {
      assert UsedBy(l, |l.tables|, l.tables[c]);
    }
    ScanPlain(l, mcus, interval, 0);
    forall t | 0 <= t < NUM_HUFF_TBLS && Appears(t, ScanEvents(l, mcus, interval))
      ensures AllCodable([books[t]], Only(t, ScanEvents(l, mcus, interval)))
    {
      var k :| 0 <= k < |l.members| && l.tables[l.members[k]] == t;
      assert UsedBy(l, |l.tables|, t);
    }
    PlainTabled(ScanEvents(l, mcus, interval), NUM_HUFF_TBLS);
    EachCodable(books, ScanEvents(l, mcus, interval));
  }

  /** Statistics gathered in one pass, an optimal table made for each of those in use, and
      the scan written with these and read back: this fails exactly when a difference is out
      of range or Huffman's algorithm gives a code of more than 32 bits. */
  method OptimizedRoundTrip(l: Layout, mcus: seq<seq<int>>, interval: nat, fill: nat, marker: byte, tail: seq<byte>)
    returns (ok: bool, result: seq<seq<int>>)
    requires Laid(l, mcus) && Covers(l) && |mcus| > 0 && marker != 0 && marker != 0xFF
    requires forall t | 0 <= t < NUM_HUFF_TBLS :: Total(Statistics(l, mcus, interval, t)[256 := 1]) <= MAX_COUNT
    ensures ok <==> ScanInRange(l, mcus, interval) && CodesFit(l, mcus, interval)
    ensures ok ==> Transformed(l.al, mcus, result)
  {
    hide Made, CodesFit, ScanInRange, ScanEvents, Total, Only, AllCodable, DecoderTable.Valid, Book.Valid, DcPoint,
         Covers, Agree;
    result := [];
    var counts;
    ok, counts := GatherScan(l, mcus, interval);
    if !ok { return; }
    var codes, tables;
    ghost var books;
    ok, codes, tables, books := MakeTables(counts, l, interval, mcus);
    if ok {
      TablesAgree(l, mcus, interval, codes, tables, books);
      ok, result := RoundTrip(l, mcus, interval, codes, tables, books, fill, marker, tail);
    }
  }
}
