/** A first AC scan is decoded to what was encoded, and optimal tables made from its
  statistics code it. */
module AcFirstScan {
  import opened JpegLimits
  import opened Shifts
  import opened Totals
  import opened EntropySource
  import opened BitStrings
  import opened BitReader
  import opened EventReader
  import opened BitWriter
  import opened BitCodec
  import opened HuffmanMerge
  import opened HuffmanLimit
  import opened HuffmanTables
  import opened HuffmanCost
  import opened CodeEvents
  import opened EventTables
  import opened Zigzag
  import opened PointTransform
  import opened AcRefineRun
  import opened AcRefineModel
  import opened AcRefinePending
  import opened AcRefinePlan
  import opened AcRefineDecoder
  import opened AcRefineEncoder
  import opened Segments
  import HuffEncoder
  import opened HuffScan
  import opened Restarts
  import opened AcRestarts
  import Refine = AcRefineScan
  import opened AcFirstModel
  import opened AcFirstEncoder
  import opened AcFirstDecoder
  import opened Wrappers

  function Events(band: Band, blocks: seq<Block>): CodeEvents.Events
    requires band.Valid()
  {
    FirstBlocks(band, blocks, 0, 0)
  }

  /** No magnitude has more than 10 bits. */
  ghost predicate AllSmall(band: Band, blocks: seq<Block>)
    requires band.Valid()
  {
    forall i | 0 <= i < |blocks| :: Small(band, blocks[i])
  }

  /** What stands for any stretch of the blocks, when it is a segment. */
  function PartOf(band: Band, blocks: seq<Block>): Part
  {
    (a: nat, b: nat) => if a <= b <= |blocks| && band.Valid() then Events(band, blocks[a..b]) else Nil
  }

  /** Everything that stands for a scan with restarts. */
  function ScanEvents(band: Band, blocks: seq<Block>, interval: nat): CodeEvents.Events {
    ScanFrom(PartOf(band, blocks), |blocks|, interval, 0)
  }

  lemma SliceEvents(band: Band, blocks: seq<Block>, interval: nat, start: nat)
    requires band.Valid() && start <= |blocks|
    ensures SegmentAt(PartOf(band, blocks), |blocks|, interval, start) == Events(band, Refine.Slice(blocks, interval, start))
  {
  }

  /** The encoder stands before block `i`. */
  ghost predicate Before(encoder: PhuffEncoder, blocks: seq<Block>, i: nat, aim: Aim)
    reads encoder, encoder.writer, encoder.bitBuffer, encoder.counts
  {
    && FirstReady(encoder)
    && InCount(|blocks|, encoder.restartInterval, |aim.segments|, i, encoder.restartsToGo, encoder.nextRestartNum)
    && Aiming(encoder, PartOf(encoder.band, blocks), |blocks|, aim) && Goes(encoder, blocks, i, aim)
  }

  /** The rest of the current segment leads to its end. */
  ghost predicate Goes(encoder: PhuffEncoder, blocks: seq<Block>, i: nat, aim: Aim)
    requires encoder.Valid()
    reads encoder`eobrun, encoder`be, encoder.writer, encoder.counts
  {
    var start := SegmentStart(encoder.restartInterval, |aim.segments|);
    && start <= |blocks| && start <= i <= SegmentEnd(encoder.restartInterval, |blocks|, start)
    && encoder.Leads(FirstPend(encoder.band, Refine.Slice(blocks, encoder.restartInterval, start), encoder.eobrun, i - start),
                     aim.goal, aim.fine)
  }

  /** The first block of a segment. */
  lemma GoesFirst(encoder: PhuffEncoder, blocks: seq<Block>, aim: Aim)
    requires encoder.Valid() && encoder.eobrun == 0 && Begins(encoder, PartOf(encoder.band, blocks), |blocks|, aim)
    ensures Goes(encoder, blocks, SegmentStart(encoder.restartInterval, |aim.segments|), aim)
  {
    hide EmitAll, AllCodable, PhuffWriter.Valid, PartOf, FirstBlocks, SegmentAt;
    SliceEvents(encoder.band, blocks, encoder.restartInterval, SegmentStart(encoder.restartInterval, |aim.segments|));
  }

  /** Behind the last block of a segment only the run is due. */
  lemma RunIsDue(encoder: PhuffEncoder, blocks: seq<Block>, goal: Sink, fine: bool)
    requires FirstReady(encoder) && encoder.Leads(FirstPend(encoder.band, blocks, encoder.eobrun, |blocks|), goal, fine)
    ensures encoder.Leads(Flush(encoder.eobrun, encoder.bitBuffer[..], encoder.be, Nil), goal, fine)
  {
    hide PhuffWriter.Valid, OneBitEach, FirstPend, Flush, FirstBlocks, PhuffEncoder.Leads;
    FullEnds(encoder.band, blocks, encoder.eobrun, |blocks|);
    NoMoreBlocks(encoder.band, blocks);
    EndedIsFlush(encoder.eobrun, encoder.bitBuffer[..], Nil);
  }

  lemma NoMoreBlocks(band: Band, blocks: seq<Block>)
    requires band.Valid()
    ensures FirstBlocks(band, blocks, |blocks|, 0) == Nil
  {
  }

  /** The restart marker before block `i`. */
  method Restart(encoder: PhuffEncoder, ghost blocks: seq<Block>, ghost i: nat, ghost aim: Aim) returns (ok: bool, ghost next: Aim)
    requires Before(encoder, blocks, i, aim) && i < |blocks| && encoder.restartInterval != 0 && encoder.restartsToGo == 0
    modifies encoder`eobrun, encoder`be, encoder.counts, encoder.writer
    ensures if ok
            then && FirstReady(encoder) && |next.segments| == |aim.segments| + 1 && next.all == aim.all && next.final == aim.final
                 && i == SegmentStart(encoder.restartInterval, |next.segments|)
                 && Aiming(encoder, PartOf(encoder.band, blocks), |blocks|, next) && Goes(encoder, blocks, i, next)
            else !aim.all
  {
    hide PhuffEncoder.Leads, FirstPend, Flush, PhuffWriter.Valid, OneBitEach, EmitAll, AllCodable, PartOf, SegmentAt, Aiming;
    ghost var start := SegmentStart(encoder.restartInterval, |aim.segments|);
    DueThen(|blocks|, encoder.restartInterval, |aim.segments|, i, encoder.restartsToGo, encoder.nextRestartNum);
    RunIsDue(encoder, Refine.Slice(blocks, encoder.restartInterval, start), aim.goal, aim.fine);
    ok, next := EmitRestart(encoder, PartOf(encoder.band, blocks), |blocks|, i, aim);
    if ok { GoesFirst(encoder, blocks, next); }
  }

  /** The block itself. */
  method EncodeHere(encoder: PhuffEncoder, block: array<int>, ghost blocks: seq<Block>, ghost i: nat, ghost aim: Aim)
    returns (ok: bool)
    requires FirstReady(encoder) && Goes(encoder, blocks, i, aim) && i < |blocks| && block.Length == 64 && block[..] == blocks[i]
    requires i < SegmentEnd(encoder.restartInterval, |blocks|, SegmentStart(encoder.restartInterval, |aim.segments|))
    requires block as object != encoder.counts as object
    modifies encoder`eobrun, encoder`be, encoder.counts
    modifies encoder.writer`putBuffer, encoder.writer`putBits, encoder.writer`output, encoder.writer`data, encoder.writer`written
    ensures if ok then FirstReady(encoder) && Small(encoder.band, blocks[i]) && Goes(encoder, blocks, i + 1, aim)
            else !aim.fine || !Small(encoder.band, blocks[i])
  {
    hide PhuffEncoder.Leads, FirstPend, PhuffWriter.Valid, OneBitEach, Small;
    ghost var start := SegmentStart(encoder.restartInterval, |aim.segments|);
    ghost var slice := Refine.Slice(blocks, encoder.restartInterval, start);
    assert slice[i - start] == blocks[i];
    ok := EncodeMcu(encoder, block, slice, i - start, aim.goal, aim.fine);
  }

  /** `encode_mcu_AC_first`, with the restart marker before the block if one is due. */
  method EncodeNext(encoder: PhuffEncoder, block: array<int>, ghost blocks: seq<Block>, ghost i: nat, ghost aim: Aim)
    returns (ok: bool, ghost next: Aim)
    requires Before(encoder, blocks, i, aim) && i < |blocks| && block.Length == 64 && block[..] == blocks[i]
    requires block as object != encoder.counts as object
    modifies encoder, encoder.counts, encoder.writer
    ensures if ok
            then && Before(encoder, blocks, i + 1, next) && next.all == aim.all && next.final == aim.final
                 && Small(encoder.band, blocks[i])
            else !aim.all || !Small(encoder.band, blocks[i])
  {
    hide PhuffEncoder.Leads, FirstPend, PhuffWriter.Valid, OneBitEach, Aiming, Goes, PartOf, Small;
    ok, next := true, aim;
    DueThen(|blocks|, encoder.restartInterval, |aim.segments|, i, encoder.restartsToGo, encoder.nextRestartNum);
    if encoder.restartInterval != 0 && encoder.restartsToGo == 0 {
      ok, next := Restart(encoder, blocks, i, aim);
      if !ok { return; }
    }
    AimingWithin(encoder, PartOf(encoder.band, blocks), |blocks|, next);
    ok := EncodeHere(encoder, block, blocks, i, next);
    if !ok { return; }
    encoder.CountMcu();
  }

  /** The encoder before the first block. */
  lemma BeforeFirst(encoder: PhuffEncoder, blocks: seq<Block>)
    requires FirstReady(encoder) && encoder.eobrun == 0 && encoder.writer.written == [] && encoder.writer.earlier == []
    requires encoder.restartsToGo == encoder.restartInterval && encoder.nextRestartNum == 0
    ensures Before(encoder, blocks, 0, FirstAim(encoder, PartOf(encoder.band, blocks), |blocks|))
  {
    hide EmitAll, AllCodable, PhuffWriter.Valid, PartOf, SegmentAt, Goes, Spell, ScanFrom, OneBitEach, Aiming, FirstAim;
    FirstAimIs(encoder, PartOf(encoder.band, blocks), |blocks|);
    GoesFirst(encoder, blocks, FirstAim(encoder, PartOf(encoder.band, blocks), |blocks|));
  }

  lemma BandThere(encoder: PhuffEncoder, blocks: seq<Block>, i: nat, aim: Aim)
    requires Before(encoder, blocks, i, aim)
    ensures encoder.band.Valid()
  {
  }

  method EncodeBlocks(encoder: PhuffEncoder, blocks: seq<Block>, ghost aim: Aim) returns (ok: bool, ghost next: Aim)
    requires Before(encoder, blocks, 0, aim)
    modifies encoder, encoder.counts, encoder.writer
    ensures if ok
            then && Before(encoder, blocks, |blocks|, next) && next.all == aim.all && next.final == aim.final
                 && encoder.band.Valid() && AllSmall(encoder.band, blocks)
            else !aim.all || (encoder.band.Valid() && !AllSmall(encoder.band, blocks))
  {
    hide Before, Small, ScanFrom, EmitAll;
    BandThere(encoder, blocks, 0, aim);
    ok, next := true, aim;
    for i := 0 to |blocks|
      invariant Before(encoder, blocks, i, next) && next.all == aim.all && next.final == aim.final
      invariant forall j | 0 <= j < i :: Small(encoder.band, blocks[j])
    {
      var block := Refine.BlockArray(blocks[i]);
      ok, next := EncodeNext(encoder, block, blocks, i, next);
      if !ok { return; }
    }
  }

  /** Behind the last block. */
  method FinishPass(encoder: PhuffEncoder, ghost blocks: seq<Block>, ghost aim: Aim) returns (ok: bool, ghost segments: seq<seq<byte>>)
    requires Before(encoder, blocks, |blocks|, aim)
    modifies encoder`eobrun, encoder`be, encoder.counts, encoder.writer
    ensures ok <==> aim.all
    ensures ok && encoder.gather ==> Counts(encoder.counts[..]) == aim.final
    ensures ok && !encoder.gather ==>
              && Divided(|blocks|, encoder.restartInterval, |segments|) && encoder.writer.output == HuffEncoder.Scan(segments)
              && AllHold(PartOf(encoder.band, blocks), |blocks|, encoder.restartInterval, [encoder.book], segments)
  {
    hide PhuffEncoder.Leads, FirstPend, Flush, PhuffWriter.Valid, OneBitEach, PartOf, Aiming, AllHold, HuffEncoder.Scan;
    ghost var start := SegmentStart(encoder.restartInterval, |aim.segments|);
    AtLast(|blocks|, encoder.restartInterval, |aim.segments|, encoder.restartsToGo, encoder.nextRestartNum);
    RunIsDue(encoder, Refine.Slice(blocks, encoder.restartInterval, start), aim.goal, aim.fine);
    ok, segments := FinishScan(encoder, PartOf(encoder.band, blocks), |blocks|, aim);
  }

  /** A pass that writes: it succeeds if and only if every symbol has a code and every
      coefficient is in range, and then each segment holds the bits of its events. */
  method EncodeScan(band: Band, blocks: seq<Block>, interval: nat, codes: EncoderTable, ghost book: Book)
    returns (ok: bool, bytes: seq<byte>, ghost segments: seq<seq<byte>>)
    requires band.Valid() && book.Valid() && book.codes == codes
    ensures ok <==> AllCodable([book], ScanEvents(band, blocks, interval)) && AllSmall(band, blocks)
    ensures ok ==> Divided(|blocks|, interval, |segments|) && bytes == HuffEncoder.Scan(segments)
                   && AllHold(PartOf(band, blocks), |blocks|, interval, [book], segments)
  {
    hide PhuffWriter.Valid, OneBitEach, AllCodable, Spell, EmitAll, PartOf, SegmentAt, ScanFrom, Book.Valid, Before, Divided, AllHold,
         HuffEncoder.Scan, AllSmall;
    var encoder := new PhuffEncoder(false, codes, band, interval, book);
    Refine.NothingBuffered(encoder.bitBuffer[..]);
    BeforeFirst(encoder, blocks);
    ghost var aim := FirstAim(encoder, PartOf(band, blocks), |blocks|);
    bytes, segments := [], [];
    ok, aim := EncodeBlocks(encoder, blocks, aim);
    if !ok { return; }
    ok, segments := FinishPass(encoder, blocks, aim);
    bytes := encoder.writer.output;
  }

  /** A pass that gathers statistics. */
  method GatherScan(band: Band, blocks: seq<Block>, interval: nat) returns (ok: bool, counts: array<nat>)
    requires band.Valid()
    ensures fresh(counts) && counts.Length == 257 && (ok <==> AllSmall(band, blocks))
    ensures ok ==> counts[..] == StatisticsOf(ScanEvents(band, blocks, interval))
  {
    hide PhuffWriter.Valid, OneBitEach, AllCodable, Spell, EmitAll, PartOf, SegmentAt, ScanFrom, Before, Divided, AllHold, AllSmall;
    var none := EncoderTable([], []);
    var encoder := new PhuffEncoder(true, none, band, interval, Book([], [], none));
    Refine.NothingBuffered(encoder.bitBuffer[..]);
    BeforeFirst(encoder, blocks);
    ghost var aim := FirstAim(encoder, PartOf(band, blocks), |blocks|);
    CountsWithoutBooks([encoder.book], encoder.counts[..], ScanEvents(band, blocks, interval));
    counts := encoder.counts;
    ok, aim := EncodeBlocks(encoder, blocks, aim);
    if !ok { return; }
    ghost var segments;
    ok, segments := FinishPass(encoder, blocks, aim);
  }

  // ------------------------------------------------------------------- decoding

  /** Nothing of the band has been decoded yet. */
  ghost predicate Unknown(band: Band, base: Block) {
    forall j | band.ss <= j <= band.se :: j < 64 && base[Natural(j)] == 0
  }

  lemma UnknownAssigned(band: Band, b: Block, base: Block)
    requires Unknown(band, base)
    ensures Assigned(band, b, base, base, band.ss)
  {
  }

  /** The decoder stands before block `i`, in segment `s`. */
  ghost predicate DecodesFrom(x: Stretch, decoder: PhuffDecoder, blocks: seq<Block>, i: nat, s: nat, pos: nat)
    reads decoder, decoder.reader
  {
    && decoder.Ready() && x.part == PartOf(decoder.band, blocks) && x.n == |blocks| && x.interval == decoder.restartInterval
    && |x.books| == 1 && decoder.table.bits == x.books[0].bits && decoder.table.huffval == x.books[0].huffval
    && Stands(x, decoder.reader, i, s, pos, decoder.restartsToGo, decoder.nextRestartNum)
    && Faces(x, decoder, blocks, i, s)
  }

  /** The rest of the segment stands ahead. */
  ghost predicate Faces(x: Stretch, decoder: PhuffDecoder, blocks: seq<Block>, i: nat, s: nat)
    requires decoder.band.Valid()
    reads decoder`eobrun, decoder.reader`stream, decoder.reader`savedAt
  {
    var start := SegmentStart(x.interval, s);
    && start <= |blocks| && start <= i <= SegmentEnd(x.interval, |blocks|, start)
    && var slice := Refine.Slice(blocks, x.interval, start);
       && EmptyBlocks(decoder.band, slice, i - start, decoder.eobrun)
       && FacingSaved(decoder, x.books, FirstBlocks(decoder.band, slice, i - start, decoder.eobrun))
  }

  lemma NothingEmpty(band: Band, blocks: seq<Block>)
    requires band.Valid()
    ensures EmptyBlocks(band, blocks, 0, 0)
  {
  }

  /** At the start of a segment. */
  lemma FacesFirst(x: Stretch, decoder: PhuffDecoder, blocks: seq<Block>, s: nat, pos: nat)
    requires decoder.band.Valid() && x.part == PartOf(decoder.band, blocks) && x.n == |blocks|
    requires x.Valid() && Chain(x.input, x.segments, s, pos, x.marker)
    requires decoder.reader.stream == Coming(x.input, pos) && decoder.reader.savedAt == 0 && decoder.eobrun == 0
    ensures SegmentStart(x.interval, s) <= |blocks| && Faces(x, decoder, blocks, SegmentStart(x.interval, s), s)
  {
    hide Ahead, AllCodable, FirstBlocks, Chain, PartOf, SegmentAt, Coming, EmptyBlocks;
    EventsStand(x, s, pos);
    SliceEvents(decoder.band, blocks, x.interval, SegmentStart(x.interval, s));
    NothingEmpty(decoder.band, Refine.Slice(blocks, x.interval, SegmentStart(x.interval, s)));
  }

  /** The restart marker before block `i`. */
  method StartSegment(decoder: PhuffDecoder, ghost x: Stretch, ghost blocks: seq<Block>, ghost i: nat, ghost s: nat, ghost pos: nat)
    returns (ghost next: nat)
    requires DecodesFrom(x, decoder, blocks, i, s, pos) && i < |blocks|
    requires decoder.restartInterval != 0 && decoder.restartsToGo == 0
    modifies decoder, decoder.reader
    ensures DecodesFrom(x, decoder, blocks, i, s + 1, next) && decoder.restartsToGo == decoder.restartInterval
  {
    hide Stands, PartOf, Faces, DecoderTable.Valid, Coming, Chain, Stretch.Valid, Reader.Saved;
    next := ReadRestart(decoder, x, i, s, pos);
    FacesFirst(x, decoder, blocks, s + 1, next);
  }

  /** The block itself. */
  method DecodeHere(decoder: PhuffDecoder, base: Block, ghost x: Stretch, ghost blocks: seq<Block>, ghost i: nat, ghost s: nat)
    returns (result: Block)
    requires decoder.Ready() && decoder.reader.Settled() && !decoder.reader.insufficientData && i < |blocks|
    requires |x.books| == 1 && decoder.table.bits == x.books[0].bits && decoder.table.huffval == x.books[0].huffval
    requires SegmentStart(x.interval, s) <= |blocks| && i < SegmentEnd(x.interval, |blocks|, SegmentStart(x.interval, s))
    requires Faces(x, decoder, blocks, i, s) && Unknown(decoder.band, base) && Small(decoder.band, blocks[i])
    modifies decoder`eobrun
    modifies decoder.reader`pos, decoder.reader`unreadMarker, decoder.reader`getBuffer, decoder.reader`bitsLeft
    modifies decoder.reader`insufficientData, decoder.reader`spent, decoder.reader`at, decoder.reader`savedPos
    modifies decoder.reader`savedBuffer, decoder.reader`savedLeft, decoder.reader`savedAt, decoder.reader`savedSpent
    ensures decoder.Ready() && decoder.reader.Settled() && !decoder.reader.insufficientData
    ensures Faces(x, decoder, blocks, i + 1, s) && Refined(decoder.band, blocks[i], base, result, decoder.band.se + 1)
  {
    hide FacingSaved, FirstBlocks, Refined, Reader.Saved, Reader.Settled, EmptyBlocks, Unknown, Small, Assigned;
    ghost var start := SegmentStart(x.interval, s);
    ghost var slice := Refine.Slice(blocks, x.interval, start);
    assert slice[i - start] == blocks[i];
    var block := Refine.BlockArray(base);
    UnknownAssigned(decoder.band, blocks[i], base);
    var ok := DecodeFirstMcu(decoder, block, slice, i - start, base, x.books);
    result := block[..];
    AssignedAll(decoder.band, blocks[i], base, result);
  }

  /** One block, behind a restart marker if one is due. */
  method DecodeOne(decoder: PhuffDecoder, base: Block, ghost x: Stretch, ghost blocks: seq<Block>, ghost i: nat, ghost s: nat,
                   ghost pos: nat)
    returns (result: Block, ghost s': nat, ghost pos': nat)
    requires DecodesFrom(x, decoder, blocks, i, s, pos) && i < |blocks|
    requires Unknown(decoder.band, base) && Small(decoder.band, blocks[i])
    modifies decoder, decoder.reader
    ensures DecodesFrom(x, decoder, blocks, i + 1, s', pos') && Refined(decoder.band, blocks[i], base, result, decoder.band.se + 1)
  {
    hide Refined, Unknown, Small, Reader.Saved, Reader.Settled, Stretch.Valid, PartOf, Chain, Ending, Coming, Faces,
         DecoderTable.Valid;
    s', pos' := s, pos;
    if decoder.restartInterval != 0 && decoder.restartsToGo == 0 {
      pos' := StartSegment(decoder, x, blocks, i, s, pos);
      s' := s + 1;
    }
    DueThen(|blocks|, x.interval, s', i, decoder.restartsToGo, decoder.nextRestartNum);
    result := DecodeHere(decoder, base, x, blocks, i, s');
    decoder.CountMcu();
  }

  ghost predicate AllUnknown(band: Band, n: nat, bases: seq<Block>) {
    |bases| == n && forall i | 0 <= i < n :: Unknown(band, bases[i])
  }

  method DecodeScan(band: Band, table: DecoderTable, interval: nat, input: seq<byte>, bases: seq<Block>,
                    ghost x: Stretch, ghost blocks: seq<Block>)
    returns (result: seq<Block>)
    requires band.Valid() && table.Valid() && AllUnknown(band, |blocks|, bases) && AllSmall(band, blocks)
    requires x.Valid() && x.part == PartOf(band, blocks) && x.n == |blocks| && x.interval == interval && x.input == input
    requires |x.books| == 1 && table.bits == x.books[0].bits && table.huffval == x.books[0].huffval
    requires Chain(input, x.segments, 0, 0, x.marker)
    ensures |result| == |blocks|
    ensures forall i | 0 <= i < |blocks| :: Refined(band, blocks[i], bases[i], result[i], band.se + 1)
  {
    hide Unknown, Small, DecoderTable.Valid, DecodesFrom, Refined, Stretch.Valid, PartOf, Chain, Reader.Saved, Coming, Ending;
    var reader := new Reader(input, |input|);
    var decoder := new PhuffDecoder(reader, table, band, interval);
    ghost var s, pos := 0, 0;
    FirstStands(x, decoder, blocks);
    result := [];
    for i := 0 to |bases|
      invariant DecodesFrom(x, decoder, blocks, i, s, pos) && fresh(decoder) && fresh(decoder.reader) && |result| == i
      invariant forall j | 0 <= j < i :: Refined(band, blocks[j], bases[j], result[j], band.se + 1)
    {
      var block;
      block, s, pos := DecodeOne(decoder, bases[i], x, blocks, i, s, pos);
      result := result + [block];
    }
  }

  lemma FirstStands(x: Stretch, decoder: PhuffDecoder, blocks: seq<Block>)
    requires decoder.Ready() && x.Valid() && x.part == PartOf(decoder.band, blocks) && x.n == |blocks|
    requires x.interval == decoder.restartInterval && decoder.reader.input == x.input && decoder.reader.available == |x.input|
    requires |x.books| == 1 && decoder.table.bits == x.books[0].bits && decoder.table.huffval == x.books[0].huffval
    requires Chain(x.input, x.segments, 0, 0, x.marker) && decoder.eobrun == 0
    requires decoder.restartsToGo == x.interval && decoder.nextRestartNum == 0
    requires decoder.reader.stream == Coming(x.input, 0) && decoder.reader.savedAt == 0 && decoder.reader.savedPos == 0
    requires decoder.reader.ending == Ending(x.input, 0) && !decoder.reader.insufficientData
    ensures DecodesFrom(x, decoder, blocks, 0, 0, 0)
  {
    hide Reader.Saved, DecoderTable.Valid, PartOf, Faces, Coming, Holds, AllHold, AllCodable, ScanFrom, Ending;
    FacesFirst(x, decoder, blocks, 0, 0);
  }

  /** With any table that has a code for every symbol, and for every restart interval: what is
      decoded are the coefficients of the band after the point transform; all other
      coefficients stay as they were. */
  method RoundTrip(band: Band, blocks: seq<Block>, bases: seq<Block>, interval: nat, codes: EncoderTable, table: DecoderTable,
                   ghost book: Book, fill: nat, marker: byte, tail: seq<byte>)
    returns (ok: bool, result: seq<Block>)
    requires band.Valid() && AllUnknown(band, |blocks|, bases) && marker != 0 && marker != 0xFF
    requires book.Valid() && book.codes == codes && table.Valid() && table.bits == book.bits && table.huffval == book.huffval
    ensures ok <==> AllCodable([book], ScanEvents(band, blocks, interval)) && AllSmall(band, blocks)
    ensures ok ==> |result| == |blocks|
                   && forall i | 0 <= i < |blocks| :: Refined(band, blocks[i], bases[i], result[i], band.se + 1)
  {
    hide AllCodable, PartOf, AllUnknown, AllSmall, DecoderTable.Valid, Book.Valid, Chain, HuffEncoder.Scan, HuffEncoder.Restarted,
         ScanFrom, AllHold, MarkerBytes;
    var bytes;
    ghost var segments;
    ok, bytes, segments := EncodeScan(band, blocks, interval, codes, book);
    result := [];
    if ok {
      var input := bytes + MarkerBytes(fill, marker) + tail;
      ScanChain(segments, fill, marker, tail, 0);
      NothingRestarted(segments);
      ghost var x := Stretch(PartOf(band, blocks), |blocks|, interval, [book], input, segments, marker);
      result := DecodeScan(band, table, interval, input, bases, x, blocks);
    }
  }

  // ------------------------------------------------------ with optimal tables

  lemma {:induction false} BlocksShaped(band: Band, blocks: seq<Block>, i: nat, e: nat)
    requires band.Valid() && i <= |blocks| && AllSmall(band, blocks)
    ensures Shaped(FirstBlocks(band, blocks, i, e), 10)
    decreases |blocks| - i, 66
  {
    hide AllSmall, Shaped, FirstPlan;
    if i == |blocks| {
      NothingShaped();
    } else if e > 0 {
      BlocksShaped(band, blocks, i + 1, e - 1);
    } else {
      PlanShaped(band, blocks, i, band.ss);
    }
  }

  lemma NothingShaped()
    ensures Shaped(Nil, 10)
  {
  }

  lemma {:induction false} PlanShaped(band: Band, blocks: seq<Block>, i: nat, k: nat)
    requires band.Valid() && i < |blocks| && band.ss <= k <= 64 && AllSmall(band, blocks)
    ensures Shaped(FirstPlan(band, blocks, i, k), 10)
    decreases |blocks| - i, 65 - k
  {
    hide AllSmall, Shaped, FirstPlan, FirstBlocks, FirstNonzero, EmptyRun, Size, Natural, Shl, Log2, BitLength, SignedBits, Small,
         RunBits, HeadMeans;
    if k > band.se {
      FirstPlanEnds(band, blocks, i, k);
      BlocksShaped(band, blocks, i + 1, 0);
    } else {
      SmallHere(band, blocks, i);
      var t := FirstNonzero(band, blocks[i], k);
      if t > band.se {
        var run := 1 + EmptyRun(band, blocks, 1, i + 1);
        var r := HeadIsEob(band, blocks, i, k);
        BlocksShaped(band, blocks, i + 1, run - 1);
        EobShaped(run, r, FirstBlocks(band, blocks, i + 1, run - 1));
      } else if t - k > 15 {
        FirstPlanIsZeros(band, blocks, i, k, t);
        PlanShaped(band, blocks, i, k + 16);
        ZerosShaped(FirstPlan(band, blocks, i, k + 16));
      } else {
        var n := HeadIsCoef(band, blocks, i, k, t);
        PlanShaped(band, blocks, i, t + 1);
        CoefShaped(t - k, n, blocks[i][Natural(t)] < 0, Size(band, blocks[i], t), FirstPlan(band, blocks, i, t + 1));
      }
    }
  }

  lemma SmallHere(band: Band, blocks: seq<Block>, i: nat)
    requires band.Valid() && i < |blocks| && AllSmall(band, blocks)
    ensures Small(band, blocks[i])
  {
  }

  lemma EobShaped(run: nat, r: nat, rest: CodeEvents.Events)
    requires r <= 14 && Shl(1, r) <= run < Shl(1, r + 1) && Shaped(rest, 10)
    ensures Shaped(Cons(Symbol(0, (16 * r) as byte), RunBits(run, r, rest)), 10)
  {
    EobParts(r);
  }

  lemma ZerosShaped(rest: CodeEvents.Events)
    requires Shaped(rest, 10)
    ensures Shaped(Cons(Symbol(0, 0xF0), rest), 10)
  {
  }

  lemma CoefShaped(zeros: nat, n: nat, negative: bool, v: nat, rest: CodeEvents.Events)
    requires zeros <= 15 && 1 <= n <= 10 && v > 0 && n == BitLength(v) && Shaped(rest, 10)
    ensures Shaped(Cons(Symbol(0, (16 * zeros + n) as byte), Cons(Raw(SignedBits(negative, v, n), n), rest)), 10)
  {
    hide Shl, Log2;
    SymbolParts(zeros, n);
  }

  /** At least one symbol occurs when there is a block. */
  lemma SomethingOccurs(band: Band, blocks: seq<Block>) returns (s: byte)
    requires band.Valid() && |blocks| > 0 && AllSmall(band, blocks)
    ensures Occurs(s, Events(band, blocks))
  {
    hide FirstPlan, FirstNonzero, EmptyRun, Size, HeadMeans, AllSmall, Small;
    SmallHere(band, blocks, 0);
    var rest;
    s, rest := FirstHead(band, blocks, 0, band.ss);
  }

  /** Statistics gathered in one pass, optimal tables made from them, and the scan written
      with those and read back: this fails exactly when a coefficient is out of range or
      Huffman's algorithm gives a code of more than 32 bits, never because of a symbol without a code. */
  method OptimizedRoundTrip(band: Band, blocks: seq<Block>, bases: seq<Block>, interval: nat, fill: nat, marker: byte,
                            tail: seq<byte>)
    returns (ok: bool, result: seq<Block>)
    requires band.Valid() && AllUnknown(band, |blocks|, bases) && |blocks| > 0 && marker != 0 && marker != 0xFF
    requires Total(StatisticsOf(ScanEvents(band, blocks, interval))[256 := 1]) <= MAX_COUNT
    ensures ok <==> AllSmall(band, blocks) && !TooLong(StatisticsOf(ScanEvents(band, blocks, interval)))
    ensures ok ==> |result| == |blocks|
                   && forall i | 0 <= i < |blocks| :: Refined(band, blocks[i], bases[i], result[i], band.se + 1)
  {
    hide AllCodable, PartOf, ScanFrom, AllUnknown, AllSmall, DecoderTable.Valid, EmitAll, Occurs, TooLong, Live, Total, Shaped,
         Refined;
    var counts;
    ok, counts := GatherScan(band, blocks, interval);
    result := [];
    if !ok { return; }
    ScanIsShaped(band, blocks, interval);
    ghost var some := ScanOccurs(band, blocks, interval);
    ghost var book;
    var tables;
    tables, book := TablesFor(counts, false, ScanEvents(band, blocks, interval), 10, some);
    ok := tables.Some?;
    if ok {
      var (codes, table) := tables.value;
      ok, result := RoundTrip(band, blocks, bases, interval, codes, table, book, fill, marker, tail);
    }
  }

  lemma AllShaped(band: Band, blocks: seq<Block>)
    requires band.Valid() && AllSmall(band, blocks)
    ensures Shaped(Events(band, blocks), 10)
  {
    BlocksShaped(band, blocks, 0, 0);
  }

  lemma ScanIsShaped(band: Band, blocks: seq<Block>, interval: nat)
    requires band.Valid() && AllSmall(band, blocks)
    ensures Shaped(ScanEvents(band, blocks, interval), 10)
  {
    hide Shaped, ScanFrom, Events, Small;
    var part := PartOf(band, blocks);
    forall a: nat, b: nat | a <= b <= |blocks| ensures Shaped(part(a, b), 10) { AllShaped(band, blocks[a..b]); }
    ScanShaped(part, |blocks|, interval, 0, 10);
  }

  lemma ScanOccurs(band: Band, blocks: seq<Block>, interval: nat) returns (s: byte)
    requires band.Valid() && |blocks| > 0 && AllSmall(band, blocks)
    ensures Occurs(s, ScanEvents(band, blocks, interval))
  {
    hide Occurs, ScanFrom, Events, PartOf, SegmentAt, Small;
    s := SomethingOccurs(band, Refine.Slice(blocks, interval, 0));
    SliceEvents(band, blocks, interval, 0);
    FirstOccurs(PartOf(band, blocks), |blocks|, interval, s);
  }
}
