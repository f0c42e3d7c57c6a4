/** An AC refinement scan is decoded to what was encoded, with any tables that code its
  symbols, and in particular with the optimal ones made from its statistics. */
module AcRefineScan {
  import opened Shifts
  import opened Totals
  import opened EntropySource
  import opened BitStrings
  import opened JpegLimits
  import opened BitReader
  import opened EventReader
  import opened Segments
  import HuffEncoder
  import opened HuffScan
  import opened Restarts
  import opened AcRestarts
  import opened BitWriter
  import opened BitCodec
  import opened HuffmanCost
  import opened HuffmanMerge
  import opened HuffmanLimit
  import opened HuffmanTables
  import opened CanonicalCodes
  import opened CodeEvents
  import opened OptimalTables
  import opened EventTables
  import opened Zigzag
  import opened PointTransform
  import opened AcRefineRun
  import opened AcRefineModel
  import opened AcRefinePending
  import opened AcRefinePlan
  import opened AcRefineDecoder
  import opened AcRefineEncoder
  import opened Wrappers

  /** Everything that stands for the blocks of a segment. */
  function Events(band: Band, blocks: seq<Block>): CodeEvents.Events
    requires band.Valid()
  {
    Blocks(band, blocks, 0, 0)
  }

  /** What stands for any stretch of the blocks, when it is a segment. */
  function PartOf(band: Band, blocks: seq<Block>): Part
  {
    (a: nat, b: nat) => if a <= b <= |blocks| && band.Valid() then Events(band, blocks[a..b]) else Nil
  }

  /** Everything that stands for a scan with restarts. */
  function ScanEvents(band: Band, blocks: seq<Block>, interval: nat): CodeEvents.Events {
    ScanFrom(PartOf(band, blocks), |blocks|, interval, 0)
  }

  /** The blocks of the segment that begins with block `start`. */
  function Slice(blocks: seq<Block>, interval: nat, start: nat): (slice: seq<Block>)
    requires start <= |blocks|
    ensures |slice| == SegmentEnd(interval, |blocks|, start) - start
  {
    blocks[start..SegmentEnd(interval, |blocks|, start)]
  }

  lemma SliceEvents(band: Band, blocks: seq<Block>, interval: nat, start: nat)
    requires band.Valid() && start <= |blocks|
    ensures SegmentAt(PartOf(band, blocks), |blocks|, interval, start) == Events(band, Slice(blocks, interval, start))
  {
  }

  /** A block as the coefficient controller hands it over. */
  method BlockArray(b: Block) returns (block: array<int>)
    ensures fresh(block) && block.Length == 64 && block[..] == b
  {
    block := new int[64](k requires 0 <= k < 64 => b[k]);
  }

  /** The encoder stands before block `i`. */
  ghost predicate Before(encoder: PhuffEncoder, blocks: seq<Block>, i: nat, aim: Aim)
    reads encoder, encoder.writer, encoder.bitBuffer, encoder.counts
  {
    && encoder.Ready()
    && InCount(|blocks|, encoder.restartInterval, |aim.segments|, i, encoder.restartsToGo, encoder.nextRestartNum)
    && Aiming(encoder, PartOf(encoder.band, blocks), |blocks|, aim) && Goes(encoder, blocks, i, aim)
  }

  /** The rest of the current segment leads to its end. */
  ghost predicate Goes(encoder: PhuffEncoder, blocks: seq<Block>, i: nat, aim: Aim)
    requires encoder.Valid()
    reads encoder`eobrun, encoder`be, encoder.writer, encoder.bitBuffer, encoder.counts
  {
    var start := SegmentStart(encoder.restartInterval, |aim.segments|);
    && start <= |blocks| && start <= i <= SegmentEnd(encoder.restartInterval, |blocks|, start)
    && encoder.Leads(Pend(encoder.band, Slice(blocks, encoder.restartInterval, start), encoder.eobrun, encoder.bitBuffer[..],
                          encoder.be, i - start), aim.goal, aim.fine)
  }

  /** The first block of a segment. */
  lemma GoesFirst(encoder: PhuffEncoder, blocks: seq<Block>, aim: Aim)
    requires encoder.Valid() && encoder.eobrun == encoder.be == 0
    requires SegmentStart(encoder.restartInterval, |aim.segments|) <= |blocks|
    requires var events := SegmentAt(PartOf(encoder.band, blocks), |blocks|, encoder.restartInterval,
                                     SegmentStart(encoder.restartInterval, |aim.segments|));
             && aim.goal == EmitAll([encoder.book], encoder.Out(), events) && (aim.fine <==> encoder.Coded(events))
    ensures Goes(encoder, blocks, SegmentStart(encoder.restartInterval, |aim.segments|), aim)
  {
    hide EmitAll, AllCodable, PhuffWriter.Valid, PartOf, Blocks, SegmentAt;
    SliceEvents(encoder.band, blocks, encoder.restartInterval, SegmentStart(encoder.restartInterval, |aim.segments|));
  }

  /** The restart marker before block `i`. */
  method Restart(encoder: PhuffEncoder, ghost blocks: seq<Block>, ghost i: nat, ghost aim: Aim) returns (ok: bool, ghost next: Aim)
    requires Before(encoder, blocks, i, aim) && i < |blocks| && encoder.restartInterval != 0 && encoder.restartsToGo == 0
    modifies encoder`eobrun, encoder`be, encoder.counts, encoder.writer
    ensures if ok
            then && encoder.Ready() && |next.segments| == |aim.segments| + 1 && next.all == aim.all && next.final == aim.final
                 && i == SegmentStart(encoder.restartInterval, |next.segments|)
                 && Aiming(encoder, PartOf(encoder.band, blocks), |blocks|, next) && Goes(encoder, blocks, i, next)
            else !aim.all
  {
    hide PhuffEncoder.Leads, Pend, Flush, PhuffWriter.Valid, OneBitEach, EmitAll, AllCodable, PartOf, SegmentAt, Aiming;
    ghost var start := SegmentStart(encoder.restartInterval, |aim.segments|);
    DueThen(|blocks|, encoder.restartInterval, |aim.segments|, i, encoder.restartsToGo, encoder.nextRestartNum);
    encoder.RunIsDue(Slice(blocks, encoder.restartInterval, start), aim.goal, aim.fine);
    ok, next := EmitRestart(encoder, PartOf(encoder.band, blocks), |blocks|, i, aim);
    if ok { GoesFirst(encoder, blocks, next); }
  }

  /** The block itself. */
  method EncodeHere(encoder: PhuffEncoder, block: array<int>, ghost blocks: seq<Block>, ghost i: nat, ghost aim: Aim)
    returns (ok: bool)
    requires encoder.Ready() && Goes(encoder, blocks, i, aim) && i < |blocks| && block.Length == 64 && block[..] == blocks[i]
    requires i < SegmentEnd(encoder.restartInterval, |blocks|, SegmentStart(encoder.restartInterval, |aim.segments|))
    requires block as object != encoder.counts as object && block as object != encoder.bitBuffer as object
    modifies encoder`eobrun, encoder`be, encoder.counts, encoder.bitBuffer
    modifies encoder.writer`putBuffer, encoder.writer`putBits, encoder.writer`output, encoder.writer`data, encoder.writer`written
    ensures if ok then encoder.Ready() && Goes(encoder, blocks, i + 1, aim) else !aim.fine
  {
    hide PhuffEncoder.Leads, Pend, PhuffWriter.Valid, OneBitEach;
    ghost var start := SegmentStart(encoder.restartInterval, |aim.segments|);
    ghost var slice := Slice(blocks, encoder.restartInterval, start);
    assert slice[i - start] == blocks[i];
    ok := encoder.EncodeMcu(block, slice, i - start, aim.goal, aim.fine);
  }

  /** `encode_mcu_AC_refine`, with the restart marker before the block if one is due. */
  method EncodeNext(encoder: PhuffEncoder, block: array<int>, ghost blocks: seq<Block>, ghost i: nat, ghost aim: Aim)
    returns (ok: bool, ghost next: Aim)
    requires Before(encoder, blocks, i, aim) && i < |blocks| && block.Length == 64 && block[..] == blocks[i]
    requires block as object != encoder.counts as object && block as object != encoder.bitBuffer as object
    modifies encoder, encoder.counts, encoder.bitBuffer, encoder.writer
    ensures if ok then Before(encoder, blocks, i + 1, next) && next.all == aim.all && next.final == aim.final else !aim.all
  {
    hide PhuffEncoder.Leads, Pend, PhuffWriter.Valid, OneBitEach, Aiming, Goes, PartOf;
    ok, next := true, aim;
    DueThen(|blocks|, encoder.restartInterval, |aim.segments|, i, encoder.restartsToGo, encoder.nextRestartNum);
    if encoder.restartInterval != 0 && encoder.restartsToGo == 0 {
      ok, next := Restart(encoder, blocks, i, aim);
      if !ok { return; }
    }
    AimingWithin(encoder, PartOf(encoder.band, blocks), |blocks|, next);
    ok := EncodeHere(encoder, block, blocks, i, next);
    if !ok {
      return;
    }
    encoder.CountMcu();
  }

  /** The encoder before the first block. */
  lemma BeforeFirst(encoder: PhuffEncoder, blocks: seq<Block>)
    requires encoder.Ready() && encoder.eobrun == encoder.be == 0 && encoder.writer.written == [] && encoder.writer.earlier == []
    requires encoder.restartsToGo == encoder.restartInterval && encoder.nextRestartNum == 0
    ensures Before(encoder, blocks, 0, FirstAim(encoder, PartOf(encoder.band, blocks), |blocks|))
  {
    hide EmitAll, AllCodable, PhuffWriter.Valid, PartOf, SegmentAt, Goes, Spell, ScanFrom, OneBitEach, Aiming, FirstAim;
    FirstAimIs(encoder, PartOf(encoder.band, blocks), |blocks|);
    GoesFirst(encoder, blocks, FirstAim(encoder, PartOf(encoder.band, blocks), |blocks|));
  }

  method EncodeBlocks(encoder: PhuffEncoder, blocks: seq<Block>, ghost aim: Aim) returns (ok: bool, ghost next: Aim)
    requires Before(encoder, blocks, 0, aim)
    modifies encoder, encoder.counts, encoder.bitBuffer, encoder.writer
    ensures if ok then Before(encoder, blocks, |blocks|, next) && next.all == aim.all && next.final == aim.final else !aim.all
  {
    hide Before;
    ok, next := true, aim;
    for i := 0 to |blocks|
      invariant Before(encoder, blocks, i, next) && next.all == aim.all && next.final == aim.final
    {
      var block := BlockArray(blocks[i]);
      ok, next := EncodeNext(encoder, block, blocks, i, next);
      if !ok { return; }
    }
  }

  /** Behind the last block. */
  method FinishPass(encoder: PhuffEncoder, ghost blocks: seq<Block>, ghost aim: Aim) returns (ok: bool, ghost segments: seq<seq<byte>>)
    requires Before(encoder, blocks, |blocks|, aim)
    modifies encoder`eobrun, encoder`be, encoder.counts, encoder.writer
    ensures ok <==> aim.all
    ensures ok && encoder.gather ==> Counts(encoder.counts[..]) == aim.final
    ensures ok && !encoder.gather ==>
              && Divided(|blocks|, encoder.restartInterval, |segments|) && encoder.writer.output == HuffEncoder.Scan(segments)
              && AllHold(PartOf(encoder.band, blocks), |blocks|, encoder.restartInterval, [encoder.book], segments)
  {
    hide PhuffEncoder.Leads, Pend, Flush, PhuffWriter.Valid, OneBitEach, PartOf, Aiming, AllHold, HuffEncoder.Scan;
    ghost var start := SegmentStart(encoder.restartInterval, |aim.segments|);
    AtLast(|blocks|, encoder.restartInterval, |aim.segments|, encoder.restartsToGo, encoder.nextRestartNum);
    encoder.RunIsDue(Slice(blocks, encoder.restartInterval, start), aim.goal, aim.fine);
    ok, segments := FinishScan(encoder, PartOf(encoder.band, blocks), |blocks|, aim);
  }

  /** A pass that writes: it succeeds if and only if every symbol has a code, and then each
      segment holds the bits of its events. */
  method EncodeScan(band: Band, blocks: seq<Block>, interval: nat, codes: EncoderTable, ghost book: Book)
    returns (ok: bool, bytes: seq<byte>, ghost segments: seq<seq<byte>>)
    requires band.Valid() && book.Valid() && book.codes == codes
    ensures ok <==> AllCodable([book], ScanEvents(band, blocks, interval))
    ensures ok ==> Divided(|blocks|, interval, |segments|) && bytes == HuffEncoder.Scan(segments)
                   && AllHold(PartOf(band, blocks), |blocks|, interval, [book], segments)
  {
    hide PhuffWriter.Valid, OneBitEach, AllCodable, Spell, EmitAll, PartOf, SegmentAt, ScanFrom, Book.Valid, Before, Divided, AllHold,
         HuffEncoder.Scan;
    var encoder := new PhuffEncoder(false, codes, band, interval, book);
    NothingBuffered(encoder.bitBuffer[..]);
    BeforeFirst(encoder, blocks);
    ghost var aim := FirstAim(encoder, PartOf(band, blocks), |blocks|);
    bytes, segments := [], [];
    ok, aim := EncodeBlocks(encoder, blocks, aim);
    if !ok { return; }
    ok, segments := FinishPass(encoder, blocks, aim);
    bytes := encoder.writer.output;
  }

  lemma NothingBuffered(bits: seq<nat>)
    requires forall i | 0 <= i < |bits| :: bits[i] == 0
    ensures OneBitEach(bits)
  {
  }

  /** A pass that gathers statistics. */
  method GatherScan(band: Band, blocks: seq<Block>, interval: nat) returns (counts: array<nat>)
    requires band.Valid()
    ensures fresh(counts) && counts.Length == 257 && counts[..] == Statistics(band, blocks, interval)
  {
    hide PhuffWriter.Valid, OneBitEach, AllCodable, Spell, EmitAll, PartOf, SegmentAt, ScanFrom, Before, Divided, AllHold;
    var none := EncoderTable([], []);
    var encoder := new PhuffEncoder(true, none, band, interval, Book([], [], none));
    NothingBuffered(encoder.bitBuffer[..]);
    BeforeFirst(encoder, blocks);
    ghost var aim := FirstAim(encoder, PartOf(band, blocks), |blocks|);
    CountsWithoutBooks([encoder.book], encoder.counts[..], ScanEvents(band, blocks, interval));
    var ok;
    ok, aim := EncodeBlocks(encoder, blocks, aim);
    ghost var segments;
    ok, segments := FinishPass(encoder, blocks, aim);
    counts := encoder.counts;
  }

  // ------------------------------------------------------------------- decoding

  lemma FinishesOnce(src: Source, band: Band, init: State, at: nat, block: seq<int>, e: nat, at': nat, block': seq<int>, e': nat)
    requires Finishes(src, band, init, at, block, e) && Finishes(src, band, init, at', block', e')
    ensures at == at' && block == block' && e == e'
  {
    var limit := if at > at' then at else at';
    assert Run(src, limit, band, init) == Finished(block, e, at);
  }

  /** The decoder does with block `i` what the plan says. */
  lemma BlockDecoded(src: Source, band: Band, books: Books, blocks: seq<Block>, i: nat, base: Block, e: nat, at: nat,
                     behind: nat, block: seq<int>, left: nat)
    requires band.Valid() && i < |blocks| && Known(band, blocks[i], base)
    requires |books| == 1 && src.bits == books[0].bits && src.huffval == books[0].huffval && src.Valid()
    requires RunAhead(band, blocks, i, e)
    requires Ahead(books, src.stream, at, Blocks(band, blocks, i, e)) && AllCodable(books, Blocks(band, blocks, i, e))
    requires Finishes(src, band, Start(band, base, e, at), behind, block, left)
    ensures RunAhead(band, blocks, i + 1, left) && behind <= |src.stream|
    ensures Refined(band, blocks[i], base, block, band.se + 1)
    ensures Ahead(books, src.stream, behind, Blocks(band, blocks, i + 1, left))
    ensures AllCodable(books, Blocks(band, blocks, i + 1, left))
  {
    hide Known, RunAhead, Ahead, AllCodable, Blocks, Finishes, Refined;
    var at', block', e' := DecodesBlock(src, band, books, blocks, i, base, e, at);
    FinishesOnce(src, band, Start(band, base, e, at), behind, block, left, at', block', e');
    AheadBound(books, src.stream, behind, Blocks(band, blocks, i + 1, left));
  }

  ghost predicate AllKnown(band: Band, blocks: seq<Block>, bases: seq<Block>) {
    |bases| == |blocks| && forall i | 0 <= i < |blocks| :: Known(band, blocks[i], bases[i])
  }

  /** The decoder stands before block `i`, in segment `s`. */
  ghost predicate DecodesFrom(x: Stretch, decoder: PhuffDecoder, blocks: seq<Block>, i: nat, s: nat, pos: nat)
    reads decoder, decoder.reader
  {
    && decoder.Ready() && x.part == PartOf(decoder.band, blocks) && x.n == |blocks| && x.interval == decoder.restartInterval
    && |x.books| == 1 && decoder.table.bits == x.books[0].bits && decoder.table.huffval == x.books[0].huffval
    && Stands(x, decoder.reader, i, s, pos, decoder.restartsToGo, decoder.nextRestartNum)
    && Faces(x, decoder, blocks, i, s)
  }

  /** The rest of the segment stands ahead. */
  ghost predicate Faces(x: Stretch, decoder: PhuffDecoder, blocks: seq<Block>, i: nat, s: nat)
    requires decoder.band.Valid()
    reads decoder`eobrun, decoder.reader`stream, decoder.reader`savedAt
  {
    var start := SegmentStart(x.interval, s);
    && start <= |blocks| && start <= i <= SegmentEnd(x.interval, |blocks|, start)
    && var slice := Slice(blocks, x.interval, start);
       && RunAhead(decoder.band, slice, i - start, decoder.eobrun)
       && Ahead(x.books, decoder.reader.stream, decoder.reader.savedAt, Blocks(decoder.band, slice, i - start, decoder.eobrun))
       && AllCodable(x.books, Blocks(decoder.band, slice, i - start, decoder.eobrun))
  }

  lemma RunStart(band: Band, blocks: seq<Block>)
    requires band.Valid()
    ensures RunAhead(band, blocks, 0, 0)
  {
  }

  /** At the start of a segment. */
  lemma FacesFirst(x: Stretch, decoder: PhuffDecoder, blocks: seq<Block>, s: nat, pos: nat)
    requires decoder.band.Valid() && x.part == PartOf(decoder.band, blocks) && x.n == |blocks|
    requires x.Valid() && Chain(x.input, x.segments, s, pos, x.marker)
    requires decoder.reader.stream == Coming(x.input, pos) && decoder.reader.savedAt == 0 && decoder.eobrun == 0
    ensures SegmentStart(x.interval, s) <= |blocks| && Faces(x, decoder, blocks, SegmentStart(x.interval, s), s)
  {
    hide Ahead, AllCodable, Blocks, Chain, PartOf, SegmentAt, Coming, RunAhead;
    EventsStand(x, s, pos);
    SliceEvents(decoder.band, blocks, x.interval, SegmentStart(x.interval, s));
    RunStart(decoder.band, Slice(blocks, x.interval, SegmentStart(x.interval, s)));
  }

  /** The restart marker before block `i`. */
  method StartSegment(decoder: PhuffDecoder, ghost x: Stretch, ghost blocks: seq<Block>, ghost i: nat, ghost s: nat, ghost pos: nat)
    returns (ghost next: nat)
    requires DecodesFrom(x, decoder, blocks, i, s, pos) && i < |blocks|
    requires decoder.restartInterval != 0 && decoder.restartsToGo == 0
    modifies decoder, decoder.reader
    ensures DecodesFrom(x, decoder, blocks, i, s + 1, next) && decoder.restartsToGo == decoder.restartInterval
  {
    hide Stands, PartOf, Faces, DecoderTable.Valid, Coming, Chain, Stretch.Valid, Reader.Saved;
    next := ReadRestart(decoder, x, i, s, pos);
    FacesFirst(x, decoder, blocks, s + 1, next);
  }

  /** The block itself. */
  method DecodeHere(decoder: PhuffDecoder, base: Block, ghost x: Stretch, ghost blocks: seq<Block>, ghost i: nat, ghost s: nat)
    returns (result: Block)
    requires decoder.Ready() && decoder.reader.Settled() && !decoder.reader.insufficientData && i < |blocks|
    requires |x.books| == 1 && decoder.table.bits == x.books[0].bits && decoder.table.huffval == x.books[0].huffval
    requires SegmentStart(x.interval, s) <= |blocks| && i < SegmentEnd(x.interval, |blocks|, SegmentStart(x.interval, s))
    requires Faces(x, decoder, blocks, i, s) && Known(decoder.band, blocks[i], base)
    modifies decoder`eobrun
    modifies decoder.reader`pos, decoder.reader`unreadMarker, decoder.reader`getBuffer, decoder.reader`bitsLeft
    modifies decoder.reader`insufficientData, decoder.reader`spent, decoder.reader`at, decoder.reader`savedPos
    modifies decoder.reader`savedBuffer, decoder.reader`savedLeft, decoder.reader`savedAt, decoder.reader`savedSpent
    ensures decoder.Ready() && decoder.reader.Settled() && !decoder.reader.insufficientData
    ensures Faces(x, decoder, blocks, i + 1, s) && Refined(decoder.band, blocks[i], base, result, decoder.band.se + 1)
  {
    hide Ahead, AllCodable, Blocks, Refined, Known, Reader.Saved, Reader.Settled, Finishes, RunAhead;
    ghost var start := SegmentStart(x.interval, s);
    ghost var slice := Slice(blocks, x.interval, start);
    assert slice[i - start] == blocks[i];
    ghost var src, e, at := decoder.Src(), decoder.eobrun, decoder.reader.savedAt;
    TableSizes(decoder.table);
    var block := BlockArray(base);
    var ok;
    ghost var stop;
    ok, stop := decoder.DecodeMcu(block);
    BlockDecoded(src, decoder.band, x.books, slice, i - start, base, e, at, decoder.reader.savedAt, block[..], decoder.eobrun);
    result := block[..];
  }

  /** One block, behind a restart marker if one is due. */
  method DecodeOne(decoder: PhuffDecoder, base: Block, ghost x: Stretch, ghost blocks: seq<Block>, ghost i: nat, ghost s: nat,
                   ghost pos: nat)
    returns (result: Block, ghost s': nat, ghost pos': nat)
    requires DecodesFrom(x, decoder, blocks, i, s, pos) && i < |blocks| && Known(decoder.band, blocks[i], base)
    modifies decoder, decoder.reader
    ensures DecodesFrom(x, decoder, blocks, i + 1, s', pos') && Refined(decoder.band, blocks[i], base, result, decoder.band.se + 1)
  {
    hide Refined, Known, Reader.Saved, Reader.Settled, Stretch.Valid, PartOf, Chain, Ending, Coming, Faces, DecoderTable.Valid;
    s', pos' := s, pos;
    if decoder.restartInterval != 0 && decoder.restartsToGo == 0 {
      pos' := StartSegment(decoder, x, blocks, i, s, pos);
      s' := s + 1;
    }
    DueThen(|blocks|, x.interval, s', i, decoder.restartsToGo, decoder.nextRestartNum);
    result := DecodeHere(decoder, base, x, blocks, i, s');
    decoder.CountMcu();
  }

  method DecodeScan(band: Band, table: DecoderTable, interval: nat, input: seq<byte>, bases: seq<Block>,
                    ghost x: Stretch, ghost blocks: seq<Block>)
    returns (result: seq<Block>)
    requires band.Valid() && table.Valid() && AllKnown(band, blocks, bases)
    requires x.Valid() && x.part == PartOf(band, blocks) && x.n == |blocks| && x.interval == interval && x.input == input
    requires |x.books| == 1 && table.bits == x.books[0].bits && table.huffval == x.books[0].huffval
    requires Chain(input, x.segments, 0, 0, x.marker)
    ensures |result| == |blocks|
    ensures forall i | 0 <= i < |blocks| :: Refined(band, blocks[i], bases[i], result[i], band.se + 1)
  {
    hide Known, DecoderTable.Valid, DecodesFrom, Refined, Stretch.Valid, PartOf, Chain, Reader.Saved, Coming, Ending;
    var reader := new Reader(input, |input|);
    var decoder := new PhuffDecoder(reader, table, band, interval);
    ghost var s, pos := 0, 0;
    FirstStands(x, decoder, blocks);
    result := [];
    for i := 0 to |bases|
      invariant DecodesFrom(x, decoder, blocks, i, s, pos) && fresh(decoder) && fresh(decoder.reader) && |result| == i
      invariant forall j | 0 <= j < i :: Refined(band, blocks[j], bases[j], result[j], band.se + 1)
    {
      var block;
      block, s, pos := DecodeOne(decoder, bases[i], x, blocks, i, s, pos);
      result := result + [block];
    }
  }

  lemma FirstStands(x: Stretch, decoder: PhuffDecoder, blocks: seq<Block>)
    requires decoder.Ready() && x.Valid() && x.part == PartOf(decoder.band, blocks) && x.n == |blocks|
    requires x.interval == decoder.restartInterval && decoder.reader.input == x.input && decoder.reader.available == |x.input|
    requires |x.books| == 1 && decoder.table.bits == x.books[0].bits && decoder.table.huffval == x.books[0].huffval
    requires Chain(x.input, x.segments, 0, 0, x.marker) && decoder.eobrun == 0
    requires decoder.restartsToGo == x.interval && decoder.nextRestartNum == 0
    requires decoder.reader.stream == Coming(x.input, 0) && decoder.reader.savedAt == 0 && decoder.reader.savedPos == 0
    requires decoder.reader.ending == Ending(x.input, 0) && !decoder.reader.insufficientData
    ensures DecodesFrom(x, decoder, blocks, 0, 0, 0)
  {
    hide Reader.Saved, DecoderTable.Valid, PartOf, Faces, Coming, Holds, AllHold, AllCodable, ScanFrom, Ending;
    FacesFirst(x, decoder, blocks, 0, 0);
  }

  /** With any table that has a code for every symbol, and for every restart interval: the
      decoder, which knows the coefficients of the band but for one bit, ends with that bit
      too, whatever follows the scan; all other coefficients stay as they were. */
  method RoundTrip(band: Band, blocks: seq<Block>, bases: seq<Block>, interval: nat, codes: EncoderTable, table: DecoderTable,
                   ghost book: Book, fill: nat, marker: byte, tail: seq<byte>)
    returns (ok: bool, result: seq<Block>)
    requires band.Valid() && AllKnown(band, blocks, bases) && marker != 0 && marker != 0xFF
    requires book.Valid() && book.codes == codes && table.Valid() && table.bits == book.bits && table.huffval == book.huffval
    ensures ok <==> AllCodable([book], ScanEvents(band, blocks, interval))
    ensures ok ==> |result| == |blocks|
                   && forall i | 0 <= i < |blocks| :: Refined(band, blocks[i], bases[i], result[i], band.se + 1)
  {
    hide AllCodable, PartOf, Known, DecoderTable.Valid, Book.Valid, Chain, HuffEncoder.Scan, HuffEncoder.Restarted, ScanFrom,
         AllHold, MarkerBytes;
    var bytes;
    ghost var segments;
    ok, bytes, segments := EncodeScan(band, blocks, interval, codes, book);
    result := [];
    if ok {
      var input := bytes + MarkerBytes(fill, marker) + tail;
      ScanChain(segments, fill, marker, tail, 0);
      NothingRestarted(segments);
      ghost var x := Stretch(PartOf(band, blocks), |blocks|, interval, [book], input, segments, marker);
      result := DecodeScan(band, table, interval, input, bases, x, blocks);
    }
  }

  // ------------------------------------------------------ with optimal tables

  lemma {:induction false} OldBitsShaped(band: Band, b: Block, from: nat, end: nat, rest: CodeEvents.Events)
    requires end <= 64 && Shaped(rest, 1)
    ensures Shaped(OldBits(band, b, from, end, rest), 1)
    decreases 64 - from
  {
    if from < end {
      OldBitsShaped(band, b, from + 1, end, rest);
      assert Shl(1, 1) == 2;
    }
  }

  lemma EobShaped(run: nat, rest: CodeEvents.Events)
    requires 0 < run <= MAX_EOBRUN && Shaped(rest, 1)
    ensures Shaped(Eob(run, rest), 1)
  {
    Log2Fits(run);
    SymbolHalf(Log2(run), 0);
  }

  lemma SymbolHalf(r: nat, s: nat)
    requires r <= 15 && s <= 1
    ensures (16 * r + s) % 16 == s
  {
  }

  lemma {:induction false} BlocksShaped(band: Band, blocks: seq<Block>, i: nat, e: nat)
    requires band.Valid() && i <= |blocks|
    ensures Shaped(Blocks(band, blocks, i, e), 1)
    decreases |blocks| - i, 66
  {
    if i < |blocks| {
      if e > 0 {
        BlocksShaped(band, blocks, i + 1, e - 1);
        OldBitsShaped(band, blocks[i], band.ss, band.se + 1, Blocks(band, blocks, i + 1, e - 1));
      } else {
        PlanShaped(band, blocks, i, band.ss);
      }
    }
  }

  lemma {:induction false} PlanShaped(band: Band, blocks: seq<Block>, i: nat, k: nat)
    requires band.Valid() && i < |blocks| && k <= 64
    ensures Shaped(Plan(band, blocks, i, k), 1)
    decreases |blocks| - i, 65 - k
  {
    hide Plan, OldBits, Eob, Joins, FirstNew, Zeros, NthZero, Natural, Blocks, Size, OldCount;
    var b := blocks[i];
    if k > band.se {
      PlanEnds(band, blocks, i, k);
      BlocksShaped(band, blocks, i + 1, 0);
    } else {
      var t := FirstNew(band, b, k);
      if t > band.se {
        var n := Joins(band, blocks, 1, OldCount(band, b, k, band.se + 1), i + 1);
        PlanIsEob(band, blocks, i, k);
        BlocksShaped(band, blocks, i + 1, n);
        OldBitsShaped(band, b, k, band.se + 1, Blocks(band, blocks, i + 1, n));
        EobShaped(1 + n, OldBits(band, b, k, band.se + 1, Blocks(band, blocks, i + 1, n)));
      } else if Zeros(band, b, k, t) > 15 {
        var m := NthZero(band, b, k, 15, t);
        PlanIsZeros(band, blocks, i, k);
        PlanShaped(band, blocks, i, m + 1);
        OldBitsShaped(band, b, k, m, Plan(band, blocks, i, m + 1));
      } else {
        PlanIsNew(band, blocks, i, k);
        PlanShaped(band, blocks, i, t + 1);
        OldBitsShaped(band, b, k, t, Plan(band, blocks, i, t + 1));
        SymbolHalf(Zeros(band, b, k, t), 1);
        OneBitFits();
      }
    }
  }

  lemma OneBitFits()
    ensures Shl(1, 1) == 2
  {
  }

  /** At least one symbol occurs when there is a block. */
  lemma SomethingOccurs(band: Band, blocks: seq<Block>) returns (s: byte)
    requires band.Valid() && |blocks| > 0
    ensures Occurs(s, Events(band, blocks))
  {
    hide Plan, OldBits, Joins, FirstNew, Zeros, NthZero, Natural, Size, OldCount;
    var b, k := blocks[0], band.ss;
    var t := FirstNew(band, b, k);
    if t > band.se {
      PlanIsEob(band, blocks, 0, k);
    } else if Zeros(band, b, k, t) > 15 {
      PlanIsZeros(band, blocks, 0, k);
    } else {
      PlanIsNew(band, blocks, 0, k);
    }
    s := Plan(band, blocks, 0, k).head.s;
  }

  lemma EventsShaped(band: Band, blocks: seq<Block>)
    requires band.Valid()
    ensures Shaped(Events(band, blocks), 1)
  {
    BlocksShaped(band, blocks, 0, 0);
  }

  lemma ScanIsShaped(band: Band, blocks: seq<Block>, interval: nat)
    requires band.Valid()
    ensures Shaped(ScanEvents(band, blocks, interval), 1)
  {
    hide Shaped, ScanFrom, Events;
    var part := PartOf(band, blocks);
    forall a: nat, b: nat | a <= b <= |blocks| ensures Shaped(part(a, b), 1) { EventsShaped(band, blocks[a..b]); }
    ScanShaped(part, |blocks|, interval, 0, 1);
  }

  lemma ScanOccurs(band: Band, blocks: seq<Block>, interval: nat) returns (s: byte)
    requires band.Valid() && |blocks| > 0
    ensures Occurs(s, ScanEvents(band, blocks, interval))
  {
    hide Occurs, ScanFrom, Events, PartOf, SegmentAt;
    s := SomethingOccurs(band, Slice(blocks, interval, 0));
    SliceEvents(band, blocks, interval, 0);
    FirstOccurs(PartOf(band, blocks), |blocks|, interval, s);
  }

  /** The statistics of the scan. */
  ghost function Statistics(band: Band, blocks: seq<Block>, interval: nat): Table {
    StatisticsOf(ScanEvents(band, blocks, interval))
  }

  /** Statistics gathered in one pass, optimal tables made from them, and the scan written
      with those and read back: this fails exactly when Huffman's algorithm gives a code of more
      than 32 bits, never because of a symbol without a code. */
  method OptimizedRoundTrip(band: Band, blocks: seq<Block>, bases: seq<Block>, interval: nat, fill: nat, marker: byte,
                            tail: seq<byte>)
    returns (ok: bool, result: seq<Block>)
    requires band.Valid() && AllKnown(band, blocks, bases) && |blocks| > 0 && marker != 0 && marker != 0xFF
    requires Total(Statistics(band, blocks, interval)[256 := 1]) <= MAX_COUNT
    ensures ok <==> !TooLong(Statistics(band, blocks, interval))
    ensures ok ==> |result| == |blocks|
                   && forall i | 0 <= i < |blocks| :: Refined(band, blocks[i], bases[i], result[i], band.se + 1)
  {
    hide AllCodable, PartOf, ScanFrom, Known, DecoderTable.Valid, EmitAll, Occurs, TooLong, Live, Total, Shaped;
    var counts := GatherScan(band, blocks, interval);
    ScanIsShaped(band, blocks, interval);
    ghost var some := ScanOccurs(band, blocks, interval);
    ghost var book;
    var tables;
    tables, book := TablesFor(counts, false, ScanEvents(band, blocks, interval), 1, some);
    ok, result := tables.Some?, [];
    if ok {
      var (codes, table) := tables.value;
      ok, result := RoundTrip(band, blocks, bases, interval, codes, table, book, fill, marker, tail);
    }
  }
}
