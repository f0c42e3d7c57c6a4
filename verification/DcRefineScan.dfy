/** DC refinement scans are decoded to what was encoded. */
module DcRefineScan {
  import opened JpegLimits
  import opened Shifts
  import opened EntropySource
  import opened BitReader
  import opened BitWriter
  import opened HuffmanTables
  import opened CodeEvents
  import opened EventTables
  import opened Segments
  import HuffEncoder
  import opened HuffScan
  import opened Restarts
  import opened DcModel
  import opened DcEncoder
  import opened DcDecoder
  import opened DcRestarts
  import opened DcScan
  import opened Wrappers

  /** One bit for each block of each MCU. */
  function RefineEvents(al: nat, mcus: seq<seq<int>>, i: nat): Events
    requires i <= |mcus|
    decreases |mcus| - i
  {
    if i == |mcus| then Nil else Append(BitPlan(al, mcus[i], 0), RefineEvents(al, mcus, i + 1))
  }

  /** What stands for any stretch of the MCUs, when it is a segment. */
  function BitsOfPart(al: nat, mcus: seq<seq<int>>): Part {
    (a: nat, b: nat) => if a <= b <= |mcus| then RefineEvents(al, mcus[a..b], 0) else Nil
  }

  lemma SliceBits(al: nat, mcus: seq<seq<int>>, interval: nat, start: nat)
    requires start <= |mcus|
    ensures SegmentAt(BitsOfPart(al, mcus), |mcus|, interval, start) == RefineEvents(al, Slice(mcus, interval, start), 0)
  {
    hide RefineEvents;
  }

  lemma {:induction false} BitsCodable(books: Books, al: nat, values: seq<int>, j: nat, rest: Events)
    requires j <= |values| && AllCodable(books, rest)
    ensures AllCodable(books, Append(BitPlan(al, values, j), rest))
    decreases |values| - j
  {
    if j < |values| {
      BitsCodable(books, al, values, j + 1, rest);
      assert Shl(1, 1) == 2;
    }
  }

  lemma {:induction false} RefineCodable(books: Books, al: nat, mcus: seq<seq<int>>, i: nat)
    requires i <= |mcus|
    ensures AllCodable(books, RefineEvents(al, mcus, i))
    decreases |mcus| - i
  {
    if i < |mcus| {
      RefineCodable(books, al, mcus, i + 1);
      BitsCodable(books, al, mcus[i], 0, RefineEvents(al, mcus, i + 1));
    }
  }

  /** Bits need no code. */
  lemma {:induction false} ScanCodable(books: Books, al: nat, mcus: seq<seq<int>>, interval: nat, start: nat)
    requires start <= |mcus|
    ensures AllCodable(books, ScanFrom(BitsOfPart(al, mcus), |mcus|, interval, start))
    decreases |mcus| - start
  {
    hide AllCodable, RefineEvents, Append;
    var end := SegmentEnd(interval, |mcus|, start);
    RefineCodable(books, al, Slice(mcus, interval, start), 0);
    SliceBits(al, mcus, interval, start);
    if end < |mcus| {
      ScanCodable(books, al, mcus, interval, end);
      AppendCodable(books, SegmentAt(BitsOfPart(al, mcus), |mcus|, interval, start), ScanFrom(BitsOfPart(al, mcus), |mcus|, interval, end));
    }
  }

  ghost function NoBooks(): (books: Books)
    ensures |books| == NUM_HUFF_TBLS
  {
    seq(NUM_HUFF_TBLS, _ => Book([], [], EncoderTable([], [])))
  }

  // ------------------------------------------------------------------- encoding

  /** The encoder stands before MCU `i`. */
  ghost predicate Before(encoder: PhuffDcEncoder, mcus: seq<seq<int>>, i: nat, aim: DcAim)
    reads encoder, encoder.writer, encoder.counts
  {
    && encoder.Valid()
    && InCount(|mcus|, encoder.restartInterval, |aim.segments|, i, encoder.restartsToGo, encoder.nextRestartNum)
    && Aiming(encoder, BitsOfPart(encoder.layout.al, mcus), |mcus|, aim) && Goes(encoder, mcus, i, aim)
  }

  /** The rest of the current segment leads to its end. */
  ghost predicate Goes(encoder: PhuffDcEncoder, mcus: seq<seq<int>>, i: nat, aim: DcAim)
    requires encoder.Fixed()
    reads encoder.writer`written, encoder.counts
  {
    var start := SegmentStart(encoder.restartInterval, |aim.segments|);
    && start <= |mcus| && start <= i <= SegmentEnd(encoder.restartInterval, |mcus|, start)
    && encoder.Leads(RefineEvents(encoder.layout.al, Slice(mcus, encoder.restartInterval, start), i - start), aim.goal)
  }

  lemma GoesFirst(encoder: PhuffDcEncoder, mcus: seq<seq<int>>, aim: DcAim)
    requires encoder.Fixed() && Begins(encoder, BitsOfPart(encoder.layout.al, mcus), |mcus|, aim)
    ensures Goes(encoder, mcus, SegmentStart(encoder.restartInterval, |aim.segments|), aim)
  {
    hide BitsOfPart, SegmentAt, PhuffDcEncoder.Leads, RefineEvents, Slice, SegmentEnd;
    SliceBits(encoder.layout.al, mcus, encoder.restartInterval, SegmentStart(encoder.restartInterval, |aim.segments|));
  }

  /** At the end of a segment. */
  lemma SegmentOver(encoder: PhuffDcEncoder, mcus: seq<seq<int>>, i: nat, aim: DcAim)
    requires encoder.Fixed() && Goes(encoder, mcus, i, aim)
    requires i == SegmentEnd(encoder.restartInterval, |mcus|, SegmentStart(encoder.restartInterval, |aim.segments|))
    ensures encoder.Leads(Nil, aim.goal)
  {
    hide PhuffDcEncoder.Leads;
  }

  /** The restart marker before MCU `i`. */
  method Restart(encoder: PhuffDcEncoder, ghost mcus: seq<seq<int>>, ghost i: nat, ghost aim: DcAim) returns (ghost next: DcAim)
    requires Before(encoder, mcus, i, aim) && i < |mcus| && encoder.restartInterval != 0 && encoder.restartsToGo == 0
    modifies encoder.lastDcVal, encoder.writer
    ensures encoder.Valid() && |next.segments| == |aim.segments| + 1
    ensures i == SegmentStart(encoder.restartInterval, |next.segments|)
    ensures Aiming(encoder, BitsOfPart(encoder.layout.al, mcus), |mcus|, next) && Goes(encoder, mcus, i, next)
  {
    hide PhuffDcEncoder.Leads, PhuffWriter.Valid, BitsOfPart, SegmentAt, Aiming, Goes, Begins, PhuffDcEncoder.Fixed;
    DueThen(|mcus|, encoder.restartInterval, |aim.segments|, i, encoder.restartsToGo, encoder.nextRestartNum);
    SegmentOver(encoder, mcus, i, aim);
    next := EmitRestart(encoder, BitsOfPart(encoder.layout.al, mcus), |mcus|, i, aim);
    GoesFirst(encoder, mcus, next);
  }

  /** The MCU itself. */
  method EncodeHere(encoder: PhuffDcEncoder, values: seq<int>, ghost mcus: seq<seq<int>>, ghost i: nat, ghost aim: DcAim)
    requires encoder.Valid() && Goes(encoder, mcus, i, aim) && i < |mcus| && values == mcus[i]
    requires i < SegmentEnd(encoder.restartInterval, |mcus|, SegmentStart(encoder.restartInterval, |aim.segments|))
    modifies encoder.writer`putBuffer, encoder.writer`putBits, encoder.writer`output, encoder.writer`data, encoder.writer`written
    ensures encoder.Valid() && Goes(encoder, mcus, i + 1, aim)
  {
    hide PhuffDcEncoder.Leads, PhuffWriter.Valid, PhuffDcEncoder.Fixed, BitPlan, Append;
    ghost var start := SegmentStart(encoder.restartInterval, |aim.segments|);
    ghost var slice := Slice(mcus, encoder.restartInterval, start);
    assert slice[i - start] == mcus[i];
    encoder.EncodeRefineMcu(values, RefineEvents(encoder.layout.al, slice, i - start + 1), aim.goal);
  }

  /** `encode_mcu_DC_refine`, with the restart marker before the MCU if one is due. */
  method EncodeNext(encoder: PhuffDcEncoder, values: seq<int>, ghost mcus: seq<seq<int>>, ghost i: nat, ghost aim: DcAim)
    returns (ghost next: DcAim)
    requires Before(encoder, mcus, i, aim) && i < |mcus| && values == mcus[i]
    modifies encoder, encoder.lastDcVal, encoder.writer
    ensures Before(encoder, mcus, i + 1, next)
  {
    hide PhuffDcEncoder.Leads, PhuffWriter.Valid, Aiming, Goes, BitsOfPart, PhuffDcEncoder.Fixed;
    next := aim;
    DueThen(|mcus|, encoder.restartInterval, |aim.segments|, i, encoder.restartsToGo, encoder.nextRestartNum);
    if encoder.restartInterval != 0 && encoder.restartsToGo == 0 {
      next := Restart(encoder, mcus, i, aim);
    }
    AimingWithin(encoder, BitsOfPart(encoder.layout.al, mcus), |mcus|, next);
    EncodeHere(encoder, values, mcus, i, next);
    encoder.CountMcu();
  }

  method EncodeRefine(l: Layout, mcus: seq<seq<int>>, interval: nat) returns (bytes: seq<byte>, ghost segments: seq<seq<byte>>)
    requires Laid(l, mcus)
    ensures Divided(|mcus|, interval, |segments|) && bytes == HuffEncoder.Scan(segments)
    ensures AllHold(BitsOfPart(l.al, mcus), |mcus|, interval, NoBooks(), segments)
  {
    hide PhuffWriter.Valid, Aiming, Begins, Goes, BitsOfPart, ScanFrom, AllHold, Divided, HuffEncoder.Scan, PhuffDcEncoder.Leads, EmitAll;
    var encoder := new PhuffDcEncoder(false, true, seq(NUM_HUFF_TBLS, _ => EncoderTable([], [])), l, interval, NoBooks());
    ghost var part := BitsOfPart(l.al, mcus);
    FirstAimIs(encoder, part, |mcus|);
    ghost var aim := FirstAim(encoder, part, |mcus|);
    GoesFirst(encoder, mcus, aim);
    for i := 0 to |mcus|
      invariant Before(encoder, mcus, i, aim) && fresh(encoder.writer) && fresh(encoder.lastDcVal)
    {
      aim := EncodeNext(encoder, mcus[i], mcus, i, aim);
    }
    AtLast(|mcus|, encoder.restartInterval, |aim.segments|, encoder.restartsToGo, encoder.nextRestartNum);
    SegmentOver(encoder, mcus, |mcus|, aim);
    segments := FinishScan(encoder, part, |mcus|, aim);
    bytes := encoder.writer.output;
  }

  // ------------------------------------------------------------------- decoding

  /** The decoder stands before MCU `i`, in segment `s`. */
  ghost predicate DecodesFrom(x: Stretch, decoder: PhuffDcDecoder, mcus: seq<seq<int>>, i: nat, s: nat, pos: nat)
    reads decoder, decoder.reader
  {
    && decoder.Ready() && x.part == BitsOfPart(decoder.layout.al, mcus) && x.n == |mcus| && x.interval == decoder.restartInterval
    && Stands(x, decoder.reader, i, s, pos, decoder.restartsToGo, decoder.nextRestartNum)
    && Faces(x, decoder, mcus, i, s)
  }

  /** The rest of the segment stands ahead. */
  ghost predicate Faces(x: Stretch, decoder: PhuffDcDecoder, mcus: seq<seq<int>>, i: nat, s: nat)
    reads decoder.reader`stream, decoder.reader`savedAt
  {
    var start := SegmentStart(x.interval, s);
    && start <= |mcus| && start <= i <= SegmentEnd(x.interval, |mcus|, start)
    && decoder.FacingSaved(x.books, RefineEvents(decoder.layout.al, Slice(mcus, x.interval, start), i - start))
  }

  /** At the start of a segment. */
  lemma FacesFirst(x: Stretch, decoder: PhuffDcDecoder, mcus: seq<seq<int>>, s: nat, pos: nat)
    requires x.part == BitsOfPart(decoder.layout.al, mcus) && x.n == |mcus|
    requires x.Valid() && Chain(x.input, x.segments, s, pos, x.marker)
    requires decoder.reader.stream == Coming(x.input, pos) && decoder.reader.savedAt == 0
    ensures SegmentStart(x.interval, s) <= |mcus| && Faces(x, decoder, mcus, SegmentStart(x.interval, s), s)
  {
    hide Ahead, AllCodable, RefineEvents, Chain, BitsOfPart, SegmentAt, Coming;
    EventsStand(x, s, pos);
    SliceBits(decoder.layout.al, mcus, x.interval, SegmentStart(x.interval, s));
  }

  /** The restart marker before MCU `i`. */
  method StartSegment(decoder: PhuffDcDecoder, ghost x: Stretch, ghost mcus: seq<seq<int>>, ghost i: nat, ghost s: nat,
                      ghost pos: nat) returns (ghost next: nat)
    requires DecodesFrom(x, decoder, mcus, i, s, pos) && i < |mcus|
    requires decoder.restartInterval != 0 && decoder.restartsToGo == 0
    modifies decoder, decoder.reader
    ensures DecodesFrom(x, decoder, mcus, i, s + 1, next) && decoder.restartsToGo == decoder.restartInterval
  {
    hide Stands, BitsOfPart, Faces, Coming, Chain, Stretch.Valid, Reader.Saved;
    next := ReadRestart(decoder, x, i, s, pos);
    FacesFirst(x, decoder, mcus, s + 1, next);
  }

  lemma KnownBit(l: Layout, mcus: seq<seq<int>>, bases: seq<seq<int>>, i: nat)
    requires Transformed(l.al + 1, mcus, bases) && i < |mcus|
    ensures BitKnown(l, mcus[i], bases[i])
  {
    hide DcPoint;
  }

  /** The MCU itself. */
  method DecodeHere(decoder: PhuffDcDecoder, base: seq<int>, ghost x: Stretch, ghost mcus: seq<seq<int>>, ghost i: nat, ghost s: nat)
    returns (result: seq<int>)
    requires decoder.Ready() && decoder.reader.Settled() && !decoder.reader.insufficientData && i < |mcus|
    requires SegmentStart(x.interval, s) <= |mcus| && i < SegmentEnd(x.interval, |mcus|, SegmentStart(x.interval, s))
    requires Faces(x, decoder, mcus, i, s) && BitKnown(decoder.layout, mcus[i], base)
    modifies decoder.reader`pos, decoder.reader`unreadMarker, decoder.reader`getBuffer, decoder.reader`bitsLeft
    modifies decoder.reader`insufficientData, decoder.reader`spent, decoder.reader`at, decoder.reader`savedPos
    modifies decoder.reader`savedBuffer, decoder.reader`savedLeft, decoder.reader`savedAt, decoder.reader`savedSpent
    ensures decoder.Ready() && decoder.reader.Settled() && !decoder.reader.insufficientData
    ensures Faces(x, decoder, mcus, i + 1, s)
    ensures |result| == |base| && forall k | 0 <= k < |result| :: k < |mcus[i]| && result[k] == DcPoint(mcus[i][k], decoder.layout.al)
  {
    hide Ahead, AllCodable, Reader.Saved, Reader.Settled, DcPoint, BitPlan, Append;
    ghost var start := SegmentStart(x.interval, s);
    ghost var slice := Slice(mcus, x.interval, start);
    assert slice[i - start] == mcus[i];
    var dc := new int[|base|](k requires 0 <= k < |base| => base[k]);
    assert dc[..] == base;
    var ok := decoder.DecodeRefineMcu(dc, mcus[i], x.books, RefineEvents(decoder.layout.al, slice, i - start + 1));
    result := dc[..];
  }

  /** One MCU, behind a restart marker if one is due. */
  method DecodeOne(decoder: PhuffDcDecoder, base: seq<int>, ghost x: Stretch, ghost mcus: seq<seq<int>>, ghost i: nat, ghost s: nat,
                   ghost pos: nat)
    returns (result: seq<int>, ghost s': nat, ghost pos': nat)
    requires DecodesFrom(x, decoder, mcus, i, s, pos) && i < |mcus| && BitKnown(decoder.layout, mcus[i], base)
    modifies decoder, decoder.reader
    ensures DecodesFrom(x, decoder, mcus, i + 1, s', pos')
    ensures |result| == |base| && forall k | 0 <= k < |result| :: k < |mcus[i]| && result[k] == DcPoint(mcus[i][k], decoder.layout.al)
  {
    hide Reader.Saved, Reader.Settled, Stretch.Valid, BitsOfPart, Chain, Ending, Coming, Faces, DcPoint, BitKnown;
    s', pos' := s, pos;
    if decoder.restartInterval != 0 && decoder.restartsToGo == 0 {
      pos' := StartSegment(decoder, x, mcus, i, s, pos);
      s' := s + 1;
    }
    DueThen(|mcus|, x.interval, s', i, decoder.restartsToGo, decoder.nextRestartNum);
    result := DecodeHere(decoder, base, x, mcus, i, s');
    decoder.CountMcu();
  }

  method DecodeRefine(l: Layout, interval: nat, input: seq<byte>, bases: seq<seq<int>>, ghost x: Stretch, ghost mcus: seq<seq<int>>)
    returns (result: seq<seq<int>>)
    requires Laid(l, mcus) && Transformed(l.al + 1, mcus, bases)
    requires x.Valid() && x.part == BitsOfPart(l.al, mcus) && x.n == |mcus| && x.interval == interval && x.input == input
    requires Chain(input, x.segments, 0, 0, x.marker)
    ensures Transformed(l.al, mcus, result)
  {
    hide DecodesFrom, Stretch.Valid, BitsOfPart, Chain, Reader.Saved, Coming, Ending, DcPoint, BitKnown;
    var reader := new Reader(input, |input|);
    var decoder := new PhuffDcDecoder(reader, [], l, interval);
    ghost var s, pos := 0, 0;
    FirstStands(x, decoder, mcus);
    result := [];
    for i := 0 to |bases|
      invariant DecodesFrom(x, decoder, mcus, i, s, pos) && fresh(decoder) && fresh(decoder.reader)
      invariant Transformed(l.al, mcus[..i], result)
    {
      KnownBit(l, mcus, bases, i);
      var mcu;
      mcu, s, pos := DecodeOne(decoder, bases[i], x, mcus, i, s, pos);
      result := result + [mcu];
    }
    assert mcus[..|bases|] == mcus;
  }

  lemma FirstStands(x: Stretch, decoder: PhuffDcDecoder, mcus: seq<seq<int>>)
    requires decoder.Ready() && x.Valid() && x.part == BitsOfPart(decoder.layout.al, mcus) && x.n == |mcus|
    requires x.interval == decoder.restartInterval && decoder.reader.input == x.input && decoder.reader.available == |x.input|
    requires Chain(x.input, x.segments, 0, 0, x.marker) && decoder.restartsToGo == x.interval && decoder.nextRestartNum == 0
    requires decoder.reader.stream == Coming(x.input, 0) && decoder.reader.savedAt == 0 && decoder.reader.savedPos == 0
    requires decoder.reader.ending == Ending(x.input, 0) && !decoder.reader.insufficientData
    ensures DecodesFrom(x, decoder, mcus, 0, 0, 0)
  {
    hide Reader.Saved, BitsOfPart, Faces, Coming, Holds, AllHold, AllCodable, ScanFrom, Ending;
    FacesFirst(x, decoder, mcus, 0, 0);
  }

  /** A refinement scan with any restart interval, whatever follows it: the decoder, which knows
      the DC coefficients but for one bit, ends with that bit too. */
  method RefineRoundTrip(l: Layout, mcus: seq<seq<int>>, bases: seq<seq<int>>, interval: nat, fill: nat, marker: byte, tail: seq<byte>)
    returns (result: seq<seq<int>>)
    requires Laid(l, mcus) && Transformed(l.al + 1, mcus, bases) && marker != 0 && marker != 0xFF
    ensures Transformed(l.al, mcus, result)
  {
    hide AllCodable, BitsOfPart, Chain, HuffEncoder.Scan, HuffEncoder.Restarted, ScanFrom, AllHold, MarkerBytes, Transformed;
    var bytes;
    ghost var segments;
    bytes, segments := EncodeRefine(l, mcus, interval);
    var input := bytes + MarkerBytes(fill, marker) + tail;
    ScanChain(segments, fill, marker, tail, 0);
    NothingRestarted(segments);
    ScanCodable(NoBooks(), l.al, mcus, interval, 0);
    ghost var x := Stretch(BitsOfPart(l.al, mcus), |mcus|, interval, NoBooks(), input, segments, marker);
    result := DecodeRefine(l, interval, input, bases, x, mcus);
  }
}
