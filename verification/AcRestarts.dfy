/** Restart markers and the end of a pass, as the AC passes of jcphuff.c and jdphuff.c have
  them in common. */
module AcRestarts {
  import opened JpegLimits
  import opened Shifts
  import opened EntropySource
  import opened BitReader
  import opened BitWriter
  import opened HuffmanTables
  import opened CodeEvents
  import opened EventTables
  import opened Segments
  import HuffEncoder
  import opened HuffScan
  import opened AcRefinePending
  import opened AcRefineEncoder
  import opened AcRefineDecoder
  import opened Restarts
  import opened Wrappers

  /** The aim of an encoder is right. */
  ghost predicate Aiming(encoder: PhuffEncoder, part: Part, n: nat, aim: Aim)
    reads encoder.writer`earlier
  {
    Aims(encoder.gather, part, n, encoder.restartInterval, [encoder.book], encoder.writer.earlier, aim)
  }

  lemma AimingWithin(encoder: PhuffEncoder, part: Part, n: nat, aim: Aim)
    requires Aiming(encoder, part, n, aim)
    ensures SegmentStart(encoder.restartInterval, |aim.segments|) <= n && (aim.all ==> aim.fine)
  {
    hide Aims;
    AimsWithin(encoder.gather, part, n, encoder.restartInterval, [encoder.book], encoder.writer.earlier, aim);
  }

  /** Emitting the events of the segment leads to its end. */
  ghost predicate Begins(encoder: PhuffEncoder, part: Part, n: nat, aim: Aim)
    reads encoder.counts, encoder.writer`written
  {
    var start := SegmentStart(encoder.restartInterval, |aim.segments|);
    && start <= n && aim.goal == EmitAll([encoder.book], encoder.Out(), SegmentAt(part, n, encoder.restartInterval, start))
    && (aim.fine <==> encoder.Coded(SegmentAt(part, n, encoder.restartInterval, start)))
  }

  /** The aim of a whole scan. */
  ghost function FirstAim(encoder: PhuffEncoder, part: Part, n: nat): Aim
    reads encoder.counts, encoder.writer`written
  {
    var books, interval := [encoder.book], encoder.restartInterval;
    var all, first := ScanFrom(part, n, interval, 0), SegmentAt(part, n, interval, 0);
    Aim([], EmitAll(books, encoder.Out(), first), encoder.Coded(first), encoder.Coded(all), EmitAll(books, encoder.Out(), all))
  }

  lemma FirstAimIs(encoder: PhuffEncoder, part: Part, n: nat)
    requires encoder.writer.written == [] && encoder.writer.earlier == []
    ensures var aim := FirstAim(encoder, part, n);
            && Aiming(encoder, part, n, aim) && Begins(encoder, part, n, aim) && aim.segments == []
            && (aim.all <==> encoder.Coded(ScanFrom(part, n, encoder.restartInterval, 0)))
            && aim.final == EmitAll([encoder.book], encoder.Out(), ScanFrom(part, n, encoder.restartInterval, 0))
  {
    hide EmitAll, AllCodable, SegmentAt, Spell, ScanFrom, Written, Counted;
    var interval, books, aim := encoder.restartInterval, [encoder.book], FirstAim(encoder, part, n);
    EmitsSpelling(books, [], SegmentAt(part, n, interval, 0));
    if encoder.gather { CountedStart(part, n, interval, books, 0, encoder.Out(), aim.final); }
    else { WrittenFirst(part, n, interval, books); }
  }

  /** Counting needs no code tables. */
  lemma {:induction false} CountsWithoutBooks(books: Books, count: seq<nat>, events: Events)
    ensures EmitAll(books, Counts(count), events) == EmitAll([], Counts(count), events)
    decreases events
  {
    if events.Cons? {
      var next := Emit(books, Counts(count), events.head);
      assert next == Emit([], Counts(count), events.head);
      CountsWithoutBooks(books, next.count, events.tail);
    }
  }

  /** `emit_restart`, where it is due: the next segment begins. */
  method EmitRestart(encoder: PhuffEncoder, ghost part: Part, ghost n: nat, ghost i: nat, ghost aim: Aim)
    returns (ok: bool, ghost next: Aim)
    requires encoder.Valid() && OneBitEach(encoder.bitBuffer[..])
    requires encoder.Leads(Flush(encoder.eobrun, encoder.bitBuffer[..], encoder.be, Nil), aim.goal, aim.fine)
    requires InCount(n, encoder.restartInterval, |aim.segments|, i, encoder.restartsToGo, encoder.nextRestartNum) && i < n
    requires encoder.restartInterval != 0 && encoder.restartsToGo == 0 && Aiming(encoder, part, n, aim)
    modifies encoder`eobrun, encoder`be, encoder.counts, encoder.writer
    ensures encoder.Valid()
    ensures if ok
            then && encoder.eobrun == encoder.be == 0 && |next.segments| == |aim.segments| + 1
                 && next.all == aim.all && next.final == aim.final && i == SegmentStart(encoder.restartInterval, |next.segments|)
                 && Aiming(encoder, part, n, next) && Begins(encoder, part, n, next)
            else !aim.all
  {
    hide PhuffEncoder.Leads, Flush, PhuffWriter.Valid, OneBitEach, EmitAll, AllCodable, PaddedBytes, Stuff, Spell, SegmentAt,
         NextAim, Aims;
    ghost var s, earlier, interval := |aim.segments|, encoder.writer.earlier, encoder.restartInterval;
    DueThen(n, interval, s, i, encoder.restartsToGo, encoder.nextRestartNum);
    AimingWithin(encoder, part, n, aim);
    ghost var d;
    ok, d := encoder.EmitRestart(aim.goal, aim.fine);
    next := aim;
    if ok {
      next := NextAim(encoder.gather, part, n, interval, [encoder.book], encoder.counts[..], aim, d);
      AimsNext(encoder.gather, part, n, interval, [encoder.book], earlier, encoder.writer.earlier, encoder.counts[..], aim, d);
      NextBegins(encoder, part, n, aim, d);
    }
  }

  lemma NextBegins(encoder: PhuffEncoder, part: Part, n: nat, aim: Aim, d: seq<byte>)
    requires SegmentStart(encoder.restartInterval, |aim.segments| + 1) <= n
    requires !encoder.gather ==> encoder.writer.written == []
    ensures var next := NextAim(encoder.gather, part, n, encoder.restartInterval, [encoder.book], encoder.counts[..], aim, d);
            Begins(encoder, part, n, next) && |next.segments| == |aim.segments| + 1
  {
    hide EmitAll, AllCodable, Spell;
    EmitsSpelling([encoder.book], [],
                  SegmentAt(part, n, encoder.restartInterval, SegmentStart(encoder.restartInterval, |aim.segments| + 1)));
  }

  /** `finish_pass_phuff`, or the part of `finish_pass_gather_phuff` that ends the run. */
  method FinishScan(encoder: PhuffEncoder, ghost part: Part, ghost n: nat, ghost aim: Aim)
    returns (ok: bool, ghost segments: seq<seq<byte>>)
    requires encoder.Valid() && OneBitEach(encoder.bitBuffer[..])
    requires encoder.Leads(Flush(encoder.eobrun, encoder.bitBuffer[..], encoder.be, Nil), aim.goal, aim.fine)
    requires InCount(n, encoder.restartInterval, |aim.segments|, n, encoder.restartsToGo, encoder.nextRestartNum)
    requires Aiming(encoder, part, n, aim)
    modifies encoder`eobrun, encoder`be, encoder.counts, encoder.writer
    ensures ok <==> aim.all
    ensures ok && encoder.gather ==> Counts(encoder.counts[..]) == aim.final
    ensures ok && !encoder.gather ==>
              && Divided(n, encoder.restartInterval, |segments|) && encoder.writer.output == HuffEncoder.Scan(segments)
              && AllHold(part, n, encoder.restartInterval, [encoder.book], segments)
  {
    hide PhuffEncoder.Leads, Flush, PhuffWriter.Valid, OneBitEach, EmitAll, AllCodable, PaddedBytes, Stuff, Spell, SegmentAt,
         Written, Counted, AllHold, HuffEncoder.Scan;
    ghost var s, earlier, interval := |aim.segments|, encoder.writer.earlier, encoder.restartInterval;
    AtLast(n, interval, s, encoder.restartsToGo, encoder.nextRestartNum);
    if encoder.gather { CountedLast(part, n, interval, [encoder.book], s, aim.goal, aim.final); }
    else { WrittenLast(part, n, interval, [encoder.book], aim.segments, earlier, aim.goal.written, aim.fine, aim.all); }
    ghost var d;
    ok, d := encoder.EndSegment(aim.goal, aim.fine);
    segments := aim.segments + [d];
  }

  // ------------------------------------------------------------------- decoding

  /** `process_restart`, where it is due: the decoder stands at the start of the next segment. */
  method ReadRestart(decoder: PhuffDecoder, ghost x: Stretch, ghost i: nat, ghost s: nat, ghost pos: nat) returns (ghost next: nat)
    requires decoder.Ready() && Stands(x, decoder.reader, i, s, pos, decoder.restartsToGo, decoder.nextRestartNum) && i < x.n
    requires x.interval == decoder.restartInterval != 0 && decoder.restartsToGo == 0
    modifies decoder, decoder.reader
    ensures decoder.Ready() && decoder.eobrun == 0 && decoder.restartsToGo == decoder.restartInterval
    ensures Stands(x, decoder.reader, i, s + 1, next, decoder.restartsToGo, decoder.nextRestartNum)
    ensures x.Valid() && Chain(x.input, x.segments, s + 1, next, x.marker) && i == SegmentStart(x.interval, s + 1)
    ensures decoder.reader.stream == Coming(x.input, next) && decoder.reader.savedAt == 0
  {
    hide AllCodable, Reader.Saved, DecoderTable.Valid, Holds, ScanFrom, AllHold, Ending, Coming, Divided;
    MarkerThere(x, decoder.reader, i, s, pos, decoder.restartsToGo, decoder.nextRestartNum);
    next := decoder.reader.ending.next;
    var ok := decoder.ProcessRestart();
  }
}
