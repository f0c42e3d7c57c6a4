/** Restart markers and the end of a pass, as the DC passes of jcphuff.c and jdphuff.c have
  them in common. */
module DcRestarts {
  import opened JpegLimits
  import opened Shifts
  import opened EntropySource
  import opened BitReader
  import opened BitWriter
  import opened CodeEvents
  import opened EventTables
  import opened Segments
  import HuffEncoder
  import opened HuffScan
  import opened Restarts
  import Dc = DcModel
  import opened DcEncoder
  import opened DcDecoder
  import opened Wrappers

  /** The symbols of table `t` alone. */
  function PartOnly(t: nat, part: Part): Part {
    (a: nat, b: nat) => Only(t, part(a, b))
  }

  lemma {:induction false} OnlyScan(t: nat, part: Part, n: nat, interval: nat, start: nat)
    requires start <= n
    ensures ScanFrom(PartOnly(t, part), n, interval, start) == Only(t, ScanFrom(part, n, interval, start))
    decreases n - start
  {
    hide Only;
    var end := SegmentEnd(interval, n, start);
    if end < n {
      OnlyScan(t, part, n, interval, end);
      OnlyAppend(t, part(start, end), ScanFrom(part, n, interval, end));
    }
  }

  /** Where a pass is going: as for AC passes, but with the counts of all tables. */
  datatype DcAim = DcAim(segments: seq<seq<byte>>, goal: Goal, all: bool, final: seq<Sink>)

  /** The aim of an encoder is right. */
  ghost predicate Aiming(encoder: PhuffDcEncoder, part: Part, n: nat, aim: DcAim)
    reads encoder.writer`earlier
  {
    SegmentStart(encoder.restartInterval, |aim.segments|) <= n && |aim.final| == NUM_HUFF_TBLS
    && if encoder.gather then
         && |aim.goal.counts| == NUM_HUFF_TBLS && aim.all
         && forall t | 0 <= t < NUM_HUFF_TBLS ::
              Counted(PartOnly(t, part), n, encoder.restartInterval, [], |aim.segments|, aim.goal.counts[t], aim.final[t])
       else
         aim.goal.bits.Bits? && Written(part, n, encoder.restartInterval, encoder.books, aim.segments, encoder.writer.earlier,
                                        aim.goal.bits.written, aim.goal.fine, aim.all)
  }

  lemma AimingWithin(encoder: PhuffDcEncoder, part: Part, n: nat, aim: DcAim)
    requires Aiming(encoder, part, n, aim)
    ensures SegmentStart(encoder.restartInterval, |aim.segments|) <= n && (!encoder.gather && aim.all ==> aim.goal.fine)
    ensures encoder.gather ==> aim.all
  {
    hide AllCodable, AllHold, EmitAll, Spell, Counted;
  }

  /** What emitting the events leads to. */
  ghost function GoalFor(encoder: PhuffDcEncoder, events: Events): Goal
    requires encoder.Fixed()
    reads encoder.counts, encoder.writer`written
  {
    Goal(EmitAll(encoder.books, Bits(encoder.writer.written), events),
         [EmitAll([], Counts(encoder.counts[0][..]), Only(0, events)), EmitAll([], Counts(encoder.counts[1][..]), Only(1, events)),
          EmitAll([], Counts(encoder.counts[2][..]), Only(2, events)), EmitAll([], Counts(encoder.counts[3][..]), Only(3, events))],
         AllCodable(encoder.books, events))
  }

  lemma GoalLeads(encoder: PhuffDcEncoder, events: Events)
    requires encoder.Fixed()
    ensures encoder.Leads(events, GoalFor(encoder, events))
    ensures forall t | 0 <= t < NUM_HUFF_TBLS ::
              GoalFor(encoder, events).counts[t] == EmitAll([], Counts(encoder.counts[t][..]), Only(t, events))
  {
    hide EmitAll, AllCodable, Only;
  }

  /** Emitting the events of the segment leads to its end. */
  ghost predicate Begins(encoder: PhuffDcEncoder, part: Part, n: nat, aim: DcAim)
    requires encoder.Fixed()
    reads encoder.counts, encoder.writer`written
  {
    var start := SegmentStart(encoder.restartInterval, |aim.segments|);
    start <= n && encoder.Leads(SegmentAt(part, n, encoder.restartInterval, start), aim.goal)
  }

  /** The aim behind these segments. */
  ghost function AimFrom(encoder: PhuffDcEncoder, part: Part, n: nat, segments: seq<seq<byte>>, all: bool, final: seq<Sink>): DcAim
    requires encoder.Fixed() && SegmentStart(encoder.restartInterval, |segments|) <= n
    reads encoder.counts, encoder.writer`written
  {
    DcAim(segments,
          GoalFor(encoder, SegmentAt(part, n, encoder.restartInterval, SegmentStart(encoder.restartInterval, |segments|))),
          all, final)
  }

  /** It is right if the counts so far lead to the final ones, and the bits so far are those
      of the segments. */
  lemma AimFromIs(encoder: PhuffDcEncoder, part: Part, n: nat, segments: seq<seq<byte>>, all: bool, final: seq<Sink>)
    requires encoder.Fixed() && SegmentStart(encoder.restartInterval, |segments|) <= n && |final| == NUM_HUFF_TBLS
    requires var start := SegmentStart(encoder.restartInterval, |segments|);
             var events := SegmentAt(part, n, encoder.restartInterval, start);
             if encoder.gather then
               all && forall t | 0 <= t < NUM_HUFF_TBLS ::
                 EmitAll([], Counts(encoder.counts[t][..]), ScanFrom(PartOnly(t, part), n, encoder.restartInterval, start)) == final[t]
             else
               encoder.writer.written == []
               && Written(part, n, encoder.restartInterval, encoder.books, segments, encoder.writer.earlier,
                          Spell(encoder.books, [], events), AllCodable(encoder.books, events), all)
    ensures var aim := AimFrom(encoder, part, n, segments, all, final);
            Aiming(encoder, part, n, aim) && Begins(encoder, part, n, aim)
  {
    hide EmitAll, AllCodable, Only, ScanFrom, Written, Spell, Counted, GoalFor;
    var start := SegmentStart(encoder.restartInterval, |segments|);
    var events := SegmentAt(part, n, encoder.restartInterval, start);
    GoalLeads(encoder, events);
    EmitsSpelling(encoder.books, [], events);
    GoalBits(encoder, events);
    if encoder.gather {
      forall t | 0 <= t < NUM_HUFF_TBLS {
        CountedStart(PartOnly(t, part), n, encoder.restartInterval, [], |segments|, Counts(encoder.counts[t][..]), final[t]);
      }
    }
  }

  lemma GoalBits(encoder: PhuffDcEncoder, events: Events)
    requires encoder.Fixed()
    ensures var goal := GoalFor(encoder, events);
            && goal.bits == EmitAll(encoder.books, Bits(encoder.writer.written), events)
            && (goal.fine <==> AllCodable(encoder.books, events)) && |goal.counts| == NUM_HUFF_TBLS
  {
  }

  /** The final counts. */
  ghost function CountsInAll(encoder: PhuffDcEncoder, part: Part, n: nat): (final: seq<Sink>)
    requires encoder.Fixed()
    reads encoder.counts
    ensures |final| == NUM_HUFF_TBLS
    ensures forall t | 0 <= t < NUM_HUFF_TBLS ::
              final[t] == EmitAll([], Counts(encoder.counts[t][..]), ScanFrom(PartOnly(t, part), n, encoder.restartInterval, 0))
  {
    var interval := encoder.restartInterval;
    [EmitAll([], Counts(encoder.counts[0][..]), ScanFrom(PartOnly(0, part), n, interval, 0)),
     EmitAll([], Counts(encoder.counts[1][..]), ScanFrom(PartOnly(1, part), n, interval, 0)),
     EmitAll([], Counts(encoder.counts[2][..]), ScanFrom(PartOnly(2, part), n, interval, 0)),
     EmitAll([], Counts(encoder.counts[3][..]), ScanFrom(PartOnly(3, part), n, interval, 0))]
  }

  /** The aim of a whole scan. */
  ghost function FirstAim(encoder: PhuffDcEncoder, part: Part, n: nat): DcAim
    requires encoder.Fixed()
    reads encoder.counts, encoder.writer`written
  {
    AimFrom(encoder, part, n, [], encoder.gather || AllCodable(encoder.books, ScanFrom(part, n, encoder.restartInterval, 0)),
            CountsInAll(encoder, part, n))
  }

  lemma FirstAimIs(encoder: PhuffDcEncoder, part: Part, n: nat)
    requires encoder.Fixed() && encoder.writer.written == [] && encoder.writer.earlier == []
    ensures Aiming(encoder, part, n, FirstAim(encoder, part, n)) && Begins(encoder, part, n, FirstAim(encoder, part, n))
  {
    hide EmitAll, AllCodable, SegmentAt, Spell, ScanFrom, Written, Aiming, Begins;
    if !encoder.gather { WrittenFirst(part, n, encoder.restartInterval, encoder.books); }
    AimFromIs(encoder, part, n, [], encoder.gather || AllCodable(encoder.books, ScanFrom(part, n, encoder.restartInterval, 0)),
              CountsInAll(encoder, part, n));
  }

  /** `emit_restart`, where it is due: the next segment begins. */
  method EmitRestart(encoder: PhuffDcEncoder, ghost part: Part, ghost n: nat, ghost i: nat, ghost aim: DcAim) returns (ghost next: DcAim)
    requires encoder.Valid() && encoder.Leads(Nil, aim.goal) && Aiming(encoder, part, n, aim)
    requires InCount(n, encoder.restartInterval, |aim.segments|, i, encoder.restartsToGo, encoder.nextRestartNum) && i < n
    requires encoder.restartInterval != 0 && encoder.restartsToGo == 0
    modifies encoder.lastDcVal, encoder.writer
    ensures encoder.Valid() && encoder.Last() == Dc.Zero(encoder.layout) && |next.segments| == |aim.segments| + 1
    ensures next.all == aim.all && next.final == aim.final && i == SegmentStart(encoder.restartInterval, |next.segments|)
    ensures Aiming(encoder, part, n, next) && Begins(encoder, part, n, next)
  {
    hide PhuffDcEncoder.Leads, PhuffWriter.Valid, EmitAll, AllCodable, PaddedBytes, Stuff, Spell, SegmentAt, ScanFrom, Written,
         Counted, Only, Begins;
    ghost var s, earlier, interval := |aim.segments|, encoder.writer.earlier, encoder.restartInterval;
    DueThen(n, interval, s, i, encoder.restartsToGo, encoder.nextRestartNum);
    ghost var d := encoder.EmitRestart(aim.goal);
    if encoder.gather {
      forall t | 0 <= t < NUM_HUFF_TBLS {
        CountedNext(PartOnly(t, part), n, interval, [], s, aim.goal.counts[t], aim.final[t]);
      }
    } else {
      WrittenNext(part, n, interval, encoder.books, aim.segments, earlier, aim.goal.bits.written, aim.all, d);
    }
    AimFromIs(encoder, part, n, aim.segments + [d], aim.all, aim.final);
    next := AimFrom(encoder, part, n, aim.segments + [d], aim.all, aim.final);
  }

  /** `finish_pass_phuff`, or what the counts are before `finish_pass_gather_phuff`. */
  method FinishScan(encoder: PhuffDcEncoder, ghost part: Part, ghost n: nat, ghost aim: DcAim) returns (ghost segments: seq<seq<byte>>)
    requires encoder.Valid() && encoder.Leads(Nil, aim.goal) && Aiming(encoder, part, n, aim)
    requires InCount(n, encoder.restartInterval, |aim.segments|, n, encoder.restartsToGo, encoder.nextRestartNum)
    modifies encoder.writer
    ensures aim.all
    ensures encoder.gather ==> forall t | 0 <= t < NUM_HUFF_TBLS :: Counts(encoder.counts[t][..]) == aim.final[t]
    ensures !encoder.gather ==>
              && Divided(n, encoder.restartInterval, |segments|) && encoder.writer.output == HuffEncoder.Scan(segments)
              && AllHold(part, n, encoder.restartInterval, encoder.books, segments)
  {
    hide PhuffDcEncoder.Leads, PhuffWriter.Valid, EmitAll, AllCodable, PaddedBytes, Stuff, Spell, SegmentAt, ScanFrom, Written,
         Counted, Only, AllHold, HuffEncoder.Scan;
    ghost var s, earlier, interval := |aim.segments|, encoder.writer.earlier, encoder.restartInterval;
    AtLast(n, interval, s, encoder.restartsToGo, encoder.nextRestartNum);
    if encoder.gather {
      forall t | 0 <= t < NUM_HUFF_TBLS {
        CountedLast(PartOnly(t, part), n, interval, [], s, aim.goal.counts[t], aim.final[t]);
      }
    } else {
      WrittenLast(part, n, interval, encoder.books, aim.segments, earlier, aim.goal.bits.written, aim.goal.fine, aim.all);
    }
    ghost var d := encoder.EndSegment(aim.goal);
    segments := aim.segments + [d];
  }

  // ------------------------------------------------------------------- decoding

  /** `process_restart`, where it is due: the decoder stands at the start of the next segment. */
  method ReadRestart(decoder: PhuffDcDecoder, ghost x: Stretch, ghost i: nat, ghost s: nat, ghost pos: nat) returns (ghost next: nat)
    requires decoder.Ready() && Stands(x, decoder.reader, i, s, pos, decoder.restartsToGo, decoder.nextRestartNum) && i < x.n
    requires x.interval == decoder.restartInterval != 0 && decoder.restartsToGo == 0
    modifies decoder, decoder.reader
    ensures decoder.Ready() && decoder.lastDcVal == Dc.Zero(decoder.layout) && decoder.restartsToGo == decoder.restartInterval
    ensures Stands(x, decoder.reader, i, s + 1, next, decoder.restartsToGo, decoder.nextRestartNum)
    ensures x.Valid() && Chain(x.input, x.segments, s + 1, next, x.marker) && i == SegmentStart(x.interval, s + 1)
    ensures decoder.reader.stream == Coming(x.input, next) && decoder.reader.savedAt == 0
  {
    hide AllCodable, Reader.Saved, Holds, ScanFrom, AllHold, Ending, Coming, Divided;
    MarkerThere(x, decoder.reader, i, s, pos, decoder.restartsToGo, decoder.nextRestartNum);
    next := decoder.reader.ending.next;
    var ok := decoder.ProcessRestart();
  }
}
