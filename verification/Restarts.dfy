/** Scans that are divided by restart markers: what is common to all progressive coders. */
module Restarts {
  import opened JpegLimits
  import opened Shifts
  import opened EntropySource
  import opened BitStrings
  import opened BitReader
  import opened BitWriter
  import opened BitCodec
  import opened CodeEvents
  import opened EventTables
  import opened EventReader
  import opened Segments
  import HuffEncoder
  import opened HuffScan
  import opened Wrappers

  /** What stands for the MCUs from one number up to another, at the start of a segment. */
  type Part = (nat, nat) -> Events

  /** What stands for the MCUs from `start` on, where a segment begins. */
  function ScanFrom(part: Part, n: nat, interval: nat, start: nat): Events
    requires start <= n
    decreases n - start
  {
    var end := SegmentEnd(interval, n, start);
    if end == n then part(start, n) else Append(part(start, end), ScanFrom(part, n, interval, end))
  }

  /** The part of that behind the first segment. */
  function Later(part: Part, n: nat, interval: nat, start: nat): Events
    requires start <= n
  {
    var end := SegmentEnd(interval, n, start);
    if end == n then Nil else ScanFrom(part, n, interval, end)
  }

  /** The segment that begins with MCU `start`. */
  function SegmentAt(part: Part, n: nat, interval: nat, start: nat): Events
    requires start <= n
  {
    part(start, SegmentEnd(interval, n, start))
  }

  lemma LaterIs(part: Part, n: nat, interval: nat, start: nat)
    requires start <= n && SegmentEnd(interval, n, start) < n
    ensures Later(part, n, interval, start) == ScanFrom(part, n, interval, SegmentEnd(interval, n, start))
  {
    hide ScanFrom;
  }

  lemma EmitsSplit(books: Books, sink: Sink, part: Part, n: nat, interval: nat, start: nat)
    requires start <= n
    ensures EmitAll(books, sink, ScanFrom(part, n, interval, start))
            == EmitAll(books, EmitAll(books, sink, SegmentAt(part, n, interval, start)), Later(part, n, interval, start))
  {
    var end := SegmentEnd(interval, n, start);
    if end < n { EmitAppend(books, sink, part(start, end), ScanFrom(part, n, interval, end)); }
  }

  lemma CodableSplit(books: Books, part: Part, n: nat, interval: nat, start: nat)
    requires start <= n
    ensures AllCodable(books, ScanFrom(part, n, interval, start))
            <==> AllCodable(books, SegmentAt(part, n, interval, start)) && AllCodable(books, Later(part, n, interval, start))
  {
    var end := SegmentEnd(interval, n, start);
    if end < n { AppendCodable(books, part(start, end), ScanFrom(part, n, interval, end)); }
  }

  lemma {:induction false} AppendShaped(a: Events, b: Events, m: nat)
    ensures Shaped(Append(a, b), m) <==> Shaped(a, m) && Shaped(b, m)
    decreases a
  {
    if a.Cons? { AppendShaped(a.tail, b, m); }
  }

  lemma {:induction false} ScanShaped(part: Part, n: nat, interval: nat, start: nat, m: nat)
    requires start <= n && forall a: nat, b: nat | a <= b <= n :: Shaped(part(a, b), m)
    ensures Shaped(ScanFrom(part, n, interval, start), m)
    decreases n - start
  {
    var end := SegmentEnd(interval, n, start);
    if end < n {
      ScanShaped(part, n, interval, end, m);
      AppendShaped(part(start, end), ScanFrom(part, n, interval, end), m);
    }
  }

  lemma {:induction false} AppendOccurs(s: byte, a: Events, b: Events)
    ensures Occurs(s, Append(a, b)) <==> Occurs(s, a) || Occurs(s, b)
    decreases a
  {
    if a.Cons? { AppendOccurs(s, a.tail, b); }
  }

  /** A symbol of the first segment occurs in the scan. */
  lemma FirstOccurs(part: Part, n: nat, interval: nat, s: byte)
    requires Occurs(s, SegmentAt(part, n, interval, 0))
    ensures Occurs(s, ScanFrom(part, n, interval, 0))
  {
    hide Occurs;
    var end := SegmentEnd(interval, n, 0);
    if end < n { AppendOccurs(s, part(0, end), ScanFrom(part, n, interval, end)); }
  }

  // ------------------------------------------------------------------- encoding

  /** Segment `s` holds the bits of its events, padded with ones. */
  ghost predicate SegmentHolds(part: Part, n: nat, interval: nat, books: Books, s: nat, d: seq<byte>) {
    SegmentStart(interval, s) <= n
    && PaddedBytes(Spell(books, [], SegmentAt(part, n, interval, SegmentStart(interval, s))), d)
  }

  ghost predicate AllHold(part: Part, n: nat, interval: nat, books: Books, segments: seq<seq<byte>>) {
    forall s: nat | s < |segments| :: SegmentHolds(part, n, interval, books, s, segments[s])
  }

  /** The counters of a coder before MCU `i`, in segment `s`. */
  ghost predicate InCount(n: nat, interval: nat, s: nat, i: nat, restartsToGo: int, nextRestartNum: nat) {
    && SegmentStart(interval, s) <= i <= n && nextRestartNum == RestartNum(s)
    && (interval == 0 ==> s == 0) && (s > 0 ==> SegmentStart(interval, s) < n)
    && (interval > 0 ==> 0 <= restartsToGo <= interval && i - SegmentStart(interval, s) == interval - restartsToGo)
  }

  /** So a restart marker is due exactly at the end of a segment that is not the last. */
  lemma DueThen(n: nat, interval: nat, s: nat, i: nat, restartsToGo: int, nextRestartNum: nat)
    requires InCount(n, interval, s, i, restartsToGo, nextRestartNum) && i < n
    ensures SegmentStart(interval, s) <= i <= SegmentEnd(interval, n, SegmentStart(interval, s))
    ensures i == SegmentEnd(interval, n, SegmentStart(interval, s)) <==> interval != 0 && restartsToGo == 0
    ensures interval != 0 && restartsToGo == 0 ==> i == SegmentStart(interval, s + 1)
  {
  }

  /** There are exactly as many segments as the MCUs need. */
  ghost predicate Divided(n: nat, interval: nat, count: nat) {
    HuffEncoder.Enough(n, interval, count) && (count > 1 ==> SegmentStart(interval, count - 1) < n)
  }

  lemma AtLast(n: nat, interval: nat, s: nat, restartsToGo: int, nextRestartNum: nat)
    requires InCount(n, interval, s, n, restartsToGo, nextRestartNum)
    ensures SegmentEnd(interval, n, SegmentStart(interval, s)) == n && Divided(n, interval, s + 1)
  {
  }

  /** What a writing pass has to keep in mind: the segments that are complete, what leads to
      the end of the current one, and whether all symbols have codes. */
  ghost predicate Written(part: Part, n: nat, interval: nat, books: Books, segments: seq<seq<byte>>, earlier: seq<byte>,
                          bits: seq<bool>, fine: bool, all: bool)
  {
    && AllHold(part, n, interval, books, segments) && earlier == HuffEncoder.Restarted(segments, |segments|)
    && SegmentStart(interval, |segments|) <= n
    && bits == Spell(books, [], SegmentAt(part, n, interval, SegmentStart(interval, |segments|)))
    && (fine <==> AllCodable(books, SegmentAt(part, n, interval, SegmentStart(interval, |segments|))))
    && (all <==> fine && AllCodable(books, Later(part, n, interval, SegmentStart(interval, |segments|))))
  }

  /** At the start of a scan. */
  lemma WrittenFirst(part: Part, n: nat, interval: nat, books: Books)
    ensures var events := SegmentAt(part, n, interval, 0);
            Written(part, n, interval, books, [], [], Spell(books, [], events), AllCodable(books, events),
                    AllCodable(books, ScanFrom(part, n, interval, 0)))
  {
    hide AllCodable, Spell, ScanFrom, Later;
    CodableSplit(books, part, n, interval, 0);
  }

  /** Behind a restart marker the next segment begins. */
  lemma WrittenNext(part: Part, n: nat, interval: nat, books: Books, segments: seq<seq<byte>>, earlier: seq<byte>,
                    bits: seq<bool>, all: bool, d: seq<byte>)
    requires Written(part, n, interval, books, segments, earlier, bits, true, all) && PaddedBytes(bits, d)
    requires SegmentEnd(interval, n, SegmentStart(interval, |segments|)) == SegmentStart(interval, |segments| + 1) < n
    ensures var events := SegmentAt(part, n, interval, SegmentStart(interval, |segments| + 1));
            Written(part, n, interval, books, segments + [d],
                    earlier + Stuff(d) + [0xFF, (RST0 + RestartNum(|segments|)) as byte],
                    Spell(books, [], events), AllCodable(books, events), all)
  {
    hide AllCodable, Spell, ScanFrom, Later, PaddedBytes, Stuff;
    var s := |segments|;
    var start, next := SegmentStart(interval, s), SegmentStart(interval, s + 1);
    LaterIs(part, n, interval, start);
    CodableSplit(books, part, n, interval, next);
    HuffEncoder.RestartedPrefix(segments, d, s);
    assert forall t: nat | t < s :: SegmentHolds(part, n, interval, books, t, (segments + [d])[t]);
  }

  /** At the end of a scan. */
  lemma WrittenLast(part: Part, n: nat, interval: nat, books: Books, segments: seq<seq<byte>>, earlier: seq<byte>,
                    bits: seq<bool>, fine: bool, all: bool)
    requires Written(part, n, interval, books, segments, earlier, bits, fine, all)
    requires SegmentEnd(interval, n, SegmentStart(interval, |segments|)) == n
    ensures all <==> fine
    ensures forall d | PaddedBytes(bits, d) ::
              AllHold(part, n, interval, books, segments + [d]) && earlier + Stuff(d) == HuffEncoder.Scan(segments + [d])
  {
    hide Spell, ScanFrom, PaddedBytes, Stuff, SegmentAt;
    forall d | PaddedBytes(bits, d)
      ensures AllHold(part, n, interval, books, segments + [d]) && earlier + Stuff(d) == HuffEncoder.Scan(segments + [d])
    {
      HuffEncoder.RestartedPrefix(segments, d, |segments|);
    }
  }

  /** What a gathering pass has to keep in mind: from the counts at the end of the current
      segment, what is behind it leads to the final counts. */
  ghost predicate Counted(part: Part, n: nat, interval: nat, books: Books, s: nat, goal: Sink, final: Sink) {
    SegmentStart(interval, s) <= n && EmitAll(books, goal, Later(part, n, interval, SegmentStart(interval, s))) == final
  }

  lemma CountedStart(part: Part, n: nat, interval: nat, books: Books, s: nat, sink: Sink, final: Sink)
    requires SegmentStart(interval, s) <= n && EmitAll(books, sink, ScanFrom(part, n, interval, SegmentStart(interval, s))) == final
    ensures Counted(part, n, interval, books, s, EmitAll(books, sink, SegmentAt(part, n, interval, SegmentStart(interval, s))), final)
  {
    hide EmitAll, ScanFrom, SegmentAt, Later;
    EmitsSplit(books, sink, part, n, interval, SegmentStart(interval, s));
  }

  lemma CountedNext(part: Part, n: nat, interval: nat, books: Books, s: nat, goal: Sink, final: Sink)
    requires Counted(part, n, interval, books, s, goal, final)
    requires SegmentEnd(interval, n, SegmentStart(interval, s)) == SegmentStart(interval, s + 1) < n
    ensures EmitAll(books, goal, ScanFrom(part, n, interval, SegmentStart(interval, s + 1))) == final
  {
    hide EmitAll, ScanFrom;
  }

  lemma CountedLast(part: Part, n: nat, interval: nat, books: Books, s: nat, goal: Sink, final: Sink)
    requires Counted(part, n, interval, books, s, goal, final) && SegmentEnd(interval, n, SegmentStart(interval, s)) == n
    ensures goal == final
  {
    assert EmitAll(books, goal, Nil) == goal;
  }

  /** Where a pass is going: the segments that are complete, the end of the current one and
      that of the scan; whether the current segment, and whether everything has codes. */
  datatype Aim = Aim(segments: seq<seq<byte>>, goal: Sink, fine: bool, all: bool, final: Sink)

  /** The aim is right for these segments. */
  ghost predicate Aims(gather: bool, part: Part, n: nat, interval: nat, books: Books, earlier: seq<byte>, aim: Aim) {
    SegmentStart(interval, |aim.segments|) <= n
    && if gather then Counted(part, n, interval, books, |aim.segments|, aim.goal, aim.final) && aim.fine && aim.all
       else aim.goal.Bits? && Written(part, n, interval, books, aim.segments, earlier, aim.goal.written, aim.fine, aim.all)
  }

  lemma AimsWithin(gather: bool, part: Part, n: nat, interval: nat, books: Books, earlier: seq<byte>, aim: Aim)
    requires Aims(gather, part, n, interval, books, earlier, aim)
    ensures SegmentStart(interval, |aim.segments|) <= n && (aim.all ==> aim.fine)
  {
    hide AllCodable, AllHold, EmitAll, Spell;
  }

  /** The aim behind a restart marker, when the counts so far are these. */
  ghost function NextAim(gather: bool, part: Part, n: nat, interval: nat, books: Books, count: seq<nat>, aim: Aim,
                         d: seq<byte>): Aim
    requires SegmentStart(interval, |aim.segments| + 1) <= n
  {
    var events := SegmentAt(part, n, interval, SegmentStart(interval, |aim.segments| + 1));
    if gather then Aim(aim.segments + [d], EmitAll(books, Counts(count), events), true, true, aim.final)
    else Aim(aim.segments + [d], Bits(Spell(books, [], events)), AllCodable(books, events), aim.all, aim.final)
  }

  lemma AimsNext(gather: bool, part: Part, n: nat, interval: nat, books: Books, earlier: seq<byte>, now: seq<byte>,
                 count: seq<nat>, aim: Aim, d: seq<byte>)
    requires Aims(gather, part, n, interval, books, earlier, aim) && aim.fine
    requires SegmentEnd(interval, n, SegmentStart(interval, |aim.segments|)) == SegmentStart(interval, |aim.segments| + 1) < n
    requires if gather then aim.goal == Counts(count)
             else PaddedBytes(aim.goal.written, d) && now == earlier + Stuff(d) + [0xFF, (RST0 + RestartNum(|aim.segments|)) as byte]
    ensures var next := NextAim(gather, part, n, interval, books, count, aim, d);
            Aims(gather, part, n, interval, books, now, next) && next.all == aim.all && next.final == aim.final
  {
    hide Written, Counted, EmitAll, Spell, AllCodable, PaddedBytes, Stuff, SegmentAt;
    if gather {
      CountedNext(part, n, interval, books, |aim.segments|, aim.goal, aim.final);
      CountedStart(part, n, interval, books, |aim.segments| + 1, aim.goal, aim.final);
    } else {
      WrittenNext(part, n, interval, books, aim.segments, earlier, aim.goal.written, aim.all, d);
    }
  }

  // ------------------------------------------------------------------- decoding

  /** What is fixed while a scan is decoded. */
  datatype Stretch = Stretch(part: Part, n: nat, interval: nat, books: Books, input: seq<byte>, segments: seq<seq<byte>>,
                             marker: byte)
  {
    ghost predicate Valid() {
      && Divided(n, interval, |segments|) && AllHold(part, n, interval, books, segments)
      && AllCodable(books, ScanFrom(part, n, interval, 0))
    }
  }

  /** The decoder stands before MCU `i`, in segment `s`, which begins at `pos`. */
  ghost predicate Stands(x: Stretch, reader: Reader, i: nat, s: nat, pos: nat, restartsToGo: int, nextRestartNum: nat)
    reads reader
  {
    && x.Valid() && InCount(x.n, x.interval, s, i, restartsToGo, nextRestartNum)
    && reader.Saved() && reader.input == x.input && reader.available == |x.input| && reader.Settled() && !reader.insufficientData
    && Chain(x.input, x.segments, s, pos, x.marker)
    && reader.stream == Coming(x.input, pos) && reader.ending == Ending(x.input, pos)
  }

  /** From segment to segment everything has a code. */
  lemma {:induction false} SegmentCodable(x: Stretch, s: nat)
    requires x.Valid() && s < |x.segments|
    ensures SegmentStart(x.interval, s) <= x.n && (s > 0 ==> SegmentStart(x.interval, s) < x.n)
    ensures AllCodable(x.books, ScanFrom(x.part, x.n, x.interval, SegmentStart(x.interval, s)))
  {
    hide AllCodable, AllHold, ScanFrom, Later;
    HuffScan.StartsGrow(x.interval, s, |x.segments| - 1);
    if s > 0 {
      SegmentCodable(x, s - 1);
      LaterIs(x.part, x.n, x.interval, SegmentStart(x.interval, s - 1));
      CodableSplit(x.books, x.part, x.n, x.interval, SegmentStart(x.interval, s - 1));
    }
  }

  /** At the start of segment `s` its events stand ahead. */
  lemma EventsStand(x: Stretch, s: nat, pos: nat)
    requires x.Valid() && Chain(x.input, x.segments, s, pos, x.marker)
    ensures SegmentStart(x.interval, s) <= x.n
    ensures var events := SegmentAt(x.part, x.n, x.interval, SegmentStart(x.interval, s));
            Ahead(x.books, Coming(x.input, pos), 0, events) && AllCodable(x.books, events)
  {
    hide Ahead, AllCodable, Holds, PaddedBytes, Spell, ScanFrom, Later;
    SegmentCodable(x, s);
    CodableSplit(x.books, x.part, x.n, x.interval, SegmentStart(x.interval, s));
    var d := x.segments[s];
    assert SegmentHolds(x.part, x.n, x.interval, x.books, s, d);
    ComingIs(x.input, pos, d, MarkerBehind(|x.segments|, s, x.marker));
    EventsAhead(x.books, SegmentAt(x.part, x.n, x.interval, SegmentStart(x.interval, s)), d, Coming(x.input, pos));
  }

  /** When a restart marker is due it is there, with the expected number. */
  lemma MarkerThere(x: Stretch, reader: Reader, i: nat, s: nat, pos: nat, restartsToGo: int, nextRestartNum: nat)
    requires Stands(x, reader, i, s, pos, restartsToGo, nextRestartNum) && i < x.n && x.interval != 0 && restartsToGo == 0
    ensures s + 1 < |x.segments| && i == SegmentStart(x.interval, s + 1) && nextRestartNum < 8
    ensures reader.ending.Marker? && reader.ending.code as nat == RST0 + nextRestartNum
    ensures Chain(x.input, x.segments, s + 1, reader.ending.next, x.marker)
  {
    hide Reader.Saved, Holds, ScanFrom, AllCodable, AllHold;
    DueThen(x.n, x.interval, s, i, restartsToGo, nextRestartNum);
  }
}
