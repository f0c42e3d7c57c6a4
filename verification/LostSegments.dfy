/** Segments of a scan that are lost on the way cost only their own MCUs. */
module LostSegments {
  import opened JpegLimits
  import opened Segments
  import opened Shifts
  import opened EntropySource
  import opened Resync
  import opened BitReader
  import opened HuffmanTables
  import opened CodeEvents
  import opened HeldBits
  import opened BaseModel
  import opened HuffEncoder
  import opened McuTrace
  import opened HuffDecoder
  import opened HuffMcu
  import opened BaseTraces
  import opened HuffScan
  import opened Wrappers

  /** The first segment from `s` on that has not been lost, or `n`. */
  function NextKept(kept: nat -> bool, n: nat, s: nat): (t: nat)
    requires s <= n
    ensures s <= t <= n && (t < n ==> kept(t)) && (kept(s) ==> t == s)
    ensures forall u: nat | s <= u < t :: !kept(u)
    decreases n - s
  {
    if s < n && !kept(s) then NextKept(kept, n, s + 1) else s
  }

  /** The first segment is there, and between others no more than two in a row are missing. */
  ghost predicate FewLost(kept: nat -> bool) {
    kept(0) && forall s: nat, t: nat | s + 2 < t && kept(t) && !kept(s) && !kept(s + 1) :: kept(s + 2)
  }

  /** What is left of the segments from `s` on, each with the marker before it. */
  function Left(segments: seq<seq<byte>>, kept: nat -> bool, s: nat): seq<byte>
    requires 1 <= s <= |segments|
    decreases |segments| - s
  {
    if s == |segments| then []
    else (if kept(s) then MarkerBytes(0, (RST0 + RestartNum(s - 1)) as byte) + Stuff(segments[s]) else [])
         + Left(segments, kept, s + 1)
  }

  /** The bytes of a scan from which the other segments have been cut, with the markers before
      them. */
  function Damaged(segments: seq<seq<byte>>, kept: nat -> bool): seq<byte>
    requires |segments| > 0
  {
    Stuff(segments[0]) + Left(segments, kept, 1)
  }

  /** Without losses that is the scan. */
  lemma NothingLost(segments: seq<seq<byte>>, kept: nat -> bool)
    requires |segments| > 0 && forall s: nat | s < |segments| :: kept(s)
    ensures Damaged(segments, kept) == Scan(segments)
  {
    hide Stuff, Left, Scan;
    NothingRestarted(segments);
    ScanFollows(segments, kept, 0);
  }

  lemma {:induction false} ScanFollows(segments: seq<seq<byte>>, kept: nat -> bool, s: nat)
    requires s < |segments| && forall t: nat | t < |segments| :: kept(t)
    ensures Restarted(segments, s) + (Stuff(segments[s]) + Left(segments, kept, s + 1)) == Scan(segments)
    decreases |segments| - s
  {
    hide Stuff, Restarted, MarkerBytes;
    if s + 1 < |segments| {
      hide Scan;
      ScanFollows(segments, kept, s + 1);
      RestartedNext(segments, s);
      Rearranged(Restarted(segments, s), Stuff(segments[s]), MarkerBytes(0, (RST0 + RestartNum(s)) as byte),
                 Stuff(segments[s + 1]), Left(segments, kept, s + 2));
    }
  }

  lemma Rearranged(a: seq<byte>, b: seq<byte>, m: seq<byte>, c: seq<byte>, d: seq<byte>)
    ensures a + (b + ((m + c) + d)) == (a + (b + m)) + (c + d)
  {
  }

  lemma {:induction false} LeftFromNext(segments: seq<seq<byte>>, kept: nat -> bool, s: nat)
    requires 1 <= s <= |segments|
    ensures Left(segments, kept, s) == Left(segments, kept, NextKept(kept, |segments|, s))
    decreases |segments| - s
  {
    hide Stuff, MarkerBytes;
    if s < |segments| && !kept(s) { LeftFromNext(segments, kept, s + 1); }
  }

  /** `e` is the marker behind segment `s`, and what is left follows it. */
  ghost predicate Remains(x: Setting, kept: nat -> bool, s: nat, e: Read)
    requires s < |x.segments|
    decreases |x.segments| - s
  {
    var t := NextKept(kept, |x.segments|, s + 1);
    e.Marker? &&
    if t == |x.segments| then e.code == x.marker
    else t <= s + 3 && e.code as nat == RST0 + RestartNum(t - 1) && There(x, t, e.next)
         && Remains(x, kept, t, Ending(x.input, e.next))
  }

  /** The next segment that is there, with the marker before it. */
  lemma LeftSplit(segments: seq<seq<byte>>, kept: nat -> bool, t: nat, front: seq<byte>, d: seq<byte>, tail: seq<byte>)
    requires 1 <= t < |segments| && kept(t)
    ensures var code := MarkerBytes(0, (RST0 + RestartNum(t - 1)) as byte);
            front + (d + Left(segments, kept, t) + tail)
            == front + (d + code) + (Stuff(segments[t]) + Left(segments, kept, t + 1) + tail)
  {
    hide Stuff, MarkerBytes;
  }

  lemma LostTwo(kept: nat -> bool, n: nat, s: nat)
    requires s < n && FewLost(kept)
    ensures var t := NextKept(kept, n, s + 1); t < n ==> t <= s + 3
  {
  }

  /** What has been cut is found like that. */
  lemma {:induction false} RemainsLeft(x: Setting, kept: nat -> bool, s: nat, front: seq<byte>, fill: nat, tail: seq<byte>)
    requires s < |x.segments| && FewLost(kept) && x.marker != 0 && x.marker != 0xFF
    requires x.input == front + (Stuff(x.segments[s]) + Left(x.segments, kept, s + 1) + (MarkerBytes(fill, x.marker) + tail))
    ensures There(x, s, |front|) && Remains(x, kept, s, Ending(x.input, |front|))
    decreases |x.segments| - s
  {
    hide Stuff, Left, MarkerBytes, Holds, Ending, FewLost, NextKept;
    var t := NextKept(kept, |x.segments|, s + 1);
    LostTwo(kept, |x.segments|, s);
    LeftFromNext(x.segments, kept, s + 1);
    var d, end := Stuff(x.segments[s]), MarkerBytes(fill, x.marker) + tail;
    if t < |x.segments| {
      var code := (RST0 + RestartNum(t - 1)) as byte;
      LeftSplit(x.segments, kept, t, front, d, end);
      SegmentIn(x.input, front, x.segments[s], 0, code);
      OneMarker(front, d, code);
      RemainsLeft(x, kept, t, front + (d + MarkerBytes(0, code)), fill, tail);
    } else {
      NothingLeft(x.segments, kept, front, d, MarkerBytes(fill, x.marker), tail);
      SegmentIn(x.input, front, x.segments[s], fill, x.marker);
    }
  }

  lemma OneMarker(front: seq<byte>, d: seq<byte>, code: byte)
    ensures |front + (d + MarkerBytes(0, code))| == |front + d| + 2
  {
  }

  lemma NothingLeft(segments: seq<seq<byte>>, kept: nat -> bool, front: seq<byte>, d: seq<byte>, m: seq<byte>, tail: seq<byte>)
    requires |segments| > 0
    ensures front + (d + Left(segments, kept, |segments|) + (m + tail)) == front + (d + m) + tail
  {
  }

  /** In a scan that is whole, and so in each part of it, the restart markers are consecutive. */
  lemma {:induction false} ChainNumbered(input: seq<byte>, segments: seq<seq<byte>>, s: nat, pos: nat, marker: byte)
    requires Chain(input, segments, s, pos, marker)
    ensures Numbered(input, Ending(input, pos), s, |segments| - 1 - s)
    decreases |segments| - s
  {
    hide Holds, Ending;
    var e, n := Ending(input, pos), |segments| - 1 - s;
    if n > 0 {
      ChainNumbered(input, segments, s + 1, e.next, marker);
      RestartNumIs(s);
      forall i: nat | i < n ensures IsRestart(Behind(input, e, i), s + i) {
        if i > 0 {
          BehindTwice(input, e, 1, i - 1);
          assert IsRestart(Behind(input, Behind(input, e, 1), i - 1), s + 1 + (i - 1));
        }
      }
    }
  }

  // ------------------------------------------------------------------- decoding

  /** Before MCU `i` in segment `s`, which may be lost. */
  ghost predicate Stands(x: Setting, kept: nat -> bool, decoder: HuffmanDecoder, i: nat, s: nat, pos: nat)
    requires x.Valid()
    reads decoder, decoder.reader
  {
    && Placed(x, decoder, i, s) && x.interval > 0 && Remains(x, kept, s, decoder.reader.ending)
    && (kept(s) ==> InSegment(x, decoder, i, s, pos))
  }

  /** A marker that ends a scan. */
  predicate EndsScan(marker: byte) {
    SOF0 <= marker as nat < 0xFF && !(RST0 <= marker as nat <= RST0 + 7)
  }

  /** At a restart the next segment is there, or the decoder waits at the marker before a later
      one. */
  lemma AtRestart(x: Setting, kept: nat -> bool, decoder: HuffmanDecoder, i: nat, s: nat, pos: nat)
    requires x.Valid() && Stands(x, kept, decoder, i, s, pos) && i < |x.mcus| && decoder.RestartDue() && EndsScan(x.marker)
    ensures s + 1 < |x.segments| && decoder.reader.ending.Marker?
    ensures var e := decoder.reader.ending;
            if kept(s + 1) then There(x, s + 1, e.next) && decoder.Recovery() == GoOn(e.next)
                                && Remains(x, kept, s + 1, Ending(x.input, e.next))
            else decoder.Recovery() == Stay(e.code, e.next) && Remains(x, kept, s + 1, e)
  {
    hide InSegment, Reader.Saved, Reader.Settled, Tables.Valid, HasTables, SegmentHolds, AllFine, NoFill, Ending, There;
    DueAtEnd(x, decoder, i, s);
    var e, t := decoder.reader.ending, NextKept(kept, |x.segments|, s + 1);
    RestartNumIs(s);
    if s + 1 < t < |x.segments| {
      RestartNumIs(t - 1);
      ActionIs(s, t - 1 - s, e.code);
    }
  }

  lemma InItsSegment(x: Setting, decoder: HuffmanDecoder, i: nat, s: nat, pos: nat)
    requires x.Valid() && InSegment(x, decoder, i, s, pos)
    ensures Placed(x, decoder, i, s) && decoder.reader.ending == Ending(x.input, pos)
  {
    hide Placed, Ending, There;
  }

  /** The MCUs of the segments that are there have come back. */
  ghost predicate Restored(x: Setting, kept: nat -> bool, result: seq<seq<seq<int>>>) {
    forall s: nat, i: nat | kept(s) && SegmentStart(x.interval, s) <= i < |result| <= |x.mcus| && i < SegmentStart(x.interval, s + 1) ::
      result[i] == x.mcus[i]
  }

  lemma OneMoreRestored(x: Setting, kept: nat -> bool, result: seq<seq<seq<int>>>, mcu: seq<seq<int>>, s: nat)
    requires x.interval > 0 && Restored(x, kept, result) && |result| < |x.mcus| && SegmentStart(x.interval, s) <= |result| < x.End(s)
    requires kept(s) ==> mcu == x.mcus[|result|]
    ensures Restored(x, kept, result + [mcu])
  {
    var more, n := result + [mcu], |result|;
    forall u: nat, i: nat | kept(u) && SegmentStart(x.interval, u) <= i < |more| && i < SegmentStart(x.interval, u + 1)
      ensures more[i] == x.mcus[i]
    {
      if i == n { OneSegment(x.interval, s, u, i); } else { assert more[i] == result[i]; }
    }
  }

  /** An MCU is in one segment only. */
  lemma OneSegment(interval: nat, s: nat, u: nat, i: nat)
    requires SegmentStart(interval, s) <= i < SegmentStart(interval, s + 1)
    requires SegmentStart(interval, u) <= i < SegmentStart(interval, u + 1)
    ensures s == u
  {
    if s < u { StartsGrow(interval, s + 1, u); }
    if u < s { StartsGrow(interval, u + 1, s); }
  }

  /** One MCU. */
  method DecodeNext(decoder: HuffmanDecoder, ghost x: Setting, ghost kept: nat -> bool, ghost i: nat, ghost s: nat, ghost pos: nat)
    returns (result: seq<seq<int>>, ghost next: nat, ghost begin: nat)
    requires x.Valid() && Stands(x, kept, decoder, i, s, pos) && i < |x.mcus| && EndsScan(x.marker)
    modifies decoder, decoder.reader
    ensures Stands(x, kept, decoder, i + 1, next, begin) && SegmentStart(x.interval, next) <= i < x.End(next)
    ensures kept(next) ==> result == x.mcus[i]
  {
    hide InSegment, Tables.Valid, HasTables, SegmentHolds, AllFine, Enough, There, Recovered, Remains, Reader.Saved, Reader.Settled, NoFill;
    DueAtEnd(x, decoder, i, s);
    next, begin := s, pos;
    if kept(s) { InItsSegment(x, decoder, i, s, pos); }
    if decoder.RestartDue() {
      AtRestart(x, kept, decoder, i, s, pos);
      next, begin := s + 1, decoder.reader.ending.next;
    }
    result := DecodeAt(decoder, x, i, s, next, begin, kept(next));
    if kept(next) { InItsSegment(x, decoder, i + 1, next, begin); }
  }

  /** All MCUs: those of the segments that are there come back. */
  method DecodeDamaged(t: Tables, interval: nat, n: nat, input: seq<byte>, ghost x: Setting, ghost kept: nat -> bool)
    returns (result: seq<seq<seq<int>>>)
    requires x.Valid() && x.t == t && x.interval == interval > 0 && n == |x.mcus| && x.input == input && EndsScan(x.marker)
    requires kept(0) && There(x, 0, 0) && Remains(x, kept, 0, Ending(input, 0))
    ensures |result| == n
    ensures forall s: nat, i: nat | kept(s) && SegmentStart(interval, s) <= i < n && i < SegmentStart(interval, s + 1) ::
              result[i] == x.mcus[i]
  {
    hide Ahead, AllCodable, Ending, Tables.Valid, HasTables, SegmentHolds, AllFine, Holds, Remains, Reader.Saved, NoFill, Coming, BasePlan, InRange;
    var reader := new Reader(input, |input|);
    var decoder := new HuffmanDecoder(reader, t, interval);
    SegmentAhead(x, 0, 0);
    ghost var s, pos := 0, 0;
    result := [];
    for i := 0 to n
      invariant fresh(decoder) && fresh(decoder.reader) && Stands(x, kept, decoder, i, s, pos)
      invariant |result| == i && Restored(x, kept, result)
    {
      var mcu;
      mcu, s, pos := DecodeNext(decoder, x, kept, i, s, pos);
      OneMoreRestored(x, kept, result, mcu, s);
      result := result + [mcu];
    }
  }

  /** Segments with the markers before them may be lost from what was written, one or two in
      a row, and any number at the end: all MCUs of the others come back.  The segments are
      those of `HuffEncoder.EncodeScan`. */
  method LossConfined(t: Tables, interval: nat, n: nat, input: seq<byte>, ghost mcus: seq<Mcu>, ghost books: Books,
                      ghost segments: seq<seq<byte>>, ghost kept: nat -> bool, ghost fill: nat, ghost marker: byte, ghost tail: seq<byte>)
    returns (decoded: seq<seq<seq<int>>>)
    requires t.Valid() && Laid(t.l, mcus) && HasTables(t, books) && n == |mcus| && AllFine(t.l, mcus, interval, books)
    requires Enough(|mcus|, interval, |segments|) && HoldIfFit(t.l, mcus, interval, books, segments)
    requires forall s: nat | SegmentStart(interval, s) <= |mcus| :: SegmentFits(t.l, mcus, interval, books, s)
    requires interval > 0 && FewLost(kept) && EndsScan(marker)
    requires input == Damaged(segments, kept) + MarkerBytes(fill, marker) + tail
    ensures |decoded| == |mcus|
    ensures forall s: nat, i: nat | kept(s) && SegmentStart(interval, s) <= i < |mcus| && i < SegmentStart(interval, s + 1) ::
              decoded[i] == mcus[i]
  {
    hide HoldIfFit, SegmentFits, SegmentHolds, AllFine, Tables.Valid, HasTables, Stuff, Left, Remains, MarkerBytes;
    ghost var x := Setting(t, mcus, interval, books, input, segments, marker);
    AllSegmentsHold(t.l, mcus, interval, books, segments);
    assert input == [] + (Stuff(segments[0]) + Left(segments, kept, 1) + (MarkerBytes(fill, marker) + tail));
    RemainsLeft(x, kept, 0, [], fill, tail);
    decoded := DecodeDamaged(t, interval, n, input, x, kept);
  }
}
