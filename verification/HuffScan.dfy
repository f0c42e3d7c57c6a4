/** A sequential scan with restart markers is decoded to what was encoded. */
module HuffScan {
  import opened JpegLimits
  import opened Segments
  import opened Shifts
  import opened EntropySource
  import opened Resync
  import opened BitStrings
  import opened BitReader
  import opened BitWriter
  import opened BitCodec
  import opened HuffmanTables
  import opened CodeEvents
  import opened HeldBits
  import opened EventReader
  import opened AcRefineModel
  import opened BaseModel
  import opened HuffEncoder
  import opened McuTrace
  import opened HuffDecoder
  import opened HuffMcu
  import opened BaseTraces
  import opened ShortEob
  import opened Wrappers

  /** The marker behind segment `s`: the last is followed by the marker behind the scan. */
  function MarkerBehind(count: nat, s: nat, marker: byte): byte {
    if s + 1 < count then (RST0 + RestartNum(s)) as byte else marker
  }

  /** From `pos` on, the input holds segment `s` and those behind it, each with its marker. */
  ghost predicate Chain(input: seq<byte>, segments: seq<seq<byte>>, s: nat, pos: nat, marker: byte)
    decreases |segments| - s
  {
    && s < |segments| && marker != 0 && Holds(input, pos, segments[s], MarkerBehind(|segments|, s, marker))
    && Ending(input, pos).Marker? && Ending(input, pos).code == MarkerBehind(|segments|, s, marker)
    && (s + 1 < |segments| ==> Chain(input, segments, s + 1, Ending(input, pos).next, marker))
  }

  /** A segment starts with its first byte. */
  lemma FirstByte(input: seq<byte>, pos: nat, data: seq<byte>, fill: nat, marker: byte)
    requires data != [] && pos <= |input| && Stuff(data) + MarkerBytes(fill, marker) <= input[pos..]
    ensures var n := |Stuffed(data[0])|;
            && pos + n <= |input| && Stuffed(data[0]) <= input[pos..]
            && Stuff(data[1..]) + MarkerBytes(fill, marker) <= input[pos + n..] && |Stuff(data)| == n + |Stuff(data[1..])|
  {
    hide Stuff, MarkerBytes, Stuffed;
    var head, tail := Stuffed(data[0]), Stuff(data[1..]) + MarkerBytes(fill, marker);
    StuffCons(data);
    assert Stuff(data) + MarkerBytes(fill, marker) == head + tail;
    PrefixParts(head, tail, input[pos..]);
    assert input[pos..][|head|..] == input[pos + |head|..];
  }

  /** Where a segment ends. */
  lemma {:induction false} SegmentEnds(input: seq<byte>, pos: nat, data: seq<byte>, fill: nat, marker: byte)
    requires marker != 0 && marker != 255 && pos <= |input|
    requires Stuff(data) + MarkerBytes(fill, marker) <= input[pos..]
    ensures Ending(input, pos) == Marker(marker, pos + |Stuff(data)| + fill + 2) && NoFill(input, pos)
    decreases |data|
  {
    if data == [] {
      assert Stuff(data) + MarkerBytes(fill, marker) == MarkerBytes(fill, marker);
      ReadsMarker(input, pos, fill, marker);
    } else {
      FirstByte(input, pos, data, fill, marker);
      ReadsByte(input, pos, data[0]);
      SegmentEnds(input, pos + |Stuffed(data[0])|, data[1..], fill, marker);
    }
  }

  lemma {:induction false} RestartedGrows(segments: seq<seq<byte>>, m: nat, n: nat)
    requires m <= n <= |segments|
    ensures Restarted(segments, m) <= Restarted(segments, n)
    decreases n
  {
    hide Stuff;
    if m < n { RestartedGrows(segments, m, n - 1); }
  }

  lemma TailOf(front: seq<byte>, part: seq<byte>, whole: seq<byte>)
    requires front + part <= whole
    ensures |front| <= |whole| && part <= whole[|front|..]
  {
    var both := front + part;
    assert both == whole[..|both|];
    assert part == both[|front|..] == whole[|front|..][..|part|];
  }

  /** A segment with its marker, somewhere in the input. */
  lemma SegmentIn(input: seq<byte>, front: seq<byte>, d: seq<byte>, fill: nat, code: byte)
    requires code != 0 && code != 255 && front + (Stuff(d) + MarkerBytes(fill, code)) <= input
    ensures |front| <= |input| && Holds(input, |front|, d, code) && NoFill(input, |front|)
    ensures Ending(input, |front|) == Marker(code, |front + Stuff(d)| + fill + 2)
  {
    hide Stuff, Holds, NoFill, Ending;
    TailOf(front, Stuff(d) + MarkerBytes(fill, code), input);
    Unstuffs(input, |front|, d, fill, code);
    SegmentEnds(input, |front|, d, fill, code);
  }

  /** The bytes of a scan, and then a marker, form a chain. */
  lemma {:induction false} ScanChain(segments: seq<seq<byte>>, fill: nat, marker: byte, tail: seq<byte>, s: nat)
    requires s < |segments| && marker != 0 && marker != 0xFF
    ensures var input := Scan(segments) + MarkerBytes(fill, marker) + tail;
            Chain(input, segments, s, |Restarted(segments, s)|, marker) && (|segments| == 1 ==> NoFill(input, 0))
    decreases |segments| - s
  {
    hide Stuff, Holds, NoFill, Ending, Restarted, MarkerBytes;
    var input, n := Scan(segments) + MarkerBytes(fill, marker) + tail, |segments|;
    var front, d := Restarted(segments, s), segments[s];
    if s + 1 < n {
      RestartedNext(segments, s);
      RestartedGrows(segments, s + 1, n - 1);
      assert Restarted(segments, s + 1) <= input;
      SegmentIn(input, front, d, 0, (RST0 + RestartNum(s)) as byte);
      ScanChain(segments, fill, marker, tail, s + 1);
    } else {
      assert input == front + (Stuff(d) + MarkerBytes(fill, marker)) + tail;
      SegmentIn(input, front, d, fill, marker);
    }
    NothingRestarted(segments);
  }

  /** The data of a segment can be read in one way only. */
  lemma {:induction false} HoldsOnce(input: seq<byte>, pos: nat, d: seq<byte>, e: seq<byte>, m: byte, n: byte)
    requires Holds(input, pos, d, m) && Holds(input, pos, e, n)
    ensures d == e
    decreases |d|
  {
    if d != [] && e != [] {
      HoldsOnce(input, ReadData(input, pos).next, d[1..], e[1..], m, n);
      assert d == [d[0]] + d[1..] && e == [e[0]] + e[1..];
    }
  }

  const EOI := 0xD9

  lemma {:induction false} ChainOnce(input: seq<byte>, a: seq<seq<byte>>, b: seq<seq<byte>>, s: nat, pos: nat)
    requires Chain(input, a, s, pos, EOI) && Chain(input, b, s, pos, EOI)
    ensures |a| == |b| && forall t | s <= t < |a| :: a[t] == b[t]
    decreases |a| - s
  {
    hide Holds, Ending;
    HoldsOnce(input, pos, a[s], b[s], MarkerBehind(|a|, s, EOI), MarkerBehind(|b|, s, EOI));
    if s + 1 < |a| { ChainOnce(input, a, b, s + 1, Ending(input, pos).next); }
  }

  /** The bytes of a scan determine its segments: none could be divided in another way. */
  lemma SegmentsDetermined(a: seq<seq<byte>>, b: seq<seq<byte>>)
    requires |a| > 0 && |b| > 0 && Scan(a) == Scan(b)
    ensures a == b
  {
    hide Chain, Scan, MarkerBytes, Restarted;
    ScanChain(a, 0, EOI, [], 0);
    ScanChain(b, 0, EOI, [], 0);
    NothingRestarted(a);
    NothingRestarted(b);
    ChainOnce(Scan(a) + MarkerBytes(0, EOI) + [], a, b, 0, 0);
  }

  /** So the bytes alone tell which segments hold what they should: exactly those whose bits
      fit when they are flushed. */
  method EncodesExactly(l: Layout, mcus: seq<Mcu>, interval: nat, dc: seq<EncoderTable>, ac: seq<EncoderTable>, ghost books: Books)
    returns (bytes: seq<byte>)
    requires Laid(l, mcus) && TablesOf(l, dc, ac, books) && AllFine(l, mcus, interval, books)
    ensures exists segments :: |segments| > 0 && Scan(segments) == bytes
    ensures forall segments | |segments| > 0 && Scan(segments) == bytes ::
              Enough(|mcus|, interval, |segments|) && HoldIfFit(l, mcus, interval, books, segments)
  {
    hide TablesOf, AllFine, Scan, Enough, HoldIfFit;
    ghost var made;
    bytes, made := EncodeScan(l, mcus, interval, dc, ac, books);
    forall segments | |segments| > 0 && Scan(segments) == bytes ensures segments == made { SegmentsDetermined(segments, made); }
  }

  /** The markers between the segments run modulo 8, and each ends its segment. */
  lemma {:induction false} MarkersCycle(input: seq<byte>, segments: seq<seq<byte>>, s: nat, pos: nat, marker: byte, t: nat)
    returns (at: nat)
    requires Chain(input, segments, s, pos, marker) && s <= t && t + 1 < |segments|
    ensures Holds(input, at, segments[t], (RST0 + t % 8) as byte)
    decreases t - s
  {
    hide Holds, Ending;
    if s < t {
      at := MarkersCycle(input, segments, s + 1, Ending(input, pos).next, marker, t);
    } else {
      RestartNumIs(s);
      at := pos;
    }
  }

  lemma RestartedNext(segments: seq<seq<byte>>, s: nat)
    requires s < |segments|
    ensures var code := (RST0 + RestartNum(s)) as byte;
            && Restarted(segments, s + 1) == Restarted(segments, s) + (Stuff(segments[s]) + MarkerBytes(0, code))
            && |Restarted(segments, s + 1)| == |Restarted(segments, s) + Stuff(segments[s])| + 2
  {
    hide Stuff;
    var code := (RST0 + RestartNum(s)) as byte;
    assert MarkerBytes(0, code) == [255, code];
  }

  lemma NothingRestarted(segments: seq<seq<byte>>)
    ensures Restarted(segments, 0) == []
  {
  }

  // ------------------------------------------------------------------- decoding

  /** What is fixed while a scan is decoded. */
  datatype Setting = Setting(t: Tables, mcus: seq<Mcu>, interval: nat, books: Books, input: seq<byte>,
                             segments: seq<seq<byte>>, marker: byte)
  {
    ghost predicate Valid() {
      && t.Valid() && HasTables(t, books) && Laid(t.l, mcus) && AllFine(t.l, mcus, interval, books)
      && Enough(|mcus|, interval, |segments|) && (interval == 0 ==> NoFill(input, 0))
      && forall s: nat | s < |segments| :: SegmentHolds(t.l, mcus, interval, books, s, segments[s])
    }

    ghost function End(s: nat): nat {
      if SegmentStart(interval, s) <= |mcus| then SegmentEnd(interval, |mcus|, SegmentStart(interval, s)) else 0
    }
  }

  /** Segment `s` is in the input at `pos`. */
  ghost predicate There(x: Setting, s: nat, pos: nat) {
    s < |x.segments| && Ending(x.input, pos).Marker? && Holds(x.input, pos, x.segments[s], Ending(x.input, pos).code)
  }

  /** At the start of segment `s`, its MCUs stand ahead. */
  lemma SegmentAhead(x: Setting, s: nat, pos: nat)
    requires x.Valid() && There(x, s, pos)
    ensures SegmentStart(x.interval, s) <= |x.mcus|
    ensures var start, stream := SegmentStart(x.interval, s), Coming(x.input, pos);
            && Ahead(x.books, stream, 0, BasePlan(x.t.l, x.mcus, x.End(s), start, 0, Zero(x.t.l)))
            && AllCodable(x.books, BasePlan(x.t.l, x.mcus, x.End(s), start, 0, Zero(x.t.l)))
            && InRange(x.t.l, x.mcus, x.End(s), start, 0, Zero(x.t.l))
  {
    hide Ahead, AllCodable, BasePlan, InRange, Holds, PaddedBytes, Spell, HasTables, Tables.Valid;
    var start, d := SegmentStart(x.interval, s), x.segments[s];
    assert SegmentHolds(x.t.l, x.mcus, x.interval, x.books, s, d);
    ComingIs(x.input, pos, d, Ending(x.input, pos).code);
    EventsAhead(x.books, Segment(x.t.l, x.mcus, x.interval, start), d, Coming(x.input, pos));
  }

  /** The decoder stands before MCU `i`, in segment `s`: both counters agree with that. */
  ghost predicate Placed(x: Setting, decoder: HuffmanDecoder, i: nat, s: nat)
    requires x.Valid()
    reads decoder, decoder.reader
  {
    && decoder.Ready() && decoder.t == x.t && decoder.restartInterval == x.interval
    && decoder.reader.input == x.input && decoder.reader.available == |x.input| && decoder.reader.Settled()
    && s < |x.segments| && SegmentStart(x.interval, s) <= i <= x.End(s) <= |x.mcus| && decoder.nextRestartNum == RestartNum(s)
    && (x.interval == 0 ==> s == 0 && decoder.reader.plain)
    && (x.interval > 0 ==> decoder.restartsToGo == x.interval - (i - SegmentStart(x.interval, s)))
  }

  /** And what is left of that segment, which begins at `pos`, stands ahead. */
  ghost predicate InSegment(x: Setting, decoder: HuffmanDecoder, i: nat, s: nat, pos: nat)
    requires x.Valid()
    reads decoder, decoder.reader
  {
    && Placed(x, decoder, i, s) && !decoder.reader.insufficientData
    && decoder.reader.stream == Coming(x.input, pos) && decoder.reader.ending == Ending(x.input, pos)
    && InRange(x.t.l, x.mcus, x.End(s), i, 0, decoder.lastDcVal)
    && Ahead(x.books, decoder.reader.stream, decoder.reader.savedAt, BasePlan(x.t.l, x.mcus, x.End(s), i, 0, decoder.lastDcVal))
    && AllCodable(x.books, BasePlan(x.t.l, x.mcus, x.End(s), i, 0, decoder.lastDcVal))
  }

  /** And all the others are behind it. */
  ghost predicate Standing(x: Setting, decoder: HuffmanDecoder, i: nat, s: nat, pos: nat)
    requires x.Valid()
    reads decoder, decoder.reader
  {
    InSegment(x, decoder, i, s, pos) && Chain(x.input, x.segments, s, pos, x.marker)
  }

  /** A restart marker is due only at the end of a segment that is not the last. */
  lemma DueAtEnd(x: Setting, decoder: HuffmanDecoder, i: nat, s: nat)
    requires x.Valid() && Placed(x, decoder, i, s) && i < |x.mcus|
    ensures decoder.RestartDue() ==> s + 1 < |x.segments| && i == SegmentStart(x.interval, s + 1) < x.End(s + 1)
    ensures !decoder.RestartDue() ==> i < x.End(s)
  {
    hide Ahead, AllCodable, BasePlan, InRange, Holds, Tables.Valid, HasTables, SegmentHolds, AllFine, Reader.Saved, Reader.Settled,
         NoFill;
  }

  /** Then it is there, if nothing is missing. */
  lemma MarkerDue(x: Setting, decoder: HuffmanDecoder, i: nat, s: nat, pos: nat)
    requires x.Valid() && Standing(x, decoder, i, s, pos) && i < |x.mcus| && decoder.RestartDue()
    ensures decoder.reader.ending.Marker? && decoder.Recovery() == GoOn(decoder.reader.ending.next)
    ensures var next := decoder.reader.ending.next; There(x, s + 1, next) && Chain(x.input, x.segments, s + 1, next, x.marker)
  {
    hide Ahead, AllCodable, BasePlan, InRange, Holds, Tables.Valid, HasTables, SegmentHolds, AllFine, Reader.Saved, Reader.Settled,
         NoFill, Ending;
    DueAtEnd(x, decoder, i, s);
    ChainThere(x, s + 1, decoder.reader.ending.next);
  }

  lemma ChainThere(x: Setting, s: nat, pos: nat)
    requires Chain(x.input, x.segments, s, pos, x.marker)
    ensures There(x, s, pos)
  {
    hide Holds, Ending;
  }

  /** The tables of the decoder make the MCUs that stand ahead valid. */
  lemma SoundAhead(x: Setting, decoder: HuffmanDecoder, i: nat, s: nat, pos: nat)
    requires x.Valid() && InSegment(x, decoder, i, s, pos) && i < x.End(s)
    ensures decoder.Sound()
  {
    hide Ahead, AllCodable, BasePlan, InRange, Holds, Tables.Valid, HasTables, SegmentHolds, AllFine, Reader.Saved, Reader.Settled,
         NoFill, McuSound, McuRun;
    McuDecoded(x.t, x.books, x.mcus, x.End(s), i, decoder.reader.stream, decoder.reader.savedAt, decoder.lastDcVal, |x.t.l.members|);
  }

  method BlankArrays(n: nat) returns (data: seq<array<int>>)
    ensures |data| == n && Apart(data) && Contents(data) == Blank(n)
    ensures forall j | 0 <= j < n :: fresh(data[j]) && data[j].Length == 64
  {
    data := [];
    for j := 0 to n
      invariant |data| == j && Apart(data)
      invariant forall k | 0 <= k < j :: fresh(data[k]) && data[k].Length == 64 && data[k][..] == seq(64, _ => 0)
    {
      var block := new int[64](_ => 0);
      data := data + [block];
    }
  }

  /** One MCU: `next` and `begin` are the number of its segment and where that begins, behind a
      restart if one is due.  If the segment is there, the MCU comes back; if it is lost, the
      decoder stays at the marker it has met. */
  method DecodeAt(decoder: HuffmanDecoder, ghost x: Setting, ghost i: nat, ghost s: nat, ghost next: nat, ghost begin: nat, ghost there: bool)
    returns (result: seq<seq<int>>)
    requires x.Valid() && Placed(x, decoder, i, s) && i < |x.mcus| && next == if decoder.RestartDue() then s + 1 else s
    requires there ==> if decoder.RestartDue() then There(x, next, begin) && decoder.Recovery() == GoOn(begin)
                       else InSegment(x, decoder, i, s, begin)
    requires !there ==> x.interval > 0 && (decoder.RestartDue() ==> decoder.Recovery().Stay?)
    modifies decoder, decoder.reader
    ensures there ==> result == x.mcus[i] && InSegment(x, decoder, i + 1, next, begin)
    ensures !there ==> Placed(x, decoder, i + 1, next)
                       && decoder.reader.ending == if old(decoder.RestartDue()) then NextEnding(x.input, old(decoder.Recovery()))
                                                   else old(decoder.reader.ending)
  {
    hide Ahead, AllCodable, BasePlan, InRange, Holds, Tables.Valid, HasTables, SegmentHolds, AllFine, Reader.Saved, Reader.Settled,
         NoFill, McuSound, McuRun, Stored, PartlyStored, Contents, Enough, Ending, Coming, Recovered;
    DueAtEnd(x, decoder, i, s);
    if there {
      if next != s { SegmentAhead(x, next, begin); } else { SoundAhead(x, decoder, i, s, begin); }
    }
    ghost var from, last := if next == s then decoder.reader.savedAt else 0, if next == s then decoder.lastDcVal else Zero(x.t.l);
    var data := BlankArrays(|decoder.t.l.members|);
    var ok;
    ghost var goal;
    ok, goal := decoder.DecodeMcu(data);
    result := Gathered(data);
    if there {
      WholeMcu(x.t, x.books, x.mcus, x.End(next), i, Coming(x.input, begin), from, last, result);
      NotPast(x, decoder, i, next);
    }
  }

  /** One MCU: it comes back, and the decoder stands before the next, behind a restart marker
      if there was one. */
  method DecodeOne(decoder: HuffmanDecoder, ghost x: Setting, ghost i: nat, ghost s: nat, ghost pos: nat)
    returns (result: seq<seq<int>>, ghost s': nat, ghost pos': nat)
    requires x.Valid() && Standing(x, decoder, i, s, pos) && i < |x.mcus|
    modifies decoder, decoder.reader
    ensures result == x.mcus[i] && Standing(x, decoder, i + 1, s', pos')
  {
    hide InSegment, Placed, Chain, Tables.Valid, HasTables, SegmentHolds, AllFine, Enough, There;
    s', pos' := s, pos;
    InStanding(x, decoder, i, s, pos);
    if decoder.RestartDue() {
      MarkerDue(x, decoder, i, s, pos);
      s', pos' := s + 1, decoder.reader.ending.next;
    }
    result := DecodeAt(decoder, x, i, s, s', pos', true);
  }

  lemma InStanding(x: Setting, decoder: HuffmanDecoder, i: nat, s: nat, pos: nat)
    requires x.Valid() && Standing(x, decoder, i, s, pos)
    ensures Placed(x, decoder, i, s)
  {
  }

  method Gathered(data: seq<array<int>>) returns (result: seq<seq<int>>)
    ensures result == Contents(data)
  {
    result := [];
    for j := 0 to |data|
      invariant |result| == j && forall k | 0 <= k < j :: result[k] == data[k][..]
    {
      result := result + [data[j][..]];
    }
  }

  /** What stands ahead lies inside the stream. */
  lemma NotPast(x: Setting, decoder: HuffmanDecoder, i: nat, s: nat)
    requires x.Valid() && i < x.End(s) <= |x.mcus| && |decoder.lastDcVal| == |x.t.l.dcTables|
    requires Ahead(x.books, decoder.reader.stream, decoder.reader.savedAt,
                   BasePlan(x.t.l, x.mcus, x.End(s), i + 1, 0, decoder.lastDcVal))
    ensures decoder.reader.savedAt <= |decoder.reader.stream|
  {
    hide BasePlan;
    AheadBound(x.books, decoder.reader.stream, decoder.reader.savedAt, BasePlan(x.t.l, x.mcus, x.End(s), i + 1, 0, decoder.lastDcVal));
  }

  /** All MCUs of a scan. */
  method DecodeScan(t: Tables, interval: nat, n: nat, input: seq<byte>, ghost x: Setting) returns (result: seq<Mcu>)
    requires x.Valid() && x.t == t && x.interval == interval && n == |x.mcus| && x.input == input
    requires Chain(input, x.segments, 0, 0, x.marker)
    ensures result == x.mcus
  {
    hide Ahead, AllCodable, BasePlan, InRange, Holds, Tables.Valid, HasTables, SegmentHolds, AllFine, Reader.Saved,
         NoFill, Enough, Ending, Coming;
    var reader := new Reader(input, |input|);
    var decoder := new HuffmanDecoder(reader, t, interval);
    ghost var s, pos := 0, 0;
    ChainThere(x, 0, 0);
    SegmentAhead(x, 0, 0);
    result := [];
    for i := 0 to n
      invariant Standing(x, decoder, i, s, pos) && fresh(decoder) && fresh(decoder.reader)
      invariant |result| == i && forall j | 0 <= j < i :: result[j] == x.mcus[j]
    {
      var mcu;
      mcu, s, pos := DecodeOne(decoder, x, i, s, pos);
      var blocks := AsBlocks(mcu, x.mcus[i]);
      result := result + [blocks];
    }
  }

  method AsBlocks(mcu: seq<seq<int>>, ghost same: Mcu) returns (blocks: Mcu)
    requires mcu == same
    ensures blocks == same
  {
    blocks := [];
    for j := 0 to |mcu|
      invariant blocks == same[..j]
    {
      var b: Block := mcu[j];
      blocks := blocks + [b];
    }
  }

  /** Every scan whose segments fit when they are flushed comes back, for every restart
      interval, whatever marker follows. */
  method RoundTrip(t: Tables, mcus: seq<Mcu>, interval: nat, dc: seq<EncoderTable>, ac: seq<EncoderTable>, ghost books: Books,
                   fill: nat, marker: byte, tail: seq<byte>)
    returns (decoded: seq<Mcu>)
    requires t.Valid() && Laid(t.l, mcus) && TablesOf(t.l, dc, ac, books) && HasTables(t, books)
    requires AllFine(t.l, mcus, interval, books) && marker != 0 && marker != 0xFF
    requires forall s: nat | SegmentStart(interval, s) <= |mcus| :: SegmentFits(t.l, mcus, interval, books, s)
    ensures decoded == mcus
  {
    hide Holds, Tables.Valid, HasTables, SegmentHolds, SegmentFits, AllFine, TablesOf, NoFill, Chain, Scan, MarkerBytes;
    var bytes;
    ghost var segments;
    bytes, segments := EncodeScan(t.l, mcus, interval, dc, ac, books);
    var input := bytes + MarkerBytes(fill, marker) + tail;
    ScanChain(segments, fill, marker, tail, 0);
    AllSegmentsHold(t.l, mcus, interval, books, segments);
    NothingRestarted(segments);
    decoded := DecodeScan(t, interval, |mcus|, input, Setting(t, mcus, interval, books, input, segments, marker));
  }

  lemma AllSegmentsHold(l: Layout, mcus: seq<Mcu>, interval: nat, books: Books, segments: seq<seq<byte>>)
    requires Laid(l, mcus) && HoldIfFit(l, mcus, interval, books, segments) && Enough(|mcus|, interval, |segments|)
    requires forall s: nat | SegmentStart(interval, s) <= |mcus| :: SegmentFits(l, mcus, interval, books, s)
    ensures forall s: nat | s < |segments| :: SegmentHolds(l, mcus, interval, books, s, segments[s])
  {
    hide SegmentHolds, SegmentFits;
    forall s: nat | s < |segments| ensures SegmentHolds(l, mcus, interval, books, s, segments[s]) {
      StartsGrow(interval, s, |segments| - 1);
    }
  }

  lemma {:induction false} StartsGrow(interval: nat, m: nat, n: nat)
    requires m <= n
    ensures SegmentStart(interval, m) <= SegmentStart(interval, n)
    decreases n
  {
    if m < n { StartsGrow(interval, m, n - 1); }
  }

  /** With short codes at the ends of blocks that is always so. */
  method ShortRoundTrip(t: Tables, mcus: seq<Mcu>, interval: nat, dc: seq<EncoderTable>, ac: seq<EncoderTable>, ghost books: Books,
                        fill: nat, marker: byte, tail: seq<byte>)
    returns (decoded: seq<Mcu>)
    requires t.Valid() && Laid(t.l, mcus) && TablesOf(t.l, dc, ac, books) && HasTables(t, books)
    requires AllFine(t.l, mcus, interval, books) && marker != 0 && marker != 0xFF
    requires ShortEnds(t.l, books)
    ensures decoded == mcus
  {
    hide HasTables, Tables.Valid, SegmentFits, AllFine, TablesOf, ShortEnds;
    forall s: nat | SegmentStart(interval, s) <= |mcus| ensures SegmentFits(t.l, mcus, interval, books, s) {
      ShortEndsFit(t.l, mcus, interval, books, s);
    }
    decoded := RoundTrip(t, mcus, interval, dc, ac, books, fill, marker, tail);
  }
}
