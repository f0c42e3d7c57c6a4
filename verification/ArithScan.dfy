/** A sequential arithmetic-coded scan with restart markers is decoded to what was encoded. */
module ArithScan {
  import opened JpegLimits
  import opened Segments
  import opened Shifts
  import opened QmInterval
  import opened Wrappers
  import opened EntropySource
  import opened Resync
  import opened ArithModel
  import opened ArithEncoder
  import opened ArithDecoder
  import opened ArithMcuEncoder
  import opened ArithMcuDecoder
  import opened HuffScan
  import opened Restarts
  import HuffEncoder

  type ArithMcu = seq<seq<int>>

  ghost predicate AllBlocks(scan: Scan, mcus: seq<ArithMcu>) {
    scan.Valid() && forall m | m in mcus :: Blocks(scan, m)
  }

  /** The MCUs of segment `s`. */
  function Slice(mcus: seq<ArithMcu>, interval: nat, s: nat): seq<ArithMcu>
    requires SegmentStart(interval, s) <= |mcus|
  {
    mcus[SegmentStart(interval, s)..SegmentEnd(interval, |mcus|, SegmentStart(interval, s))]
  }

  /** The decisions of segment `s`, from its MCU number `i` on. */
  function Rest(scan: Scan, p: Predictor, mcus: seq<ArithMcu>, interval: nat, s: nat, i: nat): Plan
    requires AllBlocks(scan, mcus) && Fits(scan, p)
    requires SegmentStart(interval, s) <= |mcus| && i <= |Slice(mcus, interval, s)|
  {
    SegmentDecisions(scan, p, Slice(mcus, interval, s), i)
  }

  /** The next MCU of the segment, and what is behind it. */
  lemma RestIs(scan: Scan, p: Predictor, mcus: seq<ArithMcu>, interval: nat, s: nat, i: nat)
    requires AllBlocks(scan, mcus) && Fits(scan, p)
    requires SegmentStart(interval, s) <= i < |mcus| && i < SegmentEnd(interval, |mcus|, SegmentStart(interval, s))
    ensures var j := i - SegmentStart(interval, s);
            && j < |Slice(mcus, interval, s)| && Slice(mcus, interval, s)[j] == mcus[i]
            && Rest(scan, p, mcus, interval, s, j)
               == McuDecisions(scan, p, mcus[i], 0, Rest(scan, McuPredictor(scan, p, mcus[i], 0), mcus, interval, s, j + 1))
  {
    hide McuDecisions, McuPredictor;
  }

  /** Where all the decisions of segment `s` lead, from no statistics. */
  function Goal(scan: Scan, mcus: seq<ArithMcu>, interval: nat, s: nat): (goal: Coding)
    requires AllBlocks(scan, mcus) && SegmentStart(interval, s) <= |mcus|
    ensures Normal(goal.iv)
  {
    Run(START, Rest(scan, Start(scan), mcus, interval, s, 0))
  }

  /** `d` denotes the final interval of segment `s`. */
  ghost predicate SegmentEnding(scan: Scan, mcus: seq<ArithMcu>, interval: nat, s: nat, d: seq<byte>)
    requires AllBlocks(scan, mcus)
  {
    SegmentStart(interval, s) <= |mcus| && exists k: nat :: EndsAt(d, Goal(scan, mcus, interval, s).iv, k)
  }

  ghost predicate AllEnding(scan: Scan, mcus: seq<ArithMcu>, interval: nat, segments: seq<seq<byte>>)
    requires AllBlocks(scan, mcus)
  {
    forall s: nat | s < |segments| :: SegmentEnding(scan, mcus, interval, s, segments[s])
  }

  /** No coefficient and no difference within a segment is larger than 2^15 in magnitude. */
  ghost predicate ScanCodable(scan: Scan, mcus: seq<ArithMcu>, interval: nat)
    requires AllBlocks(scan, mcus)
  {
    forall s: nat | SegmentStart(interval, s) <= |mcus| :: ArithModel.SegmentCodable(scan, Start(scan), Slice(mcus, interval, s), 0)
  }

  /** One MCU further, behind a restart marker if one was due. */
  lemma CountedOn(n: nat, interval: nat, s: nat, i: nat, togo: int, num: nat)
    requires InCount(n, interval, s, i, togo, num) && i < n
    ensures interval != 0 && togo == 0 ==> InCount(n, interval, s + 1, i + 1, interval - 1, (num + 1) % 8)
    ensures interval == 0 || togo != 0 ==>
              InCount(n, interval, s, i + 1, togo - (if interval != 0 then 1 else 0), num)
              && i < SegmentEnd(interval, n, SegmentStart(interval, s))
  {
  }

  lemma OneMoreEnds(scan: Scan, mcus: seq<ArithMcu>, interval: nat, segments: seq<seq<byte>>, d: seq<byte>, k: nat)
    requires AllBlocks(scan, mcus) && AllEnding(scan, mcus, interval, segments)
    requires SegmentStart(interval, |segments|) <= |mcus| && EndsAt(d, Goal(scan, mcus, interval, |segments|).iv, k)
    ensures AllEnding(scan, mcus, interval, segments + [d])
  {
    hide EndsAt, Goal;
    assert SegmentEnding(scan, mcus, interval, |segments|, d);
  }

  // ------------------------------------------------------------------- encoding

  /** Before MCU `i`: the segments that are complete, and the rest of the current one to come. */
  ghost predicate Encoding(encoder: McuEncoder, mcus: seq<ArithMcu>, i: nat, segments: seq<seq<byte>>)
    requires AllBlocks(encoder.scan, mcus)
    reads encoder, encoder.coder
  {
    var interval, s := encoder.restartInterval, |segments|;
    && encoder.Valid() && InCount(|mcus|, interval, s, i, encoder.restartsToGo, encoder.nextRestartNum)
    && AllEnding(encoder.scan, mcus, interval, segments) && encoder.coder.earlier == HuffEncoder.Restarted(segments, s)
    && Run(encoder.coder.State(), Rest(encoder.scan, encoder.Prediction(), mcus, interval, s, i - SegmentStart(interval, s)))
       == Goal(encoder.scan, mcus, interval, s)
  }

  /** At the end of a segment the coder stands where its decisions lead. */
  lemma SegmentCoded(encoder: McuEncoder, mcus: seq<ArithMcu>, i: nat, segments: seq<seq<byte>>)
    requires AllBlocks(encoder.scan, mcus) && Encoding(encoder, mcus, i, segments)
    requires i == SegmentEnd(encoder.restartInterval, |mcus|, SegmentStart(encoder.restartInterval, |segments|))
    ensures encoder.coder.State() == Goal(encoder.scan, mcus, encoder.restartInterval, |segments|)
  {
    hide Encoder.Valid, Encoder.State, McuDecisions, McuPredictor, EndsAt, Goal;
  }

  /** Before the MCU that follows it, the counters having been moved on already. */
  ghost predicate Entering(encoder: McuEncoder, mcus: seq<ArithMcu>, i: nat, segments: seq<seq<byte>>)
    requires AllBlocks(encoder.scan, mcus)
    reads encoder, encoder.coder
  {
    var interval, s := encoder.restartInterval, |segments|;
    && encoder.Valid() && InCount(|mcus|, interval, s, i + 1, encoder.restartsToGo, encoder.nextRestartNum)
    && SegmentStart(interval, s) <= i < SegmentEnd(interval, |mcus|, SegmentStart(interval, s))
    && AllEnding(encoder.scan, mcus, interval, segments) && encoder.coder.earlier == HuffEncoder.Restarted(segments, s)
    && Run(encoder.coder.State(), Rest(encoder.scan, encoder.Prediction(), mcus, interval, s, i - SegmentStart(interval, s)))
       == Goal(encoder.scan, mcus, interval, s)
  }

  /** The restart before MCU `i`, if one is due. */
  method RestartIfDue(encoder: McuEncoder, ghost mcus: seq<ArithMcu>, ghost i: nat, ghost segments: seq<seq<byte>>)
    returns (ghost complete: seq<seq<byte>>)
    requires AllBlocks(encoder.scan, mcus) && i < |mcus| && Encoding(encoder, mcus, i, segments)
    modifies encoder, encoder.coder
    ensures Entering(encoder, mcus, i, complete)
  {
    hide Encoder.Valid, Encoder.State, SegmentDecisions, EndsAt, Goal, AllEnding, Stuff, Slice;
    ghost var interval := encoder.restartInterval;
    CountedOn(|mcus|, interval, |segments|, i, encoder.restartsToGo, encoder.nextRestartNum);
    DueThen(|mcus|, interval, |segments|, i, encoder.restartsToGo, encoder.nextRestartNum);
    ghost var due := interval != 0 && encoder.restartsToGo == 0;
    if due {
      SegmentCoded(encoder, mcus, i, segments);
    }
    ghost var d, k := encoder.Restart();
    complete := segments;
    if due {
      OneMoreEnds(encoder.scan, mcus, interval, segments, d, k);
      HuffEncoder.RestartedPrefix(segments, d, |segments|);
      complete := segments + [d];
      GoalIs(encoder.scan, mcus, interval, |complete|);
    }
  }

  lemma GoalIs(scan: Scan, mcus: seq<ArithMcu>, interval: nat, s: nat)
    requires AllBlocks(scan, mcus) && SegmentStart(interval, s) <= |mcus|
    ensures Run(START, Rest(scan, Start(scan), mcus, interval, s, 0)) == Goal(scan, mcus, interval, s)
  {
  }

  /** One MCU, with the restart before it. */
  method EncodeOne(encoder: McuEncoder, mcu: ArithMcu, ghost mcus: seq<ArithMcu>, ghost i: nat, ghost segments: seq<seq<byte>>)
    returns (ghost complete: seq<seq<byte>>)
    requires AllBlocks(encoder.scan, mcus) && i < |mcus| && mcu == mcus[i] && Encoding(encoder, mcus, i, segments)
    modifies encoder, encoder.coder
    ensures Encoding(encoder, mcus, i + 1, complete)
  {
    hide Encoder.Valid, Encoder.State, McuDecisions, McuPredictor, EndsAt, Goal, AllEnding, Stuff, HuffEncoder.Restarted,
         InCount, Rest;
    complete := RestartIfDue(encoder, mcus, i, segments);
    ghost var j := i - SegmentStart(encoder.restartInterval, |complete|);
    RestIs(encoder.scan, encoder.Prediction(), mcus, encoder.restartInterval, |complete|, i);
    ghost var next := McuPredictor(encoder.scan, encoder.Prediction(), mcu, 0);
    encoder.EncodeMcu(mcu, Rest(encoder.scan, next, mcus, encoder.restartInterval, |complete|, j + 1));
  }

  /** The bytes of a scan: all segments, each denoting the interval of its decisions. */
  method EncodeScan(scan: Scan, mcus: seq<ArithMcu>, interval: nat)
    returns (bytes: seq<byte>, ghost segments: seq<seq<byte>>)
    requires AllBlocks(scan, mcus)
    ensures Divided(|mcus|, interval, |segments|) && bytes == HuffEncoder.Scan(segments)
    ensures AllEnding(scan, mcus, interval, segments)
  {
    hide Encoder.Valid, Encoder.State, McuDecisions, McuPredictor, EndsAt, Stuff, AllEnding;
    var encoder := new McuEncoder(scan, interval);
    segments := [];
    assert AllEnding(scan, mcus, interval, []) by { NothingEnds(scan, mcus, interval); }
    for i := 0 to |mcus|
      invariant fresh(encoder) && fresh(encoder.coder) && encoder.scan == scan && encoder.restartInterval == interval
      invariant Encoding(encoder, mcus, i, segments)
    {
      segments := EncodeOne(encoder, mcus[i], mcus, i, segments);
    }
    AtLast(|mcus|, interval, |segments|, encoder.restartsToGo, encoder.nextRestartNum);
    SegmentCoded(encoder, mcus, |mcus|, segments);
    ghost var k := encoder.coder.FinishPass();
    ghost var d := encoder.coder.data;
    OneMoreEnds(scan, mcus, interval, segments, d, k);
    HuffEncoder.RestartedPrefix(segments, d, |segments|);
    bytes, segments := encoder.coder.output, segments + [d];
  }

  lemma NothingEnds(scan: Scan, mcus: seq<ArithMcu>, interval: nat)
    requires AllBlocks(scan, mcus)
    ensures AllEnding(scan, mcus, interval, [])
  {
  }

  // ------------------------------------------------------------------- decoding

  /** What is fixed while a scan is decoded. */
  datatype Source = Source(scan: Scan, mcus: seq<ArithMcu>, interval: nat, input: seq<byte>, segments: seq<seq<byte>>,
                           marker: byte)
  {
    ghost predicate Valid() {
      && AllBlocks(scan, mcus) && ScanCodable(scan, mcus, interval)
      && Divided(|mcus|, interval, |segments|) && AllEnding(scan, mcus, interval, segments)
    }

    /** The data of segment `s` and the marker behind it. */
    ghost predicate Here(coder: Decoder, s: nat, pos: nat)
      reads coder
    {
      && Chain(input, segments, s, pos, marker) && coder.input == input && coder.Met() == Ending(input, pos)
    }
  }

  /** The decoder stands before MCU `i`, in segment `s`, which begins at `pos`. */
  ghost predicate Decoding(x: Source, decoder: McuDecoder, i: nat, s: nat, pos: nat)
    requires x.Valid()
    reads decoder, decoder.coder
  {
    && decoder.scan == x.scan && decoder.restartInterval == x.interval && decoder.Valid()
    && InCount(|x.mcus|, x.interval, s, i, decoder.restartsToGo, decoder.nextRestartNum)
    && x.Here(decoder.coder, s, pos)
    && Ready(x, decoder, i - SegmentStart(x.interval, s), s)
  }

  /** It expects what is left of the segment from its MCU number `j` on. */
  ghost predicate Ready(x: Source, decoder: McuDecoder, j: nat, s: nat)
    requires x.Valid()
    reads decoder, decoder.coder
  {
    && Fits(x.scan, decoder.Prediction()) && SegmentStart(x.interval, s) <= |x.mcus| && j <= |Slice(x.mcus, x.interval, s)|
    && decoder.coder.Expecting()
    && decoder.coder.pending == Rest(x.scan, decoder.Prediction(), x.mcus, x.interval, s, j)
    && ArithModel.SegmentCodable(x.scan, decoder.Prediction(), Slice(x.mcus, x.interval, s), j)
  }

  /** At the start of segment `s`. */
  ghost method Prepare(x: Source, decoder: McuDecoder, s: nat)
    requires x.Valid() && s < |x.segments| && decoder.scan == x.scan && decoder.Prediction() == Start(x.scan)
    requires decoder.coder.Valid() && decoder.coder.State() == START && decoder.coder.OnSegment()
    requires decoder.coder.segment == x.segments[s]
    modifies decoder.coder`pending, decoder.coder`reach, decoder.coder`goal
    ensures Ready(x, decoder, 0, s)
  {
    hide Decoder.Valid, Decoder.Expecting, Decoder.State, Decoder.OnSegment, EndsAt, SegmentDecisions, ArithModel.SegmentCodable, Divided;
    assert SegmentEnding(x.scan, x.mcus, x.interval, s, x.segments[s]);
    var k: nat :| EndsAt(x.segments[s], Goal(x.scan, x.mcus, x.interval, s).iv, k);
    decoder.coder.Expect(Rest(x.scan, Start(x.scan), x.mcus, x.interval, s, 0), k);
  }

  /** When a restart marker is due it is there, with the expected number. */
  lemma MarkerDue(x: Source, decoder: McuDecoder, i: nat, s: nat, pos: nat)
    requires x.Valid() && Decoding(x, decoder, i, s, pos) && i < |x.mcus| && decoder.RestartDue()
    ensures s + 1 < |x.segments| && i == SegmentStart(x.interval, s + 1) && decoder.nextRestartNum < 8
    ensures decoder.coder.Met().Marker? && decoder.Recovery() == GoOn(decoder.coder.Met().next)
    ensures Chain(x.input, x.segments, s + 1, decoder.coder.Met().next, x.marker)
    ensures var m := MarkerBehind(|x.segments|, s + 1, x.marker);
            m != 0 && Holds(x.input, decoder.coder.Met().next, x.segments[s + 1], m)
  {
    hide Holds, ScanCodable, AllEnding, AllBlocks, Rest, ArithModel.SegmentCodable, Ending;
    DueThen(|x.mcus|, x.interval, s, i, decoder.restartsToGo, decoder.nextRestartNum);
  }

  /** One MCU, with the restart before it: it comes back. */
  method DecodeOne(decoder: McuDecoder, ghost x: Source, ghost i: nat, ghost s: nat, ghost pos: nat)
    returns (result: ArithMcu, ghost s': nat, ghost pos': nat)
    requires x.Valid() && Decoding(x, decoder, i, s, pos) && i < |x.mcus|
    modifies decoder, decoder.coder
    ensures result == x.mcus[i] && Decoding(x, decoder, i + 1, s', pos')
  {
    hide Decoder.Valid, Decoder.Expecting, Decoder.State, Decoder.OnSegment, EndsAt, Holds, Ending, McuDecisions, McuPredictor,
         Codable, ScanCodable, AllEnding, Divided, Chain, Rest, Slice;
    CountedOn(|x.mcus|, x.interval, s, i, decoder.restartsToGo, decoder.nextRestartNum);
    s', pos' := s, pos;
    ghost var d, m := [], 0;
    ghost var due := decoder.RestartDue();
    if due {
      MarkerDue(x, decoder, i, s, pos);
      s', pos' := s + 1, decoder.coder.Met().next;
      d, m := x.segments[s'], MarkerBehind(|x.segments|, s', x.marker);
    }
    var ok := decoder.ProcessRestart(d, m);
    if due {
      Prepare(x, decoder, s');
    }
    ghost var next := McuPredictor(x.scan, decoder.Prediction(), x.mcus[i], 0);
    ghost var j := i - SegmentStart(x.interval, s');
    RestIs(x.scan, decoder.Prediction(), x.mcus, x.interval, s', i);
    ghost var bad;
    ok, result, bad := decoder.DecodeMcu(x.mcus[i], Rest(x.scan, next, x.mcus, x.interval, s', j + 1));
  }

  /** All MCUs of a scan. */
  method DecodeScan(scan: Scan, interval: nat, n: nat, input: seq<byte>, ghost x: Source) returns (result: seq<ArithMcu>)
    requires x.Valid() && x.scan == scan && x.interval == interval && n == |x.mcus| && x.input == input
    requires Chain(input, x.segments, 0, 0, x.marker)
    ensures result == x.mcus
  {
    hide Decoder.Valid, Decoder.Expecting, Decoder.State, Decoder.OnSegment, EndsAt, Holds, Ending, SegmentDecisions,
         ArithModel.SegmentCodable, ScanCodable, AllEnding, Divided;
    ghost var d, m := x.segments[0], MarkerBehind(|x.segments|, 0, x.marker);
    var decoder := new McuDecoder(scan, interval, input, d, m);
    Prepare(x, decoder, 0);
    ghost var s, pos := 0, 0;
    result := [];
    for i := 0 to n
      invariant fresh(decoder) && fresh(decoder.coder) && Decoding(x, decoder, i, s, pos)
      invariant |result| == i && forall j | 0 <= j < i :: result[j] == x.mcus[j]
    {
      var mcu;
      mcu, s, pos := DecodeOne(decoder, x, i, s, pos);
      result := result + [mcu];
    }
  }

  /** Whatever MCUs of 16-bit coefficients are coded, with differences of at most 2^15,
      decoding gives them back, for every restart interval; any marker may follow, after
      any number of fill bytes. */
  method RoundTrip(scan: Scan, mcus: seq<ArithMcu>, interval: nat, fill: nat, marker: byte, tail: seq<byte>)
    returns (decoded: seq<ArithMcu>)
    requires AllBlocks(scan, mcus) && ScanCodable(scan, mcus, interval) && marker != 0 && marker != 0xFF
    ensures decoded == mcus
  {
    hide ScanCodable, AllEnding, Chain, HuffEncoder.Scan, MarkerBytes, HuffEncoder.Restarted;
    var bytes;
    ghost var segments;
    bytes, segments := EncodeScan(scan, mcus, interval);
    var input := bytes + MarkerBytes(fill, marker) + tail;
    ScanChain(segments, fill, marker, tail, 0);
    NothingRestarted(segments);
    decoded := DecodeScan(scan, interval, |mcus|, input, Source(scan, mcus, interval, input, segments, marker));
  }
}
