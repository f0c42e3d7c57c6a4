/** `decode_mcu` of jdhuff.c: restart markers, and the choice between the fast and the slow
  path, which come to the same. */
module HuffMcu {
  import opened JpegLimits
  import opened Shifts
  import opened EntropySource
  import opened Resync
  import opened HuffmanTables
  import opened BitReader
  import opened BaseModel
  import opened McuTrace
  import opened FastReader
  import opened HuffDecoder
  import opened FastDecoder
  import opened Wrappers

  class HuffmanDecoder {
    const reader: Reader
    const t: Tables
    const restartInterval: nat
    var lastDcVal: seq<int>      // the saved state
    var restartsToGo: int
    var nextRestartNum: nat

    /** `start_pass_huff_decoder`. */
    constructor (source: Reader, tables: Tables, interval: nat)
      requires source.Saved() && tables.Valid()
      ensures Ready() && reader == source && t == tables && restartInterval == interval
      ensures lastDcVal == Zero(t.l) && restartsToGo == interval && nextRestartNum == 0
    {
      reader, t, restartInterval := source, tables, interval;
      lastDcVal, restartsToGo, nextRestartNum := Zero(tables.l), interval, 0;
    }

    ghost predicate Ready()
      reads this`lastDcVal, this`nextRestartNum, reader
    {
      reader.Saved() && t.Valid() && |lastDcVal| == |t.l.dcTables| && nextRestartNum < 8
    }

    /** What decoding the next MCU should do. */
    ghost function Goal(): Run
      requires Ready()
      reads this`lastDcVal, this`nextRestartNum, reader
    {
      McuRun(t, reader.stream, reader.savedAt, lastDcVal, |t.l.members|)
    }

    ghost predicate Sound()
      requires Ready()
      reads this`lastDcVal, this`nextRestartNum, reader
    {
      McuSound(t, reader.stream, reader.savedAt, lastDcVal, |t.l.members|)
    }

    /** The blocks of an MCU. */
    ghost predicate Blocks(data: seq<array<int>>) {
      Apart(data) && |data| == |t.l.members| && forall j | 0 <= j < |data| :: data[j].Length == 64
    }

    /** `decode_mcu_slow`: on any bits. */
    method DecodeMcuSlow(data: seq<array<int>>) returns (ok: bool)
      requires Ready() && Blocks(data)
      modifies this`lastDcVal, data
      modifies reader`pos, reader`unreadMarker, reader`getBuffer, reader`bitsLeft, reader`insufficientData
      modifies reader`spent, reader`at, reader`savedPos, reader`savedBuffer, reader`savedLeft, reader`savedAt, reader`savedSpent
      ensures Ready()
      ensures ok ==> Stored(old(Contents(data)), Contents(data), old(Goal()).traces)
                     && lastDcVal == old(Goal()).last && reader.savedAt == old(Goal()).at
      ensures !ok ==> PartlyStored(old(Contents(data)), Contents(data), old(Goal()).traces)
                      && lastDcVal == old(lastDcVal) && reader.savedAt == old(reader.savedAt)
      ensures ok && !old(reader.insufficientData) ==> (reader.insufficientData <==> reader.savedAt > |reader.stream|)
      ensures !ok ==> reader.insufficientData == old(reader.insufficientData)
      ensures old(reader.Settled()) ==> ok && reader.Settled()
    {
      hide Reader.Valid, Reader.Saved, Reader.Complete, Reader.Settled, Stored, PartlyStored, McuRun, Tables.Valid;
      reader.Load();
      var state;
      ok, state := DecodeBlocks(reader, t, data, lastDcVal);
      if ok {
        reader.Save();
        PastEnd(reader);
        lastDcVal := state;
      }
    }

    /** `decode_mcu_fast`: on valid codes.  When it fails, because a marker has been fetched,
        everything but the blocks is as before; what is in them does no harm, unless fill
        bytes were taken for a marker. */
    method DecodeMcuFast(data: seq<array<int>>) returns (ok: bool)
      requires Ready() && Blocks(data) && Sound() && reader.unreadMarker == 0
      requires reader.available - reader.savedPos >= BUFSIZE * |data|
      modifies this`lastDcVal, data
      modifies reader`savedPos, reader`savedBuffer, reader`savedLeft, reader`savedAt, reader`savedSpent
      ensures Ready()
      ensures ok ==> Stored(old(Contents(data)), Contents(data), old(Goal()).traces)
                     && lastDcVal == old(Goal()).last && reader.savedAt == old(Goal()).at
      ensures !ok ==> lastDcVal == old(lastDcVal) && unchanged(reader)
                      && (reader.plain ==> Stored(old(Contents(data)), Contents(data), old(Goal()).traces))
      ensures old(reader.Settled()) ==> reader.Settled()
    {
      assert |data| >= 1;
      hide Reader.Saved, Reader.Settled, Stored, McuRun, McuSound, Tables.Valid;
      var state;
      ok, state := FetchMcu(reader, t, data, lastDcVal);
      if ok { lastDcVal := state; }
    }

    /** A restart marker should come before the next MCU. */
    ghost predicate RestartDue()
      reads this`restartsToGo
    {
      restartInterval != 0 && restartsToGo == 0
    }

    /** How decoding goes on then: the marker may be missing, or be another one. */
    ghost function Recovery(): Recovery
      reads this`nextRestartNum, reader`input, reader`ending
    {
      Recovered(reader.input, reader.ending, nextRestartNum)
    }

    /** `process_restart`, whatever is found; a call that has to wait for input changes nothing
        but what is discarded. */
    method ProcessRestart() returns (ok: bool)
      requires Ready()
      modifies this`lastDcVal, this`restartsToGo, this`nextRestartNum, reader
      ensures Ready() && reader.input == old(reader.input) && reader.available == old(reader.available) && reader.savedAt == 0
      ensures ok ==> lastDcVal == Zero(t.l) && restartsToGo == restartInterval && nextRestartNum == (old(nextRestartNum) + 1) % 8
      ensures ok ==> !old(Recovery()).Wait? && reader.stream == NextStream(reader.input, old(Recovery()))
                     && reader.ending == NextEnding(reader.input, old(Recovery()))
      ensures ok ==> if old(Recovery()).GoOn? then reader.unreadMarker == 0 && !reader.insufficientData && reader.savedPos == old(Recovery()).next
                     else reader.unreadMarker != 0 && reader.insufficientData == old(reader.insufficientData)
      ensures !ok ==> lastDcVal == old(lastDcVal) && restartsToGo == old(restartsToGo) && nextRestartNum == old(nextRestartNum)
                      && Recovery() == old(Recovery()) && reader.insufficientData == old(reader.insufficientData)
      ensures !ok ==> reader.available < |reader.input| || Recovery().Wait?
    {
      hide Reader.Saved, Tables.Valid, Recovered;
      ok := reader.Restart(nextRestartNum);
      if ok {
        nextRestartNum := (nextRestartNum + 1) % 8;
        lastDcVal := Zero(t.l);
        restartsToGo := restartInterval;
      }
    }

    /** The fast path is taken when there are no restarts and enough bytes at hand. */
    predicate UseFast()
      reads reader
    {
      restartInterval == 0 && reader.available - reader.savedPos >= BUFSIZE * |t.l.members| && reader.unreadMarker == 0
    }

    /** That is whenever 512 bytes for each block are at hand and no marker has been met. */
    lemma FastWhen()
      ensures UseFast() <==> restartInterval == 0 && reader.unreadMarker == 0 && reader.savedPos + 512 * |t.l.members| <= reader.available
    {
    }

    /** The blocks of an MCU by either path. */
    method DecodeEither(data: seq<array<int>>) returns (ok: bool)
      requires Ready() && Blocks(data) && (UseFast() ==> Sound() && reader.plain)
      modifies this`lastDcVal, data
      modifies reader`pos, reader`unreadMarker, reader`getBuffer, reader`bitsLeft, reader`insufficientData
      modifies reader`spent, reader`at, reader`savedPos, reader`savedBuffer, reader`savedLeft, reader`savedAt, reader`savedSpent
      ensures Ready()
      ensures ok ==> Stored(old(Contents(data)), Contents(data), old(Goal()).traces)
                     && lastDcVal == old(Goal()).last && reader.savedAt == old(Goal()).at
      ensures !ok ==> PartlyStored(old(Contents(data)), Contents(data), old(Goal()).traces)
                      && lastDcVal == old(lastDcVal) && reader.savedAt == old(reader.savedAt)
      ensures ok && !old(reader.insufficientData) ==> (reader.insufficientData <==> reader.savedAt > |reader.stream|)
      ensures !ok ==> reader.insufficientData == old(reader.insufficientData)
      ensures old(reader.Settled()) ==> ok && reader.Settled()
    {
      hide Reader.Valid, Reader.Saved, Reader.Complete, Reader.Settled, Stored, PartlyStored, McuRun, Tables.Valid, McuSound;
      ghost var was, traces := Contents(data), Goal().traces;
      if UseFast() {
        ok := DecodeMcuFast(data);
        PastEnd(reader);
        if ok { return; }
        ghost var mid := Contents(data);
        AllPartly(was, mid, traces);
        ok := DecodeMcuSlow(data);
        if ok { StoredPartly(was, mid, Contents(data), traces); } else { PartlyTwice(was, mid, Contents(data), traces); }
      } else {
        ok := DecodeMcuSlow(data);
      }
    }

    /** It has to wait for a marker. */
    ghost predicate Waits(ok: bool)
      reads this`restartsToGo
    {
      !ok && RestartDue()
    }

    /** The data have run out, and no new segment begins: the MCU is left as it is. */
    ghost predicate Skips()
      reads this`restartsToGo, this`nextRestartNum, reader`input, reader`ending, reader`insufficientData
    {
      reader.insufficientData && !(RestartDue() && Recovery().GoOn?)
    }

    /** The segment of the next MCU, behind a restart if one is due. */
    ghost predicate Within(input: seq<byte>, due: bool, r: Recovery, stream: seq<bool>, ending: Read)
      reads reader`stream, reader`ending
    {
      if due then !r.Wait? && reader.stream == NextStream(input, r) && reader.ending == NextEnding(input, r)
      else reader.stream == stream && reader.ending == ending
    }

    /** `decode_mcu`: `goal` is what decoding this MCU should do, behind a restart if one is
        due. */
    method DecodeMcu(data: seq<array<int>>) returns (ok: bool, ghost goal: Run)
      requires Ready() && Blocks(data)
      requires UseFast() ==> Sound() && reader.plain
      modifies this, reader, data
      ensures Ready() && reader.input == old(reader.input) && reader.available == old(reader.available)
      ensures Waits(ok) ==> old(RestartDue()) && Contents(data) == old(Contents(data)) && nextRestartNum == old(nextRestartNum)
                            && Recovery() == old(Recovery()) && reader.insufficientData == old(reader.insufficientData)
                            && (reader.available < |reader.input| || Recovery().Wait?)
      ensures !Waits(ok) ==> Within(reader.input, old(RestartDue()), old(Recovery()), old(reader.stream), old(reader.ending))
      ensures !Waits(ok) ==> goal == if old(RestartDue()) then McuRun(t, reader.stream, 0, Zero(t.l), |t.l.members|) else old(Goal())
      ensures !Waits(ok) ==> restartsToGo == (if old(RestartDue()) then restartInterval else old(restartsToGo)) - if ok then 1 else 0
      ensures !Waits(ok) ==> nextRestartNum == if old(RestartDue()) then (old(nextRestartNum) + 1) % 8 else old(nextRestartNum)
      ensures !Waits(ok) && !old(Skips()) ==>
                if ok then Stored(old(Contents(data)), Contents(data), goal.traces) && lastDcVal == goal.last && reader.savedAt == goal.at
                else PartlyStored(old(Contents(data)), Contents(data), goal.traces)
      ensures !Waits(ok) && old(Skips()) ==> ok && Contents(data) == old(Contents(data)) && reader.insufficientData
      ensures ok ==> (reader.insufficientData <==> old(Skips()) || reader.savedAt > |reader.stream|)
      ensures !old(RestartDue()) && old(reader.Settled()) ==> ok && reader.Settled()
      ensures (old(RestartDue()) && reader.available == |reader.input| && !old(Recovery()).Wait?
               && NextEnding(reader.input, old(Recovery())).Marker?) ==> ok && reader.Settled()
      ensures !old(RestartDue()) ==> reader.plain == old(reader.plain)
    {
      hide Reader.Valid, Reader.Saved, Reader.Complete, Stored, PartlyStored, McuRun, Tables.Valid, McuSound, Recovered;
      if restartInterval != 0 && restartsToGo == 0 {
        ok := ProcessRestart();
        if !ok {
          goal := Goal();
          return;
        }
      }
      goal := Goal();
      ok := true;
      if !reader.insufficientData {
        ok := DecodeEither(data);
        if !ok { return; }
      }
      restartsToGo := restartsToGo - 1;
    }
  }

  /** Where data have been made up, that is remembered. */
  lemma PastEnd(reader: Reader)
    requires reader.Saved()
    ensures reader.savedAt > |reader.stream| ==> reader.insufficientData
  {
  }

  lemma AllPartly(was: seq<seq<int>>, now: seq<seq<int>>, traces: seq<Trace>)
    requires Stored(was, now, traces)
    ensures PartlyStored(was, now, traces)
  {
    hide Apply, SameBut;
    forall j | 0 <= j < |now| ensures SameBut(now[j], was[j], traces[j]) { AppliedPartly(was[j], traces[j]); }
  }

  lemma PartlyTwice(was: seq<seq<int>>, mid: seq<seq<int>>, now: seq<seq<int>>, traces: seq<Trace>)
    requires PartlyStored(was, mid, traces) && PartlyStored(mid, now, traces)
    ensures PartlyStored(was, now, traces)
  {
    forall j | 0 <= j < |now| ensures SameBut(now[j], was[j], traces[j]) {
      assert SameBut(mid[j], was[j], traces[j]) && SameBut(now[j], mid[j], traces[j]);
    }
  }

  /** The fast path on the state of a reader. */
  method FetchMcu(reader: Reader, t: Tables, data: seq<array<int>>, last: seq<int>) returns (ok: bool, state: seq<int>)
    requires reader.Saved() && t.Valid() && |last| == |t.l.dcTables| && reader.unreadMarker == 0
    requires Apart(data) && |data| == |t.l.members| >= 1 && (forall j | 0 <= j < |data| :: data[j].Length == 64)
    requires McuSound(t, reader.stream, reader.savedAt, last, |data|) && reader.available - reader.savedPos >= BUFSIZE * |data|
    modifies reader`savedPos, reader`savedBuffer, reader`savedLeft, reader`savedAt, reader`savedSpent, data
    ensures reader.Saved() && |state| == |last| && (old(reader.Settled()) ==> reader.Settled())
    ensures var r := McuRun(t, reader.stream, old(reader.savedAt), last, |data|);
            && (ok || reader.plain ==> Stored(old(Contents(data)), Contents(data), r.traces))
            && (ok ==> state == r.last && reader.savedAt == r.at)
    ensures !ok ==> unchanged(reader)
  {
    hide Fetcher.Valid, Reader.Saved, Reader.Settled, Stored, McuRun, McuSound, Tables.Valid, DecoderTable.Valid;
    var f := new Fetcher(reader);
    state := FastBlocks(f, t, data, last);
    KeepsTouch(f);
    if f.unreadMarker != 0 { return false, state; }
    SaveFast(reader, f);
    ok := true;
  }

  /** The fast path refines the slow one: from the same state on the same valid codes, when
      both succeed, they leave the same coefficients, the same DC predictions and the same
      place in the stream, however differently they fetch bytes; when the fast path fails, the
      state is as before, and the slow path makes up for it. */
  method BothPaths(slow: HuffmanDecoder, fast: HuffmanDecoder, a: seq<array<int>>, b: seq<array<int>>)
    returns (slowOk: bool, fastOk: bool)
    requires slow != fast && slow.reader != fast.reader && slow.Ready() && fast.Ready() && slow.t == fast.t
    requires slow.Blocks(a) && fast.Blocks(b) && (forall j, k | 0 <= j < |a| && 0 <= k < |b| :: a[j] != b[k])
    requires Contents(a) == Contents(b) && slow.lastDcVal == fast.lastDcVal
    requires slow.reader.stream == fast.reader.stream && slow.reader.savedAt == fast.reader.savedAt
    requires fast.Sound() && fast.reader.unreadMarker == 0
    requires fast.reader.available - fast.reader.savedPos >= BUFSIZE * |b|
    modifies slow, slow.reader, fast, fast.reader, a, b
    ensures slowOk && fastOk ==>
              Contents(a) == Contents(b) && slow.lastDcVal == fast.lastDcVal && slow.reader.savedAt == fast.reader.savedAt
    ensures !fastOk ==> fast.lastDcVal == old(fast.lastDcVal) && unchanged(fast.reader)
    ensures slowOk && !fastOk && fast.reader.plain ==> Contents(a) == Contents(b)
  {
    hide Reader.Saved, Reader.Settled, Stored, PartlyStored, McuRun, McuSound, Tables.Valid;
    ghost var was, goal := Contents(a), slow.Goal();
    slowOk := slow.DecodeMcuSlow(a);
    fastOk := fast.DecodeMcuFast(b);
    if slowOk && Stored(was, Contents(b), goal.traces) { StoredOnce(was, Contents(a), Contents(b), goal.traces); }
  }

  lemma StoredOnce(was: seq<seq<int>>, a: seq<seq<int>>, b: seq<seq<int>>, traces: seq<Trace>)
    requires Stored(was, a, traces) && Stored(was, b, traces)
    ensures a == b
  {
    hide Apply;
    forall j | 0 <= j < |a| ensures a[j] == b[j] {}
  }

  lemma KeepsTouch(f: Fetcher)
    requires f.Valid()
    ensures f.unreadMarker == 0 || f.plain ==> !f.lost
  {
  }

  /** `BITREAD_SAVE_STATE`. */
  method SaveFast(reader: Reader, f: Fetcher)
    requires f.Valid() && f.unreadMarker == 0 && reader.Saved() && reader.unreadMarker == 0 && f.plain == reader.plain
    requires f.input == reader.input && f.stream == reader.stream && f.ending == reader.ending && f.available == reader.available
    modifies reader`savedPos, reader`savedBuffer, reader`savedLeft, reader`savedAt, reader`savedSpent
    ensures reader.Saved() && reader.savedAt == f.at
    ensures old(reader.Settled()) ==> reader.Settled()
  {
    hide Buffered, InStep, Ending, NoFill;
    reader.savedPos, reader.savedBuffer, reader.savedLeft := f.pos, f.getBuffer, f.bitsLeft;
    reader.savedAt, reader.savedSpent := f.at, f.spent;
    WithinStream(f.stream, f.at, f.bitsLeft, f.input, f.pos);
  }
}
