/** `decode_mcu_AC_refine` of jdphuff.c. */
module AcRefineDecoder {
  import opened JpegLimits
  import opened Shifts
  import opened BitStrings
  import opened CanonicalCodes
  import opened HuffmanTables
  import opened Zigzag
  import opened PointTransform
  import opened AcRefineRun
  import opened EntropySource
  import opened Resync
  import opened BitReader
  import opened Wrappers

  /** However many bits there are behind those read so far, the run from `init` leads to
      `st`. */
  ghost predicate Reached(src: Source, band: Band, init: State, st: State) {
    && src.Valid() && band.Valid() && init.Valid() && st.Valid()
    && forall limit: nat | limit >= st.at :: Run(src, limit, band, init) == Run(src, limit, band, st)
  }

  lemma ReachedAtOnce(src: Source, band: Band, st: State)
    requires src.Valid() && band.Valid() && st.Valid()
    ensures Reached(src, band, st, st)
  {
  }

  lemma ReachedNext(src: Source, band: Band, init: State, st: State, next: State)
    requires Reached(src, band, init, st)
    requires TakeStep(src, next.at, band, st) == Next(next) && st.at <= next.at
    ensures Reached(src, band, init, next)
  {
    hide TakeStep, Run;
    forall limit: nat | limit >= next.at ensures Run(src, limit, band, init) == Run(src, limit, band, next) {
      MoreBits(src, next.at, limit, band, st);
      RunSteps(src, limit, band, st, next);
    }
  }

  lemma RunSteps(src: Source, limit: nat, band: Band, st: State, next: State)
    requires src.Valid() && band.Valid() && st.Valid() && TakeStep(src, limit, band, st) == Next(next)
    ensures next.Valid() && Run(src, limit, band, st) == Run(src, limit, band, next)
  {
  }

  /** What the run comes to with the bits read so far, and with any more. */
  ghost predicate Finishes(src: Source, band: Band, init: State, at: nat, block: seq<int>, eobrun: nat) {
    && src.Valid() && band.Valid() && init.Valid()
    && forall limit: nat | limit >= at :: Run(src, limit, band, init) == Finished(block, eobrun, at)
  }

  lemma FinishesHere(src: Source, band: Band, init: State, st: State, block: seq<int>, eobrun: nat)
    requires Reached(src, band, init, st)
    requires forall limit: nat :: TakeStep(src, limit, band, st) == Last(Finished(block, eobrun, st.at))
    ensures Finishes(src, band, init, st.at, block, eobrun)
  {
    forall limit: nat | limit >= st.at ensures Run(src, limit, band, init) == Finished(block, eobrun, st.at) {
      assert Run(src, limit, band, init) == Run(src, limit, band, st);
    }
  }

  /** With no more bits than those read so far, the run stops. */
  ghost predicate StopsAt(src: Source, band: Band, init: State, st: State) {
    && Reached(src, band, init, st)
    && TakeStep(src, st.at, band, st) == Stop(st)
  }

  /** One correction bit. */
  method RefineCoef(reader: Reader, block: array<int>, k: nat, al: nat) returns (ok: bool)
    requires reader.Valid() && block.Length == 64 && k < 64
    modifies reader`pos, reader`unreadMarker, reader`getBuffer, reader`bitsLeft, reader`insufficientData
    modifies reader`spent, reader`at, block
    ensures reader.Valid() && (old(reader.Complete()) ==> ok && reader.Complete())
    ensures ok && reader.insufficientData ==> old(reader.insufficientData) || reader.at > |reader.stream|
    ensures !ok ==> reader.unreadMarker == 0 && block[..] == old(block[..])
    ensures old(reader.unreadMarker) != 0 ==> reader.unreadMarker != 0
    ensures reader.unreadMarker == 0 ==> reader.insufficientData == old(reader.insufficientData)
    ensures ok ==> reader.at == old(reader.at) + 1
    ensures ok ==> block[..] == old(block[..])[Natural(k) :=
                     Correct(old(block[Natural(k)]), BitAt(reader.stream, old(reader.at)) == 1, al)]
  {
    hide Reader.Valid, Reader.Complete;
    ghost var was, at := block[..], reader.at;
    var bit := reader.GetBits(1);
    if bit.None? { return false; }
    OneBit(reader.stream, at);
    var c := block[Natural(k)];
    if bit.value != 0 {
      if !BitSet(c, al) {
        if c >= 0 {
          block[Natural(k)] := c + Shl(1, al);
        } else {
          block[Natural(k)] := c - Shl(1, al);
        }
      }
    }
    assert block[..] == was[Natural(k) := Correct(c, BitAt(reader.stream, at) == 1, al)];
    ok := true;
  }

  lemma OneBit(stream: seq<bool>, at: nat)
    ensures NumberAt(stream, at, 1) == BitAt(stream, at)
  {
    assert NumberAt(stream, at, 0) == 0;
  }

  lemma CoefNext(src: Source, band: Band, init: State, st: State, block: seq<int>)
    requires Reached(src, band, init, st) && !st.phase.Symbols? && st.k <= band.se && st.block[Natural(st.k)] != 0
    requires block == st.block[Natural(st.k) := Correct(st.block[Natural(st.k)], BitAt(src.stream, st.at) == 1, band.al)]
    ensures Reached(src, band, init, st.(block := block, k := st.k + 1, at := st.at + 1))
  {
    hide Run, Correct;
    ReachedNext(src, band, init, st, st.(block := block, k := st.k + 1, at := st.at + 1));
  }

  lemma CoefStops(src: Source, band: Band, init: State, st: State)
    requires Reached(src, band, init, st) && !st.phase.Symbols? && st.k <= band.se && st.block[Natural(st.k)] != 0
    ensures StopsAt(src, band, init, st)
  {
  }

  lemma ZeroNext(src: Source, band: Band, init: State, st: State)
    requires Reached(src, band, init, st) && st.k <= band.se && st.block[Natural(st.k)] == 0
    requires st.phase.Rest? || (st.phase.Skipping? && st.phase.r > 0)
    ensures Reached(src, band, init,
              st.(k := st.k + 1, phase := if st.phase.Rest? then st.phase else Skipping(st.phase.r - 1, st.phase.s)))
  {
    hide Run;
    ReachedNext(src, band, init, st,
      st.(k := st.k + 1, phase := if st.phase.Rest? then st.phase else Skipping(st.phase.r - 1, st.phase.s)));
  }

  /** Advances over coefficients that are not zero and over `r` that are, with a correction
      bit for each of the former. */
  method Advance(reader: Reader, block: array<int>, start: nat, zeros: nat,
                 ghost src: Source, band: Band, ghost init: State, ghost from: State)
    returns (ok: bool, k: nat, ghost st: State)
    requires reader.Valid() && block.Length == 64 && reader.stream == src.stream && band.Valid()
    requires Reached(src, band, init, from) && from.phase.Skipping? && from.phase.r == zeros
    requires from.block == block[..] && from.k == start <= band.se && from.at == reader.at
    modifies reader`pos, reader`unreadMarker, reader`getBuffer, reader`bitsLeft, reader`insufficientData
    modifies reader`spent, reader`at, block
    ensures reader.Valid() && (old(reader.Complete()) ==> ok && reader.Complete())
    ensures ok ==> reader.at >= old(reader.at)
    ensures ok && reader.insufficientData ==> old(reader.insufficientData) || reader.at > |reader.stream|
    ensures old(reader.unreadMarker) != 0 ==> reader.unreadMarker != 0
    ensures reader.unreadMarker == 0 ==> reader.insufficientData == old(reader.insufficientData)
    ensures Reached(src, band, init, st) && st.block == block[..] && st.newnz == from.newnz
    ensures ok ==> st.phase.Skipping? && st.phase.s == from.phase.s && st.k == k && st.at == reader.at
    ensures ok ==> start <= k <= band.se + 1 && (k <= band.se ==> block[Natural(k)] == 0 && st.phase.r == 0)
    ensures !ok ==> reader.unreadMarker == 0 && StopsAt(src, band, init, st)
  {
    hide Reader.Valid, Reader.Complete, Reached, StopsAt, Correct;
    var r: int;
    k, r, st, ok := start, zeros, from, true;
    while k <= band.se
      invariant reader.Valid() && (old(reader.Complete()) ==> reader.Complete())
      invariant old(reader.unreadMarker) != 0 ==> reader.unreadMarker != 0
      invariant reader.unreadMarker == 0 ==> reader.insufficientData == old(reader.insufficientData)
      invariant reader.insufficientData ==> old(reader.insufficientData) || reader.at > |reader.stream|
      invariant reader.at >= old(reader.at)
      invariant start <= k <= band.se + 1 && r >= 0
      invariant Reached(src, band, init, st) && st == State(Skipping(r, from.phase.s), block[..], k, reader.at, from.newnz)
      decreases band.se + 1 - k
    {
      if block[Natural(k)] != 0 {
        ok := RefineCoef(reader, block, k, band.al);
        if !ok {
          CoefStops(src, band, init, st);
          return;
        }
        CoefNext(src, band, init, st, block[..]);
        st := st.(block := block[..], k := st.k + 1, at := st.at + 1);
      } else {
        r := r - 1;
        if r < 0 { break; }
        ZeroNext(src, band, init, st);
        st := st.(k := st.k + 1, phase := Skipping(r, from.phase.s));
      }
      k := k + 1;
    }
  }

  /** Until the symbol and its bits are there, the run stops before them. */
  lemma SymbolStops(src: Source, band: Band, init: State, st: State)
    requires Reached(src, band, init, st) && st.phase.Symbols? && st.k <= band.se
    ensures StopsAt(src, band, init, st)
  {
    hide ReadLength;
  }

  lemma SymbolNext(src: Source, band: Band, init: State, st: State, symbol: byte, at: nat, phase: Phase, behind: nat)
    requires Reached(src, band, init, st) && st.phase.Symbols? && st.k <= band.se
    requires DecodeAt(src.bits, src.huffval, src.stream, st.at) == (symbol, at) && st.at <= at <= behind
    requires var r, s := symbol as int / 16, symbol as int % 16;
             if s != 0 then behind == at + 1 && phase == Skipping(r, NewValue(BitAt(src.stream, at), band.al))
             else if r == 15 then behind == at && phase == Skipping(15, 0)
             else behind == at + r && phase == Rest(Shl(1, r) + NumberAt(src.stream, at, r))
    ensures phase.Rest? ==> phase.eobrun > 0
    ensures Reached(src, band, init, st.(phase := phase, at := behind))
  {
    hide Run, DecodeAt, NewValue;
    if phase.Rest? { ShlPositive(symbol as int / 16); }
    ReachedNext(src, band, init, st, st.(phase := phase, at := behind));
  }

  /** Reads a symbol and the bits that belong to it. */
  method ReadSymbol(reader: Reader, table: DecoderTable, ghost src: Source, band: Band, ghost init: State, ghost st: State)
    returns (ok: bool, phase: Phase)
    requires reader.Valid() && table.Valid() && src == Source(table.bits, table.huffval, reader.stream)
    requires Reached(src, band, init, st) && st.phase.Symbols? && st.k <= band.se && st.at == reader.at
    modifies reader`pos, reader`unreadMarker, reader`getBuffer, reader`bitsLeft, reader`insufficientData
    modifies reader`spent, reader`at
    ensures reader.Valid() && (old(reader.Complete()) ==> ok && reader.Complete())
    ensures ok ==> reader.at >= old(reader.at)
    ensures ok && reader.insufficientData ==> old(reader.insufficientData) || reader.at > |reader.stream|
    ensures old(reader.unreadMarker) != 0 ==> reader.unreadMarker != 0
    ensures reader.unreadMarker == 0 ==> reader.insufficientData == old(reader.insufficientData)
    ensures ok ==> !phase.Symbols? && (phase.Rest? ==> phase.eobrun > 0) && (phase.Skipping? ==> phase.r <= 15)
    ensures ok ==> Reached(src, band, init, st.(phase := phase, at := reader.at))
    ensures !ok ==> reader.unreadMarker == 0 && StopsAt(src, band, init, st)
  {
    hide Reader.Valid, Reader.Complete, Reached, StopsAt, DecodeAt, DecoderTable.Valid, NumberAt;
    phase := Symbols;
    SymbolStops(src, band, init, st);
    DecodeMoves(src.bits, src.huffval, src.stream, st.at) by { TableSizes(table); }
    var symbol := reader.HuffDecode(table);
    if symbol.None? { return false, phase; }
    ghost var at := reader.at;
    var r, s := symbol.value as int / 16, symbol.value as int % 16;
    if s != 0 {
      var bit := reader.GetBits(1);
      if bit.None? { return false, phase; }
      OneBit(reader.stream, at);
      phase := Skipping(r, NewValue(bit.value, band.al));
    } else if r == 15 {
      phase := Skipping(15, 0);
    } else {
      var run := Shl(1, r);
      if r != 0 {
        var extra := reader.GetBits(r);
        if extra.None? { return false, phase; }
        run := run + extra.value;
      } else {
        NoBits(reader.stream, at);
      }
      phase := Rest(run);
    }
    SymbolNext(src, band, init, st, symbol.value, at, phase, reader.at);
    ok := true;
  }

  lemma NoBits(stream: seq<bool>, at: nat)
    ensures NumberAt(stream, at, 0) == 0
  {
  }

  lemma RestEnds(src: Source, band: Band, init: State, st: State)
    requires Reached(src, band, init, st) && st.phase.Rest? && st.k > band.se
    ensures Finishes(src, band, init, st.at, st.block, st.phase.eobrun - 1)
  {
    FinishesHere(src, band, init, st, st.block, st.phase.eobrun - 1);
  }

  lemma BandEnds(src: Source, band: Band, init: State, st: State)
    requires Reached(src, band, init, st) && st.phase.Symbols? && st.k > band.se
    ensures Finishes(src, band, init, st.at, st.block, 0)
  {
    FinishesHere(src, band, init, st, st.block, 0);
  }

  /** The coefficients behind the last new one: a correction bit for each that is not zero. */
  method CorrectRest(reader: Reader, block: array<int>, start: nat, ghost src: Source, band: Band, ghost init: State,
                     ghost from: State)
    returns (ok: bool, ghost st: State)
    requires reader.Valid() && block.Length == 64 && reader.stream == src.stream && band.Valid()
    requires Reached(src, band, init, from) && from.phase.Rest?
    requires from.block == block[..] && from.k == start <= band.se + 1 && from.at == reader.at
    modifies reader`pos, reader`unreadMarker, reader`getBuffer, reader`bitsLeft, reader`insufficientData
    modifies reader`spent, reader`at, block
    ensures reader.Valid() && (old(reader.Complete()) ==> ok && reader.Complete())
    ensures ok ==> reader.at >= old(reader.at)
    ensures ok && reader.insufficientData ==> old(reader.insufficientData) || reader.at > |reader.stream|
    ensures old(reader.unreadMarker) != 0 ==> reader.unreadMarker != 0
    ensures reader.unreadMarker == 0 ==> reader.insufficientData == old(reader.insufficientData)
    ensures Reached(src, band, init, st) && st.block == block[..] && st.newnz == from.newnz
    ensures ok ==> st.phase == from.phase && st.k == band.se + 1 && st.at == reader.at
    ensures !ok ==> reader.unreadMarker == 0 && StopsAt(src, band, init, st)
  {
    hide Reader.Valid, Reader.Complete, Reached, StopsAt, Correct;
    st, ok := from, true;
    for k := start to band.se + 1
      invariant reader.Valid() && (old(reader.Complete()) ==> reader.Complete())
      invariant old(reader.unreadMarker) != 0 ==> reader.unreadMarker != 0
      invariant reader.unreadMarker == 0 ==> reader.insufficientData == old(reader.insufficientData)
      invariant reader.insufficientData ==> old(reader.insufficientData) || reader.at > |reader.stream|
      invariant reader.at >= old(reader.at)
      invariant Reached(src, band, init, st) && st == State(from.phase, block[..], k, reader.at, from.newnz)
    {
      if block[Natural(k)] != 0 {
        ok := RefineCoef(reader, block, k, band.al);
        if !ok {
          CoefStops(src, band, init, st);
          return;
        }
        CoefNext(src, band, init, st, block[..]);
        st := st.(block := block[..], k := st.k + 1, at := st.at + 1);
      } else {
        ZeroNext(src, band, init, st);
        st := st.(k := st.k + 1);
      }
    }
  }

  lemma PlacedNext(src: Source, band: Band, init: State, st: State)
    requires Reached(src, band, init, st) && st.phase.Skipping?
    requires st.k <= band.se ==> st.block[Natural(st.k)] == 0 && st.phase.r == 0
    ensures st.Valid() && Reached(src, band, init, Placed(st))
  {
    hide Run;
    ReachedNext(src, band, init, st, Placed(st));
  }

  /** `undoit`: makes the coefficients that are new zero again. */
  method UndoNew(block: array<int>, newnz: array<nat>, count: nat)
    requires block.Length == newnz.Length == 64 && block as object != newnz as object && count <= 64
    requires forall i | 0 <= i < count :: newnz[i] < 64
    modifies block
    ensures block[..] == Undo(old(block[..]), newnz[..count], count)
  {
    ghost var goal, list := Undo(block[..], newnz[..count], count), newnz[..count];
    var n := count;
    while n > 0
      invariant n <= count && newnz[..count] == list && Undo(block[..], list, n) == goal
    {
      n := n - 1;
      ghost var was := block[..];
      block[newnz[n]] := 0;
      assert newnz[n] == list[n] && block[..] == was[list[n] := 0];
    }
  }

  /** The symbols of a block: up to the end of the band, or to an end-of-band symbol, which
      gives the length of the run of such blocks. */
  method ReadBand(reader: Reader, table: DecoderTable, block: array<int>, newnz: array<nat>,
                  ghost src: Source, band: Band, ghost init: State)
    returns (ok: bool, k: nat, run: nat, count: nat, ghost st: State)
    requires reader.Valid() && table.Valid() && band.Valid() && src == Source(table.bits, table.huffval, reader.stream)
    requires block.Length == newnz.Length == 64 && block as object != newnz as object
    requires Reached(src, band, init, init) && init == State(Symbols, block[..], band.ss, reader.at, [])
    modifies reader`pos, reader`unreadMarker, reader`getBuffer, reader`bitsLeft, reader`insufficientData
    modifies reader`spent, reader`at, block, newnz
    ensures reader.Valid() && (old(reader.Complete()) ==> ok && reader.Complete())
    ensures ok ==> reader.at >= old(reader.at)
    ensures ok && reader.insufficientData ==> old(reader.insufficientData) || reader.at > |reader.stream|
    ensures old(reader.unreadMarker) != 0 ==> reader.unreadMarker != 0
    ensures reader.unreadMarker == 0 ==> reader.insufficientData == old(reader.insufficientData)
    ensures Reached(src, band, init, st) && st.block == block[..] && count <= 64 && st.newnz == newnz[..count]
    ensures ok ==> st.k == k && st.at == reader.at
    ensures ok ==> if run > 0 then st.phase == Rest(run) && k <= band.se else st.phase == Symbols && k > band.se
    ensures !ok ==> reader.unreadMarker == 0 && StopsAt(src, band, init, st)
  {
    hide Reader.Valid, Reader.Complete, Reached, StopsAt, DecoderTable.Valid, NewValue, Natural;
    k, run, count, st, ok := band.ss, 0, 0, init, true;
    while k <= band.se
      invariant reader.Valid() && (old(reader.Complete()) ==> reader.Complete())
      invariant old(reader.unreadMarker) != 0 ==> reader.unreadMarker != 0
      invariant reader.unreadMarker == 0 ==> reader.insufficientData == old(reader.insufficientData)
      invariant reader.insufficientData ==> old(reader.insufficientData) || reader.at > |reader.stream|
      invariant reader.at >= old(reader.at)
      invariant band.ss + count <= k <= band.se + 2
      invariant Reached(src, band, init, st) && st == State(Symbols, block[..], k, reader.at, newnz[..count])
      decreases band.se + 2 - k
    {
      var phase;
      ok, phase := ReadSymbol(reader, table, src, band, init, st);
      if !ok { return; }
      st := st.(phase := phase, at := reader.at);
      if phase.Rest? {
        run := phase.eobrun;
        return;
      }
      ok, k, st := Advance(reader, block, k, phase.r, src, band, init, st);
      if !ok { return; }
      PlacedNext(src, band, init, st);
      st := Placed(st);
      if phase.s != 0 {
        block[Natural(k)] := phase.s;
        newnz[count] := Natural(k);
        count := count + 1;
      }
      k := k + 1;
    }
  }

  class PhuffDecoder {
    const reader: Reader
    const table: DecoderTable
    const band: Band
    const restartInterval: nat
    var eobrun: nat
    var restartsToGo: int
    var nextRestartNum: nat

    /** `start_pass_phuff_decoder`. */
    constructor (source: Reader, t: DecoderTable, b: Band, interval: nat)
      requires source.Saved() && t.Valid() && b.Valid()
      ensures Ready() && reader == source && table == t && band == b && restartInterval == interval
      ensures eobrun == 0 && restartsToGo == interval && nextRestartNum == 0
    {
      reader, table, band, restartInterval := source, t, b, interval;
      eobrun, restartsToGo, nextRestartNum := 0, interval, 0;
    }

    ghost predicate Ready()
      reads this, reader
    {
      reader.Saved() && table.Valid() && band.Valid()
    }

    /** How decoding goes on where restart marker `nextRestartNum` should be. */
    ghost function Recovery(): Recovery
      reads this`nextRestartNum, reader`input, reader`ending
    {
      Recovered(reader.input, reader.ending, nextRestartNum)
    }

    /** `process_restart`, whatever is found; a call that has to wait for input changes nothing
        but what is discarded. */
    method ProcessRestart() returns (ok: bool)
      requires Ready() && nextRestartNum < 8
      modifies this, reader
      ensures Ready() && reader.input == old(reader.input) && reader.available == old(reader.available) && reader.savedAt == 0
      ensures ok ==> eobrun == 0 && restartsToGo == restartInterval && nextRestartNum == (old(nextRestartNum) + 1) % 8
      ensures ok ==> !old(Recovery()).Wait? && reader.stream == NextStream(reader.input, old(Recovery()))
                     && reader.ending == NextEnding(reader.input, old(Recovery()))
      ensures ok ==> if old(Recovery()).GoOn? then reader.unreadMarker == 0 && !reader.insufficientData && reader.savedPos == old(Recovery()).next
                     else reader.unreadMarker != 0 && reader.insufficientData == old(reader.insufficientData)
      ensures !ok ==> eobrun == old(eobrun) && restartsToGo == old(restartsToGo) && nextRestartNum == old(nextRestartNum)
                      && Recovery() == old(Recovery()) && reader.insufficientData == old(reader.insufficientData)
      ensures !ok ==> reader.available < |reader.input| || Recovery().Wait?
    {
      hide Reader.Saved, DecoderTable.Valid, Recovered;
      ok := reader.Restart(nextRestartNum);
      if ok {
        nextRestartNum := (nextRestartNum + 1) % 8;
        eobrun, restartsToGo := 0, restartInterval;
      }
    }

    /** The counter behind an MCU. */
    method CountMcu()
      requires Ready()
      modifies this`restartsToGo
      ensures Ready() && restartsToGo == old(restartsToGo) - 1
    {
      hide Reader.Saved, DecoderTable.Valid;
      restartsToGo := restartsToGo - 1;
    }

    ghost function Src(): Source
      reads reader`stream
    {
      Source(table.bits, table.huffval, reader.stream)
    }

    /** Refines one block.  When the input does not suffice, the block is as after the run
        with the bits before `stop`, and everything else as before. */
    method DecodeMcu(block: array<int>) returns (ok: bool, ghost stop: nat)
      requires Ready() && block.Length == 64
      modifies this`eobrun, block
      modifies reader`pos, reader`unreadMarker, reader`getBuffer, reader`bitsLeft, reader`insufficientData
      modifies reader`spent, reader`at, reader`savedPos, reader`savedBuffer, reader`savedLeft, reader`savedAt, reader`savedSpent
      ensures Ready()
      ensures old(reader.insufficientData) ==> ok && block[..] == old(block[..]) && eobrun == old(eobrun)
      ensures ok && !old(reader.insufficientData) ==>
                Finishes(Src(), band, Start(band, old(block[..]), old(eobrun), old(reader.savedAt)),
                         reader.savedAt, block[..], eobrun)
      ensures ok && reader.insufficientData ==> old(reader.insufficientData) || reader.savedAt > |reader.stream|
      ensures !ok ==> Run(Src(), stop, band, Start(band, old(block[..]), old(eobrun), old(reader.savedAt))) == Stopped(block[..])
      ensures !ok ==> eobrun == old(eobrun) && reader.savedAt == old(reader.savedAt)
      ensures !ok ==> reader.insufficientData == old(reader.insufficientData)
      ensures old(reader.Settled()) ==> ok && reader.Settled()
    {
      hide Reader.Valid, Reader.Saved, Reader.Complete, Reader.Settled, DecoderTable.Valid, Finishes, Run;
      stop := 0;
      if reader.insufficientData { return true, stop; }
      reader.Load();
      var run;
      ok, run, stop := RefineBlock(reader, table, band, block, eobrun);
      if ok {
        reader.Save();
        eobrun := run;
      }
    }
  }

  /** The block itself, on the working state of the reader. */
  method RefineBlock(reader: Reader, table: DecoderTable, band: Band, block: array<int>, eobrun: nat)
    returns (ok: bool, run: nat, ghost stop: nat)
    requires reader.Valid() && table.Valid() && band.Valid() && block.Length == 64
    modifies reader`pos, reader`unreadMarker, reader`getBuffer, reader`bitsLeft, reader`insufficientData
    modifies reader`spent, reader`at, block
    ensures reader.Valid() && (old(reader.Complete()) ==> ok && reader.Complete())
    ensures ok && reader.insufficientData ==> old(reader.insufficientData) || reader.at > |reader.stream|
    ensures old(reader.unreadMarker) != 0 ==> reader.unreadMarker != 0
    ensures reader.unreadMarker == 0 ==> reader.insufficientData == old(reader.insufficientData)
    ensures ok ==> Finishes(Source(table.bits, table.huffval, reader.stream), band,
                            Start(band, old(block[..]), eobrun, old(reader.at)), reader.at, block[..], run)
    ensures !ok ==> Source(table.bits, table.huffval, reader.stream).Valid() && reader.unreadMarker == 0
    ensures !ok ==> Run(Source(table.bits, table.huffval, reader.stream), stop, band,
                        Start(band, old(block[..]), eobrun, old(reader.at))) == Stopped(block[..])
  {
    hide Reader.Valid, Reader.Complete, Reached, StopsAt, DecoderTable.Valid, Finishes, Run, Undo;
    ghost var src, init := Source(table.bits, table.huffval, reader.stream), Start(band, block[..], eobrun, reader.at);
    StartReached(table, src, band, init);
    var newnz := new nat[64](_ => 0);
    var k, count;
    ghost var st;
    ok, run, k, count, st, stop := true, eobrun, band.ss, 0, init, 0;
    assert newnz[..0] == [];
    if run == 0 {
      ok, k, run, count, st := ReadBand(reader, table, block, newnz, src, band, init);
      if ok && run == 0 {
        BandEnds(src, band, init, st);
        return;
      }
    }
    if ok {
      ok, st := CorrectRest(reader, block, k, src, band, init, st);
      if ok {
        RestEnds(src, band, init, st);
        run := run - 1;
        return;
      }
    }
    StoppedRun(src, band, init, st);
    stop := st.at;
    NewPositions(src, band, init, st, newnz[..count]);
    UndoNew(block, newnz, count);
  }

  /** Calls `DecodeMcu` until it succeeds, with the input arriving in any pieces: the result
      is that of one call with all the bits there.  It succeeds with the last piece at the
      latest, if that completes the input and there is a marker. */
  method DecodeInPieces(decoder: PhuffDecoder, block: array<int>, pieces: seq<nat>) returns (ok: bool, ghost enough: nat)
    requires decoder.Ready() && block.Length == 64 && !decoder.reader.insufficientData
    requires forall i | 0 <= i < |pieces| ::
               (if i == 0 then decoder.reader.available else pieces[i - 1]) <= pieces[i] <= |decoder.reader.input|
    modifies decoder`eobrun, block, decoder.reader
    ensures decoder.Ready() && decoder.Src() == old(decoder.Src())
    ensures ok ==> forall limit: nat | limit >= enough ::
              Run(decoder.Src(), limit, decoder.band,
                  Start(decoder.band, old(block[..]), old(decoder.eobrun), old(decoder.reader.savedAt)))
              == Finished(block[..], decoder.eobrun, decoder.reader.savedAt)
    ensures old(decoder.reader.ending).Marker? ==>
              (if |pieces| == 0 then old(decoder.reader.available) else pieces[|pieces| - 1]) == |decoder.reader.input| ==> ok
  {
    hide Run, Reader.Saved, Start;
    ghost var src, band, original, run, at :=
      decoder.Src(), decoder.band, block[..], decoder.eobrun, decoder.reader.savedAt;
    ok, enough := false, 0;
    var i := 0;
    while true
      invariant i <= |pieces| && decoder.Ready() && decoder.Src() == src && decoder.reader.input == old(decoder.reader.input)
      invariant decoder.reader.ending == old(decoder.reader.ending)
      invariant decoder.eobrun == run && decoder.reader.savedAt == at && !decoder.reader.insufficientData
      invariant decoder.reader.available == if i == 0 then old(decoder.reader.available) else pieces[i - 1]
      invariant forall limit: nat | limit >= enough ::
                  Run(src, limit, band, Start(band, block[..], run, at)) == Run(src, limit, band, Start(band, original, run, at))
      decreases |pieces| - i
    {
      ghost var before := block[..];
      ghost var stop;
      AllThere(decoder.reader);
      ok, stop := decoder.DecodeMcu(block);
      if ok {
        enough := if enough > decoder.reader.savedAt then enough else decoder.reader.savedAt;
        return;
      }
      enough := if enough > stop then enough else stop;
      forall limit: nat | limit >= enough
        ensures Run(src, limit, band, Start(band, block[..], run, at)) == Run(src, limit, band, Start(band, original, run, at))
      {
        SuspensionTransparent(src, stop, limit, band, before, run, at, block[..]);
      }
      if i == |pieces| { return; }
      decoder.reader.Supply(pieces[i]);
      i := i + 1;
    }
  }

  /** With all of the input there is no need to wait, if a marker ends it. */
  lemma AllThere(reader: Reader)
    requires reader.Saved()
    ensures reader.available == |reader.input| && reader.ending.Marker? ==> reader.Settled()
  {
  }

  lemma StartReached(table: DecoderTable, src: Source, band: Band, init: State)
    requires table.Valid() && src.bits == table.bits && src.huffval == table.huffval && band.Valid() && init.Valid()
    ensures Reached(src, band, init, init)
  {
  }

  lemma StoppedRun(src: Source, band: Band, init: State, st: State)
    requires StopsAt(src, band, init, st)
    ensures src.Valid() && band.Valid() && init.Valid() && st.Valid()
    ensures Run(src, st.at, band, init) == Stopped(Undo(st.block, st.newnz, |st.newnz|))
  {
    hide TakeStep;
    assert Run(src, st.at, band, init) == Run(src, st.at, band, st);
  }

  lemma NewPositions(src: Source, band: Band, init: State, st: State, newnz: seq<nat>)
    requires Reached(src, band, init, st) && st.newnz == newnz
    ensures forall i | 0 <= i < |newnz| :: newnz[i] < 64
  {
  }
}
