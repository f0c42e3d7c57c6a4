/** `encode_mcu_AC_refine` of jcphuff.c, when it writes bits and when it gathers statistics. */
module AcRefineEncoder {
  import opened JpegLimits
  import opened Shifts
  import opened BitStrings
  import opened BitWriter
  import opened CodeEvents
  import opened HuffmanTables
  import opened Zigzag
  import opened PointTransform
  import opened AcRefineRun
  import opened AcRefineModel
  import opened AcRefinePending
  import opened Wrappers

  lemma {:induction false} LowBitsAre(h: nat, r: nat, n: nat)
    requires r < Shl(1, n)
    ensures LowBits(Shl(h, n) + r, n) == r
    decreases n
  {
    if n > 0 {
      assert Shl(h, n) == 2 * Shl(h, n - 1);
      LowBitsAre(h, r / 2, n - 1);
    }
  }

  /** The loop that counts how often the run length can be halved. */
  method HighBit(v: nat) returns (n: nat)
    ensures n == Log2(v)
  {
    var temp := v / 2;
    n := 0;
    while temp != 0
      invariant temp >= 0 && Log2(v) == n + if temp == 0 then 0 else 1 + Log2(temp)
      decreases temp
    {
      n := n + 1;
      temp := temp / 2;
    }
  }

  class PhuffEncoder {
    const writer: PhuffWriter
    const gather: bool
    const counts: array<nat>
    const codes: EncoderTable
    const band: Band
    const bitBuffer: array<nat>     // correction bits, one for each entry
    var eobrun: nat
    var be: nat                     // how many correction bits are buffered before the block
    const restartInterval: nat
    var restartsToGo: nat
    var nextRestartNum: nat
    ghost const book: Book

    /** `start_pass_phuff`. */
    constructor (gatherStatistics: bool, table: EncoderTable, b: Band, interval: nat, ghost full: Book)
      requires b.Valid() && (!gatherStatistics ==> full.Valid() && full.codes == table)
      ensures Valid() && eobrun == 0 && fresh(writer) && fresh(counts) && fresh(bitBuffer)
      ensures gather == gatherStatistics && codes == table && band == b && book == full
      ensures restartInterval == restartsToGo == interval && nextRestartNum == 0
      ensures writer.written == [] && writer.earlier == [] && counts[..] == seq(257, _ => 0)
      ensures forall j | 0 <= j < MAX_CORR_BITS :: bitBuffer[j] == 0
    {
      writer := new PhuffWriter();
      gather, codes, band, eobrun, be, book := gatherStatistics, table, b, 0, 0, full;
      restartInterval, restartsToGo, nextRestartNum := interval, interval, 0;
      counts := new nat[257](_ => 0);
      bitBuffer := new nat[MAX_CORR_BITS](_ => 0);
    }

    ghost predicate Fixed()
    {
      && band.Valid() && counts.Length == 257 && bitBuffer.Length == MAX_CORR_BITS && counts != bitBuffer
      && (!gather ==> book.Valid() && book.codes == codes)
    }

    ghost predicate Valid()
      reads this`eobrun, this`be, writer
    {
      Fixed() && writer.Valid() && eobrun <= MAX_EOBRUN && be <= MAX_CORR_BITS && (eobrun == 0 ==> be == 0)
    }

    ghost function Out(): Sink
      reads counts, writer`written
    {
      if gather then Counts(counts[..]) else Bits(writer.written)
    }

    ghost predicate Coded(events: Events) {
      gather || AllCodable([book], events)
    }

    /** Emitting the events leads to `goal`; `fine` tells whether all of them can be coded. */
    ghost predicate Leads(events: Events, goal: Sink, fine: bool)
      reads counts, writer`written
    {
      EmitAll([book], Out(), events) == goal && (Coded(events) <==> fine)
    }

    /** `emit_symbol`. */
    method EmitSymbol(s: byte, ghost rest: Events, ghost goal: Sink, ghost fine: bool) returns (ok: bool)
      requires Fixed() && writer.Valid() && Leads(Cons(Symbol(0, s), rest), goal, fine)
      modifies counts, writer`putBuffer, writer`putBits, writer`output, writer`data, writer`written
      ensures writer.Valid()
      ensures if ok then Leads(rest, goal, fine) else !fine
    {
      hide PhuffWriter.Valid, AllCodable, EmitAll, BitsOf;
      EmitsHead(book, Out(), Symbol(0, s), rest, gather);
      if gather {
        counts[s] := counts[s] + 1;
        ok := true;
      } else {
        SymbolSize(book, s);
        ok := writer.EmitBits(codes.ehufco[s], codes.ehufsi[s]);
      }
    }

    /** `emit_bits`, for bits that are always there. */
    method EmitRaw(code: nat, n: nat, ghost v: nat, ghost rest: Events, ghost goal: Sink, ghost fine: bool)
      requires Fixed() && writer.Valid() && 0 < n <= 16 && v == LowBits(code, n) && Leads(Cons(Raw(v, n), rest), goal, fine)
      modifies writer`putBuffer, writer`putBits, writer`output, writer`data, writer`written
      ensures writer.Valid() && Leads(rest, goal, fine)
    {
      hide PhuffWriter.Valid, AllCodable, EmitAll, BitsOf;
      EmitsHead(book, Out(), Raw(v, n), rest, gather);
      if !gather {
        var ok := writer.EmitBits(code, n);
      }
    }

    /** `emit_buffered_bits`. */
    method EmitBufferedBits(from: nat, n: nat, ghost rest: Events, ghost goal: Sink, ghost fine: bool)
      requires Fixed() && writer.Valid() && from + n <= MAX_CORR_BITS && OneBitEach(bitBuffer[..])
      requires Leads(BitEvents(bitBuffer[..], from, from + n, rest), goal, fine)
      modifies writer`putBuffer, writer`putBits, writer`output, writer`data, writer`written
      ensures writer.Valid() && Leads(rest, goal, fine)
    {
      hide PhuffWriter.Valid, Leads;
      for j := from to from + n
        invariant writer.Valid() && Leads(BitEvents(bitBuffer[..], j, from + n, rest), goal, fine)
      {
        SingleBit(bitBuffer[j]);
        EmitRaw(bitBuffer[j], 1, bitBuffer[j], BitEvents(bitBuffer[..], j + 1, from + n, rest), goal, fine);
      }
    }

    /** `emit_eobrun`: the check that the run length has at most 14 bits never fails. */
    method EmitEobrun(ghost rest: Events, ghost goal: Sink, ghost fine: bool) returns (ok: bool)
      requires Valid() && OneBitEach(bitBuffer[..]) && Leads(Flush(eobrun, bitBuffer[..], be, rest), goal, fine)
      modifies this`eobrun, this`be, counts, writer`putBuffer, writer`putBits, writer`output, writer`data, writer`written
      ensures Valid()
      ensures if ok then eobrun == 0 && be == 0 && Leads(rest, goal, fine) else !fine
    {
      hide PhuffWriter.Valid, Leads, BitEvents, OneBitEach, Shl, Log2;
      ok := true;
      if eobrun > 0 {
        var nbits := HighBit(eobrun);
        Log2Fits(eobrun);
        if nbits > 14 { return false; }
        ghost var bits := BitEvents(bitBuffer[..], 0, be, rest);
        ghost var more := if nbits > 0 then Cons(Raw(eobrun - Shl(1, nbits), nbits), bits) else bits;
        ok := EmitSymbol((16 * nbits) as byte, more, goal, fine);
        if !ok { return; }
        if nbits != 0 {
          RunLowBits(eobrun, nbits);
          EmitRaw(eobrun, nbits, eobrun - Shl(1, nbits), bits, goal, fine);
        }
        eobrun := 0;
        EmitBufferedBits(0, be, rest, goal, fine);
        be := 0;
      }
    }

    /** What is due inside block `i`, when everything before `k0` has been emitted. */
    ghost function Due(blocks: seq<Block>, i: nat, k0: nat, eob: nat): Events
      requires Fixed() && eobrun <= MAX_EOBRUN && be <= MAX_CORR_BITS && i < |blocks| && k0 <= 64
      reads this`eobrun, this`be, bitBuffer
    {
      if eob > 0 then Flush(eobrun, bitBuffer[..], be, Plan(band, blocks, i, k0))
      else Pend(band, blocks, eobrun, bitBuffer[..], be, i)
    }

    /** One sixteen-zeros symbol, with what must come before and after it. */
    method EmitSixteen(ghost blocks: seq<Block>, ghost i: nat, k: nat, r: nat, br: nat, start: nat, eob: nat,
                       ghost k0: nat, ghost goal: Sink, ghost fine: bool) returns (ok: bool, ghost m: nat)
      requires Valid() && i < |blocks| && OneBitEach(bitBuffer[..]) && k <= eob && r > 15
      requires Track(band, blocks[i], bitBuffer[..], start, k0, k, r, br, eob)
      requires Leads(Due(blocks, i, k0, eob), goal, fine)
      modifies this`eobrun, this`be, counts, writer`putBuffer, writer`putBits, writer`output, writer`data, writer`written
      ensures Valid() && (!ok ==> !fine)
      ensures ok ==> eobrun == 0 && be == 0 && m < 64 && k0 <= m
      ensures ok ==> Track(band, blocks[i], bitBuffer[..], 0, m + 1, k, r - 16, 0, eob)
      ensures ok ==> Leads(Plan(band, blocks, i, m + 1), goal, fine)
    {
      hide PhuffWriter.Valid, Leads, Plan, Track, OneBitEach, BitEvents;
      m := SixteenInPlan(band, blocks, i, bitBuffer[..], start, k0, k, r, br, eob);
      ghost var rest := Plan(band, blocks, i, m + 1);
      ok := EmitEobrun(Plan(band, blocks, i, k0), goal, fine);
      if !ok { return; }
      ok := EmitSymbol(0xF0, BitEvents(bitBuffer[..], start, start + br, rest), goal, fine);
      if !ok { return; }
      EmitBufferedBits(start, br, rest, goal, fine);
    }

    /** A coefficient that becomes nonzero. */
    method EmitNew(ghost blocks: seq<Block>, ghost i: nat, k: nat, negative: bool, r: nat, br: nat, start: nat, eob: nat,
                   ghost k0: nat, ghost goal: Sink, ghost fine: bool) returns (ok: bool)
      requires Valid() && i < |blocks| && OneBitEach(bitBuffer[..]) && k <= band.se && r <= 15
      requires Size(band, blocks[i], k) == 1 && negative == (blocks[i][Natural(k)] < 0)
      requires Track(band, blocks[i], bitBuffer[..], start, k0, k, r, br, eob)
      requires Leads(Due(blocks, i, k0, eob), goal, fine)
      modifies this`eobrun, this`be, counts, writer`putBuffer, writer`putBits, writer`output, writer`data, writer`written
      ensures Valid() && (!ok ==> !fine)
      ensures ok ==> eobrun == 0 && be == 0
      ensures ok ==> Track(band, blocks[i], bitBuffer[..], 0, k + 1, k + 1, 0, 0, eob)
      ensures ok ==> Leads(Due(blocks, i, k + 1, eob), goal, fine)
    {
      hide PhuffWriter.Valid, Leads, Plan, Track, OneBitEach, BitEvents, Natural, Size, Pend, Eob;
      NewInPlan(band, blocks, i, bitBuffer[..], start, k0, k, r, br, eob);
      ghost var rest := Plan(band, blocks, i, k + 1);
      ghost var bits := BitEvents(bitBuffer[..], start, start + br, rest);
      ok := EmitEobrun(Plan(band, blocks, i, k0), goal, fine);
      if !ok { return; }
      var temp := if negative then 0 else 1;
      ok := EmitSymbol((16 * r + 1) as byte, Cons(Raw(temp, 1), bits), goal, fine);
      if !ok { return; }
      SingleBit(temp);
      EmitRaw(temp, 1, temp, bits, goal, fine);
      EmitBufferedBits(start, br, rest, goal, fine);
    }

    /** All sixteen-zeros symbols that are due before the coefficient at `k`. */
    method EmitZeros(ghost blocks: seq<Block>, ghost i: nat, k: nat, zeros: nat, bits: nat, offset: nat, eob: nat,
                     ghost from: nat, ghost goal: Sink, ghost fine: bool)
      returns (ok: bool, r: nat, br: nat, start: nat, ghost k0: nat)
      requires Valid() && i < |blocks| && OneBitEach(bitBuffer[..]) && offset == be
      requires from <= 64 && Track(band, blocks[i], bitBuffer[..], offset, from, k, zeros, bits, eob)
      requires Leads(Due(blocks, i, from, eob), goal, fine)
      modifies this`eobrun, this`be, counts, writer`putBuffer, writer`putBits, writer`output, writer`data, writer`written
      ensures Valid() && (!ok ==> !fine)
      ensures ok ==> start == be && (k <= eob ==> r <= 15) && from <= k0 <= 64
      ensures ok ==> if k0 == from then eobrun == old(eobrun) && be == old(be) else eobrun == 0 && eob > 0
      ensures ok ==> Track(band, blocks[i], bitBuffer[..], start, k0, k, r, br, eob)
      ensures ok ==> Leads(Due(blocks, i, k0, eob), goal, fine)
    {
      hide PhuffWriter.Valid, Leads, Plan, Track, OneBitEach, BitEvents, Pend;
      TrackBounds(band, blocks[i], bitBuffer[..], offset, from, k, zeros, bits, eob);
      ok, r, br, start, k0 := true, zeros, bits, offset, from;
      while r > 15 && k <= eob
        invariant Valid() && start == be && from <= k0 <= 64
        invariant if k0 == from then eobrun == old(eobrun) && be == old(be) else eobrun == 0 && eob > 0
        invariant Track(band, blocks[i], bitBuffer[..], start, k0, k, r, br, eob)
        invariant Leads(Due(blocks, i, k0, eob), goal, fine)
        decreases r
      {
        ghost var m;
        ok, m := EmitSixteen(blocks, i, k, r, br, start, eob, k0, goal, fine);
        if !ok { return; }
        r, br, start, k0 := r - 16, 0, 0, m + 1;
      }
    }

    /** A coefficient that is nonzero already. */
    method BufferBit(ghost blocks: seq<Block>, ghost i: nat, k: nat, temp: nat, r: nat, br: nat, start: nat, eob: nat,
                     ghost k0: nat, ghost goal: Sink, ghost fine: bool)
      requires Valid() && i < |blocks| && OneBitEach(bitBuffer[..]) && start == be && start + br < MAX_CORR_BITS
      requires k <= band.se && temp == Size(band, blocks[i], k) > 1 && (k <= eob ==> r <= 15) && k0 <= 64
      requires Track(band, blocks[i], bitBuffer[..], start, k0, k, r, br, eob)
      requires Leads(Due(blocks, i, k0, eob), goal, fine)
      modifies bitBuffer
      ensures Valid() && OneBitEach(bitBuffer[..])
      ensures Track(band, blocks[i], bitBuffer[..], start, k0, k + 1, r, br + 1, eob)
      ensures Leads(Due(blocks, i, k0, eob), goal, fine)
    {
      hide PhuffWriter.Valid, Leads, Plan, Track, Size, Pend, Flush;
      ghost var was, due := bitBuffer[..], Due(blocks, i, k0, eob);
      TrackOld(band, blocks[i], was, start, k0, k, r, br, eob);
      var bit: nat := temp % 2;
      bitBuffer[start + br] := bit;
      assert bitBuffer[..] == was[start + br := bit];
      PendSame(band, blocks, eobrun, was, bitBuffer[..], be, i, Plan(band, blocks, i, k0));
    }

    /** A coefficient that is nonzero after the point transform. */
    method EncodeNonzero(ghost blocks: seq<Block>, ghost i: nat, k: nat, temp: nat, negative: bool, zeros: nat, bits: nat,
                         offset: nat, eob: nat, ghost from: nat, ghost goal: Sink, ghost fine: bool)
      returns (ok: bool, r: nat, br: nat, start: nat, ghost k0: nat)
      requires Valid() && i < |blocks| && OneBitEach(bitBuffer[..]) && offset == be <= MAX_CORR_BITS - DCTSIZE2 + 1
      requires band.ss <= from <= k <= band.se && temp == Size(band, blocks[i], k) > 0
      requires negative == (blocks[i][Natural(k)] < 0)
      requires Track(band, blocks[i], bitBuffer[..], offset, from, k, zeros, bits, eob)
      requires Leads(Due(blocks, i, from, eob), goal, fine)
      modifies this`eobrun, this`be, counts, bitBuffer
      modifies writer`putBuffer, writer`putBits, writer`output, writer`data, writer`written
      ensures Valid() && OneBitEach(bitBuffer[..]) && (!ok ==> !fine)
      ensures ok ==> start == be && from <= k0 <= k + 1 && k0 <= 64
      ensures ok ==> if k0 == from then eobrun == old(eobrun) && be == old(be) else eobrun == 0 && eob > 0
      ensures ok ==> Track(band, blocks[i], bitBuffer[..], start, k0, k + 1, r, br, eob)
      ensures ok ==> Leads(Due(blocks, i, k0, eob), goal, fine)
    {
      hide PhuffWriter.Valid, Leads, Plan, Track, Size, Pend, Flush, OneBitEach, LastNew, Natural, Zeros, OldCount;
      ok, r, br, start, k0 := EmitZeros(blocks, i, k, zeros, bits, offset, eob, from, goal, fine);
      if !ok { return; }
      TrackBounds(band, blocks[i], bitBuffer[..], start, k0, k, r, br, eob);
      if temp > 1 {
        BufferBit(blocks, i, k, temp, r, br, start, eob, k0, goal, fine);
        br := br + 1;
      } else {
        BeforeLast(band, blocks[i], bitBuffer[..], start, k0, k, r, br, eob);
        ok := EmitNew(blocks, i, k, negative, r, br, start, eob, k0, goal, fine);
        r, br, start, k0 := 0, 0, 0, k + 1;
      }
    }

    /** The main loop over the coefficients of the band. */
    method EncodeCoefs(ghost blocks: seq<Block>, ghost i: nat, block: array<int>, absvalues: array<nat>, eob: nat,
                       ghost goal: Sink, ghost fine: bool)
      returns (ok: bool, r: nat, br: nat, ghost k0: nat)
      requires Valid() && i < |blocks| && OneBitEach(bitBuffer[..]) && be <= MAX_CORR_BITS - DCTSIZE2 + 1
      requires block.Length == absvalues.Length == 64 && block[..] == blocks[i]
      requires absvalues != counts && absvalues != bitBuffer
      requires block as object != counts as object && block as object != bitBuffer as object
      requires LastNew(band, blocks[i], eob)
      requires forall j | band.ss <= j <= band.se :: absvalues[j] == Size(band, blocks[i], j)
      requires Leads(Due(blocks, i, band.ss, eob), goal, fine)
      modifies this`eobrun, this`be, counts, bitBuffer
      modifies writer`putBuffer, writer`putBits, writer`output, writer`data, writer`written
      ensures Valid() && OneBitEach(bitBuffer[..]) && (!ok ==> !fine)
      ensures ok ==> band.ss <= k0 <= band.se + 1
      ensures ok ==> if k0 == band.ss then eobrun == old(eobrun) && be == old(be) else eobrun == 0 && eob > 0
      ensures ok ==> Track(band, blocks[i], bitBuffer[..], be, k0, band.se + 1, r, br, eob)
      ensures ok ==> Leads(Due(blocks, i, k0, eob), goal, fine)
    {
      hide PhuffWriter.Valid, Leads, Plan, Track, Size, Pend, Flush, OneBitEach, LastNew, Natural, Zeros, OldCount, Due;
      ghost var b, values := blocks[i], absvalues[..];
      var start := be;
      ok, r, br, k0 := true, 0, 0, band.ss;
      TrackStart(band, b, bitBuffer[..], start, band.ss, eob);
      for k := band.ss to band.se + 1
        invariant Valid() && OneBitEach(bitBuffer[..]) && start == be <= MAX_CORR_BITS - DCTSIZE2 + 1
        invariant block[..] == b && absvalues[..] == values
        invariant band.ss <= k0 <= k
        invariant if k0 == band.ss then eobrun == old(eobrun) && be == old(be) else eobrun == 0 && eob > 0
        invariant Track(band, b, bitBuffer[..], start, k0, k, r, br, eob)
        invariant Leads(Due(blocks, i, k0, eob), goal, fine)
      {
        var temp := absvalues[k];
        assert temp == values[k];
        if temp == 0 {
          TrackZero(band, b, bitBuffer[..], start, k0, k, r, br, eob);
          r := r + 1;
        } else {
          var negative := block[Natural(k)] < 0;
          ok, r, br, start, k0 := EncodeNonzero(blocks, i, k, temp, negative, r, br, start, eob, k0, goal, fine);
          if !ok { return; }
        }
      }
    }

    /** The run is forced out when its counter or the bit buffer is full. */
    method ForceFull(ghost blocks: seq<Block>, ghost i: nat, ghost goal: Sink, ghost fine: bool) returns (ok: bool)
      requires Valid() && i <= |blocks| && OneBitEach(bitBuffer[..])
      requires Leads(Pend(band, blocks, eobrun, bitBuffer[..], be, i), goal, fine)
      modifies this`eobrun, this`be, counts, writer`putBuffer, writer`putBits, writer`output, writer`data, writer`written
      ensures Valid() && (!ok ==> !fine)
      ensures ok ==> eobrun < MAX_EOBRUN && be <= MAX_CORR_BITS - DCTSIZE2 + 1
      ensures ok ==> Leads(Pend(band, blocks, eobrun, bitBuffer[..], be, i), goal, fine)
    {
      hide PhuffWriter.Valid, Leads, Blocks, Joins, OneBitEach, Pend, Flush;
      ok := true;
      if eobrun == MAX_EOBRUN || be > MAX_CORR_BITS - DCTSIZE2 + 1 {
        PendFull(band, blocks, eobrun, bitBuffer[..], be, i);
        ok := EmitEobrun(Blocks(band, blocks, i, 0), goal, fine);
        PendNothing(band, blocks, bitBuffer[..], i);
      }
    }

    /** After the last coefficient: a block that does not end with a new one joins the run. */
    method EndBlock(ghost blocks: seq<Block>, ghost i: nat, r: nat, br: nat, eob: nat, ghost k0: nat,
                    ghost goal: Sink, ghost fine: bool) returns (ok: bool)
      requires Valid() && i < |blocks| && OneBitEach(bitBuffer[..]) && be <= MAX_CORR_BITS - DCTSIZE2 + 1
      requires band.ss <= k0 <= band.se + 1 && eobrun < MAX_EOBRUN
      requires eob == 0 ==> k0 == band.ss
      requires eob > 0 ==> eobrun == 0
      requires Track(band, blocks[i], bitBuffer[..], be, k0, band.se + 1, r, br, eob)
      requires Leads(Due(blocks, i, k0, eob), goal, fine)
      modifies this`eobrun, this`be, counts, writer`putBuffer, writer`putBits, writer`output, writer`data, writer`written
      ensures Valid() && (!ok ==> !fine)
      ensures ok ==> eobrun < MAX_EOBRUN && be <= MAX_CORR_BITS - DCTSIZE2 + 1
      ensures ok ==> Leads(Pend(band, blocks, eobrun, bitBuffer[..], be, i + 1), goal, fine)
    {
      hide PhuffWriter.Valid, Leads, Plan, Track, OneBitEach, Pend, Flush;
      TrackBounds(band, blocks[i], bitBuffer[..], be, k0, band.se + 1, r, br, eob);
      if r > 0 || br > 0 {
        RunGrows(band, blocks, i, eobrun, bitBuffer[..], be, k0, r, br, eob);
        eobrun := eobrun + 1;
        be := be + br;
      } else {
        NoRun(band, blocks, i, eobrun, bitBuffer[..], be, k0, r, br, eob);
      }
      ok := ForceFull(blocks, i + 1, goal, fine);
    }

    /** Between two blocks: neither the run nor the buffer is full, so that another block
        fits. */
    ghost predicate Ready()
      reads this`eobrun, this`be, writer, bitBuffer
    {
      Valid() && OneBitEach(bitBuffer[..]) && eobrun < MAX_EOBRUN && be <= MAX_CORR_BITS - DCTSIZE2 + 1
    }

    /** Encodes block `i`, or counts its symbols; what is due before it is what is due after
        it once the block has been added.  False only when a symbol has no code. */
    method EncodeMcu(block: array<int>, ghost blocks: seq<Block>, ghost i: nat, ghost goal: Sink, ghost fine: bool)
      returns (ok: bool)
      requires Ready() && i < |blocks| && block.Length == 64 && block[..] == blocks[i]
      requires block as object != counts as object && block as object != bitBuffer as object
      requires Leads(Pend(band, blocks, eobrun, bitBuffer[..], be, i), goal, fine)
      modifies this`eobrun, this`be, counts, bitBuffer
      modifies writer`putBuffer, writer`putBits, writer`output, writer`data, writer`written
      ensures if ok then Ready() && Leads(Pend(band, blocks, eobrun, bitBuffer[..], be, i + 1), goal, fine) else !fine
    {
      hide PhuffWriter.Valid, Leads, Plan, Track, OneBitEach, Pend, Flush, LastNew, HasNew;
      var absvalues := new nat[64](_ => 0);
      var eob := Prepass(band, block, absvalues);
      LastNewTells(band, blocks[i], eob);
      if HasNew(band, blocks[i]) { PendNew(band, blocks, eobrun, bitBuffer[..], be, i); }
      var r, br;
      ghost var k0;
      ok, r, br, k0 := EncodeCoefs(blocks, i, block, absvalues, eob, goal, fine);
      if !ok { return; }
      if eob > 0 { PastLast(band, blocks[i], bitBuffer[..], be, k0, r, br, eob); }
      ok := EndBlock(blocks, i, r, br, eob, k0, goal, fine);
    }

    /** The run ends, and everything that is written is flushed. */
    method EndSegment(ghost goal: Sink, ghost fine: bool) returns (ok: bool, ghost d: seq<byte>)
      requires Valid() && OneBitEach(bitBuffer[..]) && Leads(Flush(eobrun, bitBuffer[..], be, Nil), goal, fine)
      modifies this`eobrun, this`be, counts, writer
      ensures Valid()
      ensures if ok then fine && eobrun == be == 0 && (gather ==> goal == Counts(counts[..])) else !fine
      ensures ok && !gather ==> goal.Bits? && writer.output == old(writer.earlier) + Stuff(d) && PaddedBytes(goal.written, d)
      ensures ok && !gather ==> writer.written == [] && writer.data == [] && writer.earlier == writer.output
    {
      hide PhuffWriter.Valid, OneBitEach, Flush, Stuff, PaddedBytes;
      d := [];
      ok := EmitEobrun(Nil, goal, fine);
      if ok && !gather {
        d := writer.FlushBits();
      }
    }

    /** `emit_restart`. */
    method EmitRestart(ghost goal: Sink, ghost fine: bool) returns (ok: bool, ghost d: seq<byte>)
      requires Valid() && OneBitEach(bitBuffer[..]) && Leads(Flush(eobrun, bitBuffer[..], be, Nil), goal, fine)
      requires nextRestartNum < 8
      modifies this`eobrun, this`be, counts, writer
      ensures Valid()
      ensures if ok then fine && eobrun == be == 0 && (gather ==> goal == Counts(counts[..])) else !fine
      ensures ok && !gather ==> goal.Bits? && PaddedBytes(goal.written, d) && writer.written == []
      ensures ok && !gather ==> writer.earlier == old(writer.earlier) + Stuff(d) + [0xFF, (RST0 + nextRestartNum) as byte]
    {
      hide PhuffWriter.Valid, OneBitEach, Flush, Stuff, PaddedBytes, Leads;
      ok, d := EndSegment(goal, fine);
      if ok && !gather {
        writer.EmitMarker((RST0 + nextRestartNum) as byte);
      }
      eobrun, be := 0, 0;
    }

    /** The counters behind an MCU. */
    method CountMcu()
      modifies this`restartsToGo, this`nextRestartNum
      ensures restartsToGo == (if restartInterval == 0 then old(restartsToGo)
                               else (if old(restartsToGo) == 0 then restartInterval else old(restartsToGo)) - 1)
      ensures nextRestartNum == if restartInterval != 0 && old(restartsToGo) == 0 then (old(nextRestartNum) + 1) % 8
                                else old(nextRestartNum)
    {
      if restartInterval != 0 {
        if restartsToGo == 0 {
          restartsToGo := restartInterval;
          nextRestartNum := (nextRestartNum + 1) % 8;
        }
        restartsToGo := restartsToGo - 1;
      }
    }

    /** Behind the last block of a segment only the run is due. */
    lemma RunIsDue(blocks: seq<Block>, goal: Sink, fine: bool)
      requires Ready() && Leads(Pend(band, blocks, eobrun, bitBuffer[..], be, |blocks|), goal, fine)
      ensures Leads(Flush(eobrun, bitBuffer[..], be, Nil), goal, fine)
    {
      hide PhuffWriter.Valid, OneBitEach, Pend, Flush, Blocks, Leads;
      PendFull(band, blocks, eobrun, bitBuffer[..], be, |blocks|);
      NoMoreBlocks(band, blocks);
    }
  }

  lemma NoMoreBlocks(band: Band, blocks: seq<Block>)
    requires band.Valid()
    ensures Blocks(band, blocks, |blocks|, 0) == Nil
  {
  }

  /** Once the last new coefficient is out, something has been emitted. */
  lemma PastLast(band: Band, b: Block, bits: seq<nat>, start: nat, k0: nat, r: nat, br: nat, eob: nat)
    requires Track(band, b, bits, start, k0, band.se + 1, r, br, eob) && eob > 0
    ensures k0 > band.ss
  {
  }

  /** The pre-pass: magnitudes after the point transform, and the last one that is 1. */
  method Prepass(band: Band, block: array<int>, absvalues: array<nat>) returns (eob: nat)
    requires band.Valid() && block.Length == absvalues.Length == 64 && block as object != absvalues as object
    modifies absvalues
    ensures LastNew(band, block[..], eob)
    ensures forall j | band.ss <= j <= band.se :: absvalues[j] == Size(band, block[..], j)
  {
    eob := 0;
    ghost var b: Block := block[..];
    for k := band.ss to band.se + 1
      invariant block[..] == b
      invariant forall j | band.ss <= j < k :: absvalues[j] == Size(band, b, j)
      invariant eob > 0 ==> band.ss <= eob < k && Size(band, b, eob) == 1
      invariant forall j | band.ss <= j < k && j > eob :: Size(band, b, j) != 1
    {
      var temp := block[Natural(k)];
      if temp < 0 {
        temp := -temp;
      }
      temp := Shr(temp, band.al);
      absvalues[k] := temp;
      if temp == 1 {
        eob := k;
      }
    }
  }

  lemma PendNothing(band: Band, blocks: seq<Block>, bits: seq<nat>, i: nat)
    requires band.Valid() && i <= |blocks|
    ensures Pend(band, blocks, 0, bits, 0, i) == Blocks(band, blocks, i, 0)
  {
  }

  /** The block counts as one more of the run, and its correction bits go with it. */
  lemma RunGrows(band: Band, blocks: seq<Block>, i: nat, run: nat, bits: seq<nat>, be: nat, k0: nat, r: nat, br: nat, eob: nat)
    requires band.Valid() && i < |blocks| && run < MAX_EOBRUN && be <= MAX_CORR_BITS - DCTSIZE2 + 1
    requires Track(band, blocks[i], bits, be, k0, band.se + 1, r, br, eob) && be + br <= |bits| && (r > 0 || br > 0)
    requires (run == 0 ==> be == 0) && (eob > 0 ==> run == 0) && (eob == 0 ==> k0 == band.ss)
    ensures Pend(band, blocks, run + 1, bits, be + br, i + 1)
            == if eob > 0 then Flush(run, bits, be, Plan(band, blocks, i, k0)) else Pend(band, blocks, run, bits, be, i)
  {
    hide Track, Buffered, OldCount, FirstNew, HasNew, Pend, Flush, Plan;
    TrackEnd(band, blocks[i], bits, be, k0, r, br, eob);
    if run > 0 {
      RunContinues(band, blocks, i, run, bits, be, br);
    } else {
      RunBegins(band, blocks, i, bits, k0, br);
      FlushNothing(bits, be, Plan(band, blocks, i, k0));
      if eob == 0 { PendPlan(band, blocks, bits, i); }
    }
  }

  lemma FlushNothing(bits: seq<nat>, be: nat, rest: Events)
    requires be <= |bits|
    ensures Flush(0, bits, be, rest) == rest
  {
  }

  lemma PendPlan(band: Band, blocks: seq<Block>, bits: seq<nat>, i: nat)
    requires band.Valid() && i < |blocks|
    ensures Pend(band, blocks, 0, bits, 0, i) == Plan(band, blocks, i, band.ss)
  {
    hide Plan;
  }

  /** The first block of a run. */
  lemma RunBegins(band: Band, blocks: seq<Block>, i: nat, bits: seq<nat>, k0: nat, br: nat)
    requires band.Valid() && i < |blocks| && k0 <= band.se && FirstNew(band, blocks[i], k0) > band.se
    requires br == OldCount(band, blocks[i], k0, band.se + 1) && br <= |bits|
    requires Buffered(band, blocks[i], bits, 0, k0, band.se + 1)
    ensures Pend(band, blocks, 1, bits, br, i + 1) == Plan(band, blocks, i, k0)
  {
    hide Buffered, OldCount, FirstNew, Plan, Blocks, OldBits, BitEvents, Joins, Eob;
    var n := Joins(band, blocks, 1, br, i + 1);
    PlanIsEob(band, blocks, i, k0);
    BufferedBits(band, blocks[i], bits, 0, k0, band.se + 1, br, Blocks(band, blocks, i + 1, n));
  }

  /** Another block of a run that is not full. */
  lemma RunContinues(band: Band, blocks: seq<Block>, i: nat, run: nat, bits: seq<nat>, be: nat, br: nat)
    requires band.Valid() && i < |blocks| && 0 < run < MAX_EOBRUN && be <= MAX_CORR_BITS - DCTSIZE2 + 1
    requires !HasNew(band, blocks[i]) && br == OldCount(band, blocks[i], band.ss, band.se + 1) && be + br <= |bits|
    requires Buffered(band, blocks[i], bits, be, band.ss, band.se + 1)
    ensures Pend(band, blocks, run + 1, bits, be + br, i + 1) == Pend(band, blocks, run, bits, be, i)
  {
    hide Buffered, OldCount, HasNew, Plan, OldBits, BitEvents, Joins, Eob, Blocks;
    JoinsMore(band, blocks, run, be, i);
    var n := Joins(band, blocks, run + 1, be + br, i + 1);
    var rest := Blocks(band, blocks, i + 1, n);
    BlocksInRun(band, blocks, i, 1 + n);
    BufferedBits(band, blocks[i], bits, be, band.ss, band.se + 1, br, rest);
    BitEventsSplit(bits, 0, be, be + br, rest);
  }

  lemma JoinsMore(band: Band, blocks: seq<Block>, run: nat, bits: nat, i: nat)
    requires band.Valid() && i < |blocks| && !Full(run, bits) && !HasNew(band, blocks[i])
    ensures Joins(band, blocks, run, bits, i)
            == 1 + Joins(band, blocks, run + 1, bits + OldCount(band, blocks[i], band.ss, band.se + 1), i + 1)
  {
    hide HasNew, OldCount, Full;
  }

  lemma BlocksInRun(band: Band, blocks: seq<Block>, i: nat, e: nat)
    requires band.Valid() && i < |blocks| && e > 0
    ensures Blocks(band, blocks, i, e)
            == OldBits(band, blocks[i], band.ss, band.se + 1, Blocks(band, blocks, i + 1, e - 1))
  {
    hide Plan, OldBits;
  }

  /** A block that ends with a new coefficient begins no run. */
  lemma NoRun(band: Band, blocks: seq<Block>, i: nat, run: nat, bits: seq<nat>, be: nat, k0: nat, r: nat, br: nat, eob: nat)
    requires band.Valid() && i < |blocks| && run <= MAX_EOBRUN && be <= |bits|
    requires Track(band, blocks[i], bits, be, k0, band.se + 1, r, br, eob) && r == 0 && br == 0
    requires (run == 0 ==> be == 0) && (eob > 0 ==> run == 0) && (eob == 0 ==> k0 == band.ss) && k0 <= band.se + 1
    ensures eob > 0 && run == 0 && be == 0
    ensures Flush(run, bits, be, Plan(band, blocks, i, k0)) == Pend(band, blocks, run, bits, be, i + 1)
  {
    hide Track, Buffered, OldCount, FirstNew, HasNew, Plan, Blocks;
    TrackEnd(band, blocks[i], bits, be, k0, r, br, eob);
    PlanEnds(band, blocks, i, k0);
  }

  lemma TrackEnd(band: Band, b: Block, bits: seq<nat>, start: nat, k0: nat, r: nat, br: nat, eob: nat)
    requires Track(band, b, bits, start, k0, band.se + 1, r, br, eob)
    ensures FirstNew(band, b, k0) == band.se + 1 && br == OldCount(band, b, k0, band.se + 1)
    ensures Buffered(band, b, bits, start, k0, band.se + 1)
    ensures k0 <= band.se <==> r > 0 || br > 0
    ensures eob == 0 ==> !HasNew(band, b)
  {
    NothingNew(band, b, k0);
    ZeroOrOld(band, b, k0, band.se + 1);
    if eob == 0 { NothingNew(band, b, band.ss); }
  }

  lemma BeforeLast(band: Band, b: Block, bits: seq<nat>, start: nat, k0: nat, k: nat, r: nat, br: nat, eob: nat)
    requires Track(band, b, bits, start, k0, k, r, br, eob) && k <= band.se && Size(band, b, k) == 1
    ensures 0 < k <= eob
  {
  }

  lemma SixteenInPlan(band: Band, blocks: seq<Block>, i: nat, bits: seq<nat>, start: nat, k0: nat, k: nat,
                      r: nat, br: nat, eob: nat)
    returns (m: nat)
    requires i < |blocks| && Track(band, blocks[i], bits, start, k0, k, r, br, eob) && r > 15 && k <= eob
    ensures band.Valid() && k0 <= m < 64 && eob > 0 && start + br <= |bits|
    ensures Plan(band, blocks, i, k0) == Cons(Symbol(0, 0xF0), BitEvents(bits, start, start + br, Plan(band, blocks, i, m + 1)))
    ensures Track(band, blocks[i], bits, 0, m + 1, k, r - 16, 0, eob)
  {
    hide *;
    TrackBounds(band, blocks[i], bits, start, k0, k, r, br, eob);
    TrackQuiet(band, blocks[i], bits, start, k0, k, r, br, eob);
    var t;
    t, m := TrackSixteen(band, blocks[i], bits, start, k0, k, r, br, eob);
    SixteenBits(band, blocks[i], bits, start, k0, k, m, Plan(band, blocks, i, m + 1));
    PlanIsZerosAt(band, blocks, i, k0, t, m);
  }

  lemma TrackQuiet(band: Band, b: Block, bits: seq<nat>, start: nat, k0: nat, k: nat, r: nat, br: nat, eob: nat)
    requires Track(band, b, bits, start, k0, k, r, br, eob) && k <= eob
    ensures k0 <= k <= 64 && Quiet(band, b, k0, k) && Buffered(band, b, bits, start, k0, k)
    ensures r == Zeros(band, b, k0, k) && br == OldCount(band, b, k0, k)
  {
  }

  lemma NewInPlan(band: Band, blocks: seq<Block>, i: nat, bits: seq<nat>, start: nat, k0: nat, k: nat,
                  r: nat, br: nat, eob: nat)
    requires i < |blocks| && Track(band, blocks[i], bits, start, k0, k, r, br, eob) && r <= 15
    requires k <= band.se && Size(band, blocks[i], k) == 1
    ensures band.Valid() && k0 <= k < 64 && eob > 0 && start + br <= |bits|
    ensures Plan(band, blocks, i, k0)
            == Cons(Symbol(0, (16 * r + 1) as byte),
                    Cons(Raw(if blocks[i][Natural(k)] < 0 then 0 else 1, 1),
                         BitEvents(bits, start, start + br, Plan(band, blocks, i, k + 1))))
    ensures Track(band, blocks[i], bits, 0, k + 1, k + 1, 0, 0, eob)
  {
    TrackBounds(band, blocks[i], bits, start, k0, k, r, br, eob);
    assert r == Zeros(band, blocks[i], k0, k);
    hide Plan, Track, OldBits, FirstNew, Zeros, BitEvents, Size, Natural;
    TrackNew(band, blocks[i], bits, start, k0, k, r, br, eob, Plan(band, blocks, i, k + 1));
    PlanIsNewAt(band, blocks, i, k0, k, r);
  }

  lemma TrackBounds(band: Band, b: Block, bits: seq<nat>, start: nat, k0: nat, k: nat, r: nat, br: nat, eob: nat)
    requires Track(band, b, bits, start, k0, k, r, br, eob)
    ensures band.Valid() && 1 <= band.ss <= k0 <= k <= band.se + 1 <= 64
    ensures start + br <= |bits| && r <= k - k0 && br <= k - k0
  {
    BufferedFits(band, b, bits, start, k0, k);
    ZeroOrOld(band, b, k0, k);
  }

  /** The buffer holds bits. */
  ghost predicate OneBitEach(bits: seq<nat>) {
    forall j | 0 <= j < |bits| :: bits[j] <= 1
  }

  lemma SingleBit(v: nat)
    requires v <= 1
    ensures LowBits(v, 1) == v
  {
    assert v < Shl(1, 1);
  }

  lemma RunLowBits(run: nat, n: nat)
    requires Shl(1, n) <= run < Shl(1, n + 1)
    ensures LowBits(run, n) == run - Shl(1, n)
  {
    LowBitsAre(1, run - Shl(1, n), n);
  }

  lemma EmitsHead(book: Book, sink: Sink, e: Event, rest: Events, gather: bool)
    ensures EmitAll([book], sink, Cons(e, rest)) == EmitAll([book], Emit([book], sink, e), rest)
    ensures AllCodable([book], Cons(e, rest)) <==> Codable([book], e) && AllCodable([book], rest)
  {
  }

  lemma SymbolSize(book: Book, s: byte)
    requires book.Valid()
    ensures |book.codes.ehufsi| == |book.codes.ehufco| == 256 && book.codes.ehufsi[s] <= 16
  {
    if book.codes.ehufsi[s] > 0 { var p := CodeOfSymbol(book, s); }
  }
}
