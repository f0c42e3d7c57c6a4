/** `decode_mcu_AC_first` of jdphuff.c. */
module AcFirstDecoder {
  import opened Shifts
  import opened BitStrings
  import opened CanonicalCodes
  import opened HuffmanTables
  import opened CodeEvents
  import opened BitReader
  import opened EventReader
  import opened Zigzag
  import opened PointTransform
  import opened AcRefineRun
  import opened AcRefineModel
  import opened AcRefinePlan
  import opened AcRefineDecoder
  import opened AcFirstModel
  import opened Wrappers

  /** The coefficients of the band before `k` are done; those from `k` on are zero, or have
      been assigned by a call that had to be suspended. */
  ghost predicate Assigned(band: Band, b: Block, base: Block, cur: seq<int>, k: nat) {
    && |cur| == 64
    && forall j | 0 <= j < 64 ::
         if band.ss <= j <= band.se
         then cur[Natural(j)] == Point(b[Natural(j)], band.al) || (j >= k && cur[Natural(j)] == 0)
         else cur[Natural(j)] == base[Natural(j)]
  }

  lemma AssignedAll(band: Band, b: Block, base: Block, cur: seq<int>)
    requires Assigned(band, b, base, cur, band.se + 1)
    ensures Refined(band, b, base, cur, band.se + 1)
  {
  }

  /** A coefficient that is zero after the point transform. */
  lemma {:induction false} PassZeros(band: Band, b: Block, base: Block, cur: seq<int>, k: nat, t: nat)
    requires band.Valid() && Assigned(band, b, base, cur, k) && band.ss <= k <= t <= band.se + 1
    requires forall j | k <= j < t :: Size(band, b, j) == 0
    ensures Assigned(band, b, base, cur, t)
  {
    forall j | k <= j < t ensures Point(b[Natural(j)], band.al) == 0 {
      assert Size(band, b, j) == 0;
      PointRefines(b[Natural(j)], band.al);
    }
  }

  lemma AssignOne(band: Band, b: Block, base: Block, cur: seq<int>, k: nat, v: int)
    requires band.Valid() && Assigned(band, b, base, cur, k) && band.ss <= k <= band.se
    requires v == Point(b[Natural(k)], band.al)
    ensures Assigned(band, b, base, cur[Natural(k) := v], k + 1)
  {
    hide Point;
    forall j | 0 <= j < 64 && Natural(j) == Natural(k) ensures j == k { NaturalInjective(j, k); }
  }

  /** The symbol of a coefficient, taken apart. */
  lemma SymbolParts(zeros: nat, n: nat)
    requires zeros <= 15 && 1 <= n <= 15
    ensures (16 * zeros + n) % 256 == 16 * zeros + n
    ensures (16 * zeros + n) / 16 == zeros && (16 * zeros + n) % 16 == n
  {
  }

  /** The value of a coefficient, from its bits. */
  lemma ValueIs(band: Band, b: Block, t: nat)
    requires t < 64 && Size(band, b, t) > 0
    ensures var v := Size(band, b, t);
            var s := Extend(SignedBits(b[Natural(t)] < 0, v, BitLength(v)), BitLength(v));
            Signed(s < 0, Shl(Abs(s), band.al)) == Point(b[Natural(t)], band.al)
  {
    hide Shl, Shr, Log2, Natural;
    var v := Size(band, b, t);
    ExtendInverts(b[Natural(t)] < 0, v);
  }

  /** The bits behind an end-of-band symbol with `r` bits. */
  function RunBits(run: nat, r: nat, rest: Events): Events
    requires Shl(1, r) <= run
  {
    if r > 0 then Cons(Raw(run - Shl(1, r), r), rest) else rest
  }

  /** The first symbol of the plan when the rest of the band is empty. */
  lemma HeadIsEob(band: Band, blocks: seq<Block>, i: nat, k: nat) returns (r: nat)
    requires band.Valid() && i < |blocks| && k <= band.se && FirstNonzero(band, blocks[i], k) > band.se
    ensures var run := 1 + EmptyRun(band, blocks, 1, i + 1);
            && r <= 14 && Shl(1, r) <= run < Shl(1, r + 1) && run <= MAX_EOBRUN
            && FirstPlan(band, blocks, i, k)
               == Cons(Symbol(0, (16 * r) as byte), RunBits(run, r, FirstBlocks(band, blocks, i + 1, run - 1)))
  {
    hide FirstPlan, FirstNonzero, EmptyRun, FirstBlocks, Shl, Size, Log2;
    var run := 1 + EmptyRun(band, blocks, 1, i + 1);
    FirstPlanIsEob(band, blocks, i, k);
    Log2Fits(run);
    Log2Bounds(run);
    r := Log2(run);
  }

  /** The first symbol of the plan when a coefficient is near. */
  lemma HeadIsCoef(band: Band, blocks: seq<Block>, i: nat, k: nat, t: nat) returns (n: nat)
    requires band.Valid() && i < |blocks| && Small(band, blocks[i]) && band.ss <= k <= band.se
    requires t == FirstNonzero(band, blocks[i], k) <= band.se && t - k <= 15
    ensures var v, negative := Size(band, blocks[i], t), blocks[i][Natural(t)] < 0;
            && v > 0 && n == BitLength(v) && 1 <= n <= MAX_COEF_BITS
            && FirstPlan(band, blocks, i, k)
               == Cons(Symbol(0, (16 * (t - k) + n) as byte),
                       Cons(Raw(SignedBits(negative, v, n), n), FirstPlan(band, blocks, i, t + 1)))
  {
    hide FirstPlan, FirstNonzero, FirstBlocks, Shl, Size, Natural, Log2, Small, BitLength, SignedBits;
    n := SmallLength(band, blocks[i], t);
    FirstPlanIsCoef(band, blocks, i, k, t);
    SymbolParts(t - k, n);
  }

  /** The first symbol of the plan from `k` on, and what it means. */
  lemma FirstHead(band: Band, blocks: seq<Block>, i: nat, k: nat) returns (s: byte, rest: Events)
    requires band.Valid() && i < |blocks| && Small(band, blocks[i]) && band.ss <= k <= band.se
    ensures FirstPlan(band, blocks, i, k) == Cons(Symbol(0, s), rest)
    ensures HeadMeans(band, blocks, i, k, s, rest)
  {
    hide FirstPlan, FirstNonzero, EmptyRun, FirstBlocks, Shl, Size, Natural, Log2, RunBits, Small, HeadMeans, BitLength, SignedBits;
    var t := FirstNonzero(band, blocks[i], k);
    if t > band.se {
      var r := HeadIsEob(band, blocks, i, k);
      s := (16 * r) as byte;
      rest := FirstPlan(band, blocks, i, k).tail;
      MeansEob(band, blocks, i, k, r, rest);
    } else if t - k > 15 {
      FirstPlanIsZeros(band, blocks, i, k, t);
      s := 0xF0;
      rest := FirstPlan(band, blocks, i, k + 16);
      MeansZeros(band, blocks, i, k);
    } else {
      var n := HeadIsCoef(band, blocks, i, k, t);
      s := (16 * (t - k) + n) as byte;
      rest := FirstPlan(band, blocks, i, k).tail;
      MeansCoef(band, blocks, i, k, t, n, rest);
    }
  }

  /** What the decoder should make of a symbol. */
  ghost predicate HeadMeans(band: Band, blocks: seq<Block>, i: nat, k: nat, s: byte, rest: Events)
    requires band.Valid() && i < |blocks| && band.ss <= k <= band.se
  {
    var b, t := blocks[i], FirstNonzero(band, blocks[i], k);
    var r, n := s as nat / 16, s as nat % 16;
    if n != 0 then
      && t <= band.se && t == k + r && n == BitLength(Size(band, b, t))
      && rest == Cons(Raw(SignedBits(b[Natural(t)] < 0, Size(band, b, t), n), n), FirstPlan(band, blocks, i, t + 1))
    else if r == 15 then k + 16 <= t <= band.se && rest == FirstPlan(band, blocks, i, k + 16)
    else
      var run := 1 + EmptyRun(band, blocks, 1, i + 1);
      && t > band.se && r <= 14 && Shl(1, r) <= run < Shl(1, r + 1) && run <= MAX_EOBRUN
      && rest == RunBits(run, r, FirstBlocks(band, blocks, i + 1, run - 1))
  }

  lemma MeansEob(band: Band, blocks: seq<Block>, i: nat, k: nat, r: nat, rest: Events)
    requires band.Valid() && i < |blocks| && band.ss <= k <= band.se && FirstNonzero(band, blocks[i], k) > band.se
    requires var run := 1 + EmptyRun(band, blocks, 1, i + 1);
             && r <= 14 && Shl(1, r) <= run < Shl(1, r + 1) && run <= MAX_EOBRUN
             && rest == RunBits(run, r, FirstBlocks(band, blocks, i + 1, run - 1))
    ensures HeadMeans(band, blocks, i, k, (16 * r) as byte, rest)
  {
    hide FirstPlan, FirstNonzero, EmptyRun, FirstBlocks, Shl, Size, Natural, Log2, RunBits;
    EobParts(r);
  }

  lemma MeansZeros(band: Band, blocks: seq<Block>, i: nat, k: nat)
    requires band.Valid() && i < |blocks| && band.ss <= k <= band.se && k + 16 <= FirstNonzero(band, blocks[i], k) <= band.se
    ensures HeadMeans(band, blocks, i, k, 0xF0, FirstPlan(band, blocks, i, k + 16))
  {
    hide FirstPlan, FirstNonzero, EmptyRun, FirstBlocks, Shl, Size, Natural, Log2, RunBits;
  }

  lemma MeansCoef(band: Band, blocks: seq<Block>, i: nat, k: nat, t: nat, n: nat, rest: Events)
    requires band.Valid() && i < |blocks| && band.ss <= k <= band.se && t == FirstNonzero(band, blocks[i], k) <= band.se
    requires t - k <= 15 && 1 <= n <= MAX_COEF_BITS && n == BitLength(Size(band, blocks[i], t))
    requires rest == Cons(Raw(SignedBits(blocks[i][Natural(t)] < 0, Size(band, blocks[i], t), n), n),
                          FirstPlan(band, blocks, i, t + 1))
    ensures HeadMeans(band, blocks, i, k, (16 * (t - k) + n) as byte, rest)
  {
    hide FirstPlan, FirstNonzero, EmptyRun, FirstBlocks, Shl, Size, Natural, Log2, RunBits;
    SymbolParts(t - k, n);
  }

  lemma EobParts(r: nat)
    requires r <= 14
    ensures 16 * r % 16 == 0 && 16 * r / 16 == r && 16 * r != 0xF0
  {
  }

  lemma SmallLength(band: Band, b: Block, t: nat) returns (n: nat)
    requires band.Valid() && Small(band, b) && band.ss <= t <= band.se && Size(band, b, t) > 0
    ensures n == BitLength(Size(band, b, t)) && 1 <= n <= MAX_COEF_BITS
  {
    hide Shl, Log2, Size;
    n := BitLength(Size(band, b, t));
    ExponentOrder(n - 1, MAX_COEF_BITS);
  }

  /** A coefficient: its bits are read and its value is stored. */
  method DecodeValue(reader: Reader, block: array<int>, t: nat, n: nat, ghost band: Band, al: nat, ghost b: Block,
                     ghost base: Block, ghost books: Books, ghost rest: Events) returns (ok: bool)
    requires reader.Valid() && !reader.insufficientData && block.Length == 64 && al == band.al
    requires band.Valid() && band.ss <= t <= band.se && Size(band, b, t) > 0 && n == BitLength(Size(band, b, t)) <= 16
    requires Assigned(band, b, base, block[..], t)
    requires Facing(reader, books, Cons(Raw(SignedBits(b[Natural(t)] < 0, Size(band, b, t), n), n), rest))
    modifies reader`pos, reader`unreadMarker, reader`getBuffer, reader`bitsLeft, reader`insufficientData
    modifies reader`spent, reader`at, block
    ensures reader.Valid() && !reader.insufficientData && Assigned(band, b, base, block[..], if ok then t + 1 else t)
    ensures ok ==> Facing(reader, books, rest)
    ensures !ok ==> reader.unreadMarker == 0
    ensures old(reader.unreadMarker) != 0 ==> reader.unreadMarker != 0
    ensures old(reader.Complete()) ==> ok && reader.Complete()
  {
    hide Reader.Valid, Reader.Complete, Facing, Assigned, Shl, Size, Natural, Log2;
    ghost var was := block[..];
    ghost var v := SignedBits(b[Natural(t)] < 0, Size(band, b, t), n);
    var r := ReadBits(reader, n, books, v, rest);
    if r.None? { return false; }
    var s := Extend(r.value, n);
    ValueIs(band, b, t);
    AssignOne(band, b, base, was, t, Point(b[Natural(t)], band.al));
    block[Natural(t)] := Signed(s < 0, Shl(Abs(s), al));
    assert block[..] == was[Natural(t) := Point(b[Natural(t)], band.al)];
    ok := true;
  }

  /** The length of a run of end-of-bands. */
  method DecodeRun(reader: Reader, r: nat, ghost run: nat, ghost books: Books, ghost rest: Events) returns (length: Option<nat>)
    requires reader.Valid() && !reader.insufficientData && r <= 14 && Shl(1, r) <= run < Shl(1, r + 1)
    requires Facing(reader, books, RunBits(run, r, rest))
    modifies reader`pos, reader`unreadMarker, reader`getBuffer, reader`bitsLeft, reader`insufficientData
    modifies reader`spent, reader`at
    ensures reader.Valid() && !reader.insufficientData
    ensures length.Some? ==> length.value == run && Facing(reader, books, rest)
    ensures length.None? ==> reader.unreadMarker == 0
    ensures old(reader.unreadMarker) != 0 ==> reader.unreadMarker != 0
    ensures old(reader.Complete()) ==> length.Some? && reader.Complete()
  {
    var eobrun := Shl(1, r);
    if r != 0 {
      hide Reader.Valid, Reader.Complete, Facing, Shl;
      var extra := ReadBits(reader, r, books, run - Shl(1, r), rest);
      if extra.None? { return None; }
      eobrun := eobrun + extra.value;
    }
    length := Some(eobrun);
  }

  /** An empty rest of the band. */
  lemma PassRest(band: Band, blocks: seq<Block>, i: nat, base: Block, cur: seq<int>, k: nat)
    requires band.Valid() && i < |blocks| && band.ss <= k <= band.se + 1 && Assigned(band, blocks[i], base, cur, k)
    requires FirstNonzero(band, blocks[i], k) > band.se
    ensures Assigned(band, blocks[i], base, cur, band.se + 1)
  {
    hide Assigned, Size;
    PassZeros(band, blocks[i], base, cur, k, FirstNonzero(band, blocks[i], k));
  }

  /** The blocks that join a run are empty. */
  lemma RunIsEmpty(band: Band, blocks: seq<Block>, i: nat)
    requires band.Valid() && i < |blocks|
    ensures EmptyBlocks(band, blocks, i + 1, EmptyRun(band, blocks, 1, i + 1))
  {
    hide Empty;
    EmptyAhead(band, blocks, 1, i + 1);
  }

  lemma SkipSome(band: Band, blocks: seq<Block>, i: nat, base: Block, cur: seq<int>, k: nat, m: nat)
    requires band.Valid() && i < |blocks| && band.ss <= k <= band.se && Assigned(band, blocks[i], base, cur, k)
    requires k <= m <= FirstNonzero(band, blocks[i], k)
    ensures Assigned(band, blocks[i], base, cur, m)
  {
    hide Assigned, Size;
    PassZeros(band, blocks[i], base, cur, k, m);
  }

  /** One symbol and what belongs to it: the index behind it, or the length of a run of
      end-of-bands. */
  method DecodeFirstSymbol(reader: Reader, table: DecoderTable, band: Band, block: array<int>, k: nat,
                           ghost blocks: seq<Block>, ghost i: nat, ghost base: Block, ghost books: Books)
    returns (ok: bool, next: nat, run: nat)
    requires reader.Valid() && table.Valid() && !reader.insufficientData && block.Length == 64
    requires |books| == 1 && table.bits == books[0].bits && table.huffval == books[0].huffval
    requires band.Valid() && i < |blocks| && Small(band, blocks[i]) && band.ss <= k <= band.se
    requires Assigned(band, blocks[i], base, block[..], k) && Facing(reader, books, FirstPlan(band, blocks, i, k))
    modifies reader`pos, reader`unreadMarker, reader`getBuffer, reader`bitsLeft, reader`insufficientData
    modifies reader`spent, reader`at, block
    ensures reader.Valid() && !reader.insufficientData
    ensures ok && run == 0 ==> k < next <= band.se + 1 && Assigned(band, blocks[i], base, block[..], next)
                               && Facing(reader, books, FirstPlan(band, blocks, i, next))
    ensures ok && run > 0 ==> Assigned(band, blocks[i], base, block[..], band.se + 1)
                              && EmptyBlocks(band, blocks, i + 1, run - 1)
                              && Facing(reader, books, FirstBlocks(band, blocks, i + 1, run - 1))
    ensures !ok ==> reader.unreadMarker == 0 && Assigned(band, blocks[i], base, block[..], band.ss)
    ensures old(reader.unreadMarker) != 0 ==> reader.unreadMarker != 0
    ensures old(reader.Complete()) ==> ok && reader.Complete()
  {
    hide Reader.Valid, Reader.Complete, Facing, Assigned, FirstPlan, FirstNonzero, EmptyRun, FirstBlocks, Shl, Size, Log2,
         RunBits, Small, BitLength, SignedBits, DecoderTable.Valid, EmptyBlocks;
    ghost var head, rest := FirstHead(band, blocks, i, k);
    AssignedBefore(band, blocks[i], base, block[..], k);
    ok, next, run := false, k, 0;
    var symbol := ReadAhead(reader, table, books, 0, head, rest);
    if symbol.None? { return; }
    var r, s := symbol.value as nat / 16, symbol.value as nat % 16;
    if s != 0 {
      SkipSome(band, blocks, i, base, block[..], k, k + r);
      ok := DecodeValue(reader, block, k + r, s, band, band.al, blocks[i], base, books, FirstPlan(band, blocks, i, k + r + 1));
      if !ok { AssignedBefore(band, blocks[i], base, block[..], k + r); }
      next := k + r + 1;
    } else if r == 15 {
      SkipSome(band, blocks, i, base, block[..], k, k + 16);
      ok, next := true, k + 16;
    } else {
      PassRest(band, blocks, i, base, block[..], k);
      RunIsEmpty(band, blocks, i);
      ghost var length := 1 + EmptyRun(band, blocks, 1, i + 1);
      var read := DecodeRun(reader, r, length, books, FirstBlocks(band, blocks, i + 1, length - 1));
      if read.Some? { ok, run := true, read.value; }
    }
  }

  lemma AssignedBefore(band: Band, b: Block, base: Block, cur: seq<int>, k: nat)
    requires Assigned(band, b, base, cur, k) && band.ss <= k
    ensures Assigned(band, b, base, cur, band.ss)
  {
  }

  /** The symbols of a block that is not part of a run yet. */
  method DecodeFirstBand(reader: Reader, table: DecoderTable, band: Band, block: array<int>,
                         ghost blocks: seq<Block>, ghost i: nat, ghost base: Block, ghost books: Books)
    returns (ok: bool, eobrun: nat)
    requires reader.Valid() && table.Valid() && !reader.insufficientData && block.Length == 64
    requires |books| == 1 && table.bits == books[0].bits && table.huffval == books[0].huffval
    requires band.Valid() && i < |blocks| && Small(band, blocks[i])
    requires Assigned(band, blocks[i], base, block[..], band.ss) && Facing(reader, books, FirstPlan(band, blocks, i, band.ss))
    modifies reader`pos, reader`unreadMarker, reader`getBuffer, reader`bitsLeft, reader`insufficientData
    modifies reader`spent, reader`at, block
    ensures reader.Valid() && !reader.insufficientData
    ensures ok ==> Assigned(band, blocks[i], base, block[..], band.se + 1) && EmptyBlocks(band, blocks, i + 1, eobrun)
                   && Facing(reader, books, FirstBlocks(band, blocks, i + 1, eobrun))
    ensures !ok ==> reader.unreadMarker == 0 && Assigned(band, blocks[i], base, block[..], band.ss)
    ensures old(reader.unreadMarker) != 0 ==> reader.unreadMarker != 0
    ensures old(reader.Complete()) ==> ok && reader.Complete()
  {
    hide Reader.Valid, Reader.Complete, Facing, Assigned, FirstPlan, FirstBlocks, Small, DecoderTable.Valid, Empty;
    var k, run := band.ss, 0;
    eobrun := 0;
    while k <= band.se
      invariant reader.Valid() && !reader.insufficientData && band.ss <= k <= band.se + 1
      invariant Assigned(band, blocks[i], base, block[..], k) && Facing(reader, books, FirstPlan(band, blocks, i, k))
      invariant old(reader.unreadMarker) != 0 ==> reader.unreadMarker != 0
      invariant old(reader.Complete()) ==> reader.Complete()
      decreases band.se + 1 - k
    {
      ok, k, run := DecodeFirstSymbol(reader, table, band, block, k, blocks, i, base, books);
      if !ok { return; }
      if run > 0 {
        eobrun := run - 1;
        return;
      }
    }
    FirstPlanEnds(band, blocks, i, k);
    ok := true;
  }

  /** One block of a first AC scan.  What a call that had to be suspended has assigned does
      no harm: it is what the next call assigns again. */
  method DecodeFirstMcu(decoder: PhuffDecoder, block: array<int>, ghost blocks: seq<Block>, ghost i: nat,
                        ghost base: Block, ghost books: Books)
    returns (ok: bool)
    requires decoder.Ready() && block.Length == 64 && i < |blocks| && Small(decoder.band, blocks[i])
    requires |books| == 1 && decoder.table.bits == books[0].bits && decoder.table.huffval == books[0].huffval
    requires Assigned(decoder.band, blocks[i], base, block[..], decoder.band.ss)
    requires EmptyBlocks(decoder.band, blocks, i, decoder.eobrun)
    requires FacingSaved(decoder, books, FirstBlocks(decoder.band, blocks, i, decoder.eobrun))
    modifies decoder`eobrun, block
    modifies decoder.reader`pos, decoder.reader`unreadMarker, decoder.reader`getBuffer, decoder.reader`bitsLeft
    modifies decoder.reader`insufficientData, decoder.reader`spent, decoder.reader`at, decoder.reader`savedPos
    modifies decoder.reader`savedBuffer, decoder.reader`savedLeft, decoder.reader`savedAt, decoder.reader`savedSpent
    ensures decoder.Ready() && decoder.reader.insufficientData == old(decoder.reader.insufficientData)
    ensures old(decoder.reader.insufficientData) ==> ok && block[..] == old(block[..]) && decoder.eobrun == old(decoder.eobrun)
    ensures ok && !old(decoder.reader.insufficientData) ==>
              && Assigned(decoder.band, blocks[i], base, block[..], decoder.band.se + 1)
              && EmptyBlocks(decoder.band, blocks, i + 1, decoder.eobrun)
              && FacingSaved(decoder, books, FirstBlocks(decoder.band, blocks, i + 1, decoder.eobrun))
    ensures !ok ==> Assigned(decoder.band, blocks[i], base, block[..], decoder.band.ss)
                    && decoder.eobrun == old(decoder.eobrun) && decoder.reader.savedAt == old(decoder.reader.savedAt)
    ensures old(decoder.reader.Settled()) ==> ok && decoder.reader.Settled()
  {
    hide Reader.Valid, Reader.Saved, Reader.Complete, Reader.Settled, DecoderTable.Valid, Assigned, FirstBlocks, Small,
         Ahead, AllCodable, EmptyBlocks, FirstPlan;
    ok := true;
    if decoder.reader.insufficientData { return; }
    if decoder.eobrun > 0 {
      JoinsRun(decoder.band, blocks, i, base, block[..], decoder.eobrun);
      decoder.eobrun := decoder.eobrun - 1;
      return;
    }
    BlockStarts(decoder.band, blocks, i);
    decoder.reader.Load();
    var run;
    ok, run := DecodeFirstBand(decoder.reader, decoder.table, decoder.band, block, blocks, i, base, books);
    if ok {
      decoder.reader.Save();
      decoder.eobrun := run;
    }
  }

  ghost predicate FacingSaved(decoder: PhuffDecoder, books: Books, events: Events)
    reads decoder.reader`stream, decoder.reader`savedAt
  {
    Ahead(books, decoder.reader.stream, decoder.reader.savedAt, events) && AllCodable(books, events)
  }

  lemma BlockStarts(band: Band, blocks: seq<Block>, i: nat)
    requires band.Valid() && i < |blocks|
    ensures FirstBlocks(band, blocks, i, 0) == FirstPlan(band, blocks, i, band.ss)
  {
    hide FirstPlan;
  }

  /** A block of a run: nothing is read and nothing assigned. */
  lemma JoinsRun(band: Band, blocks: seq<Block>, i: nat, base: Block, cur: seq<int>, e: nat)
    requires band.Valid() && i < |blocks| && e > 0 && EmptyBlocks(band, blocks, i, e)
    requires Assigned(band, blocks[i], base, cur, band.ss)
    ensures Assigned(band, blocks[i], base, cur, band.se + 1) && EmptyBlocks(band, blocks, i + 1, e - 1)
    ensures FirstBlocks(band, blocks, i, e) == FirstBlocks(band, blocks, i + 1, e - 1)
  {
    hide Assigned, FirstPlan, FirstNonzero;
    assert Empty(band, blocks[i]);
    PassRest(band, blocks, i, base, cur, band.ss);
  }
}
