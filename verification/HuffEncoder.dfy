/** `encode_one_block` and `encode_mcu_huff` of jchuff.c, with restart markers. */
module HuffEncoder {
  import opened JpegLimits
  import opened Segments
  import opened Shifts
  import opened EntropySource
  import opened BitStrings
  import opened BitReader
  import opened BitWriter
  import opened CodeEvents
  import opened HeldBits
  import opened HuffmanTables
  import opened Zigzag
  import opened PointTransform
  import opened AcRefineModel
  import AcRefineEncoder
  import opened AcFirstModel
  import AcFirstEncoder
  import DcEncoder
  import Dc = DcModel
  import opened BaseModel
  import opened Wrappers

  /** `x ^ m` for a mask of all ones or zeros. */
  function Flip(x: int, m: int): int {
    if m == -1 then -x - 1 else x
  }

  /** The two's complement of 32 bits. */
  function Word(x: int): (w: nat)
    ensures w < 0x1_0000_0000
  {
    x % 0x1_0000_0000
  }

  /** The absolute value and the bits to be appended, without a branch. */
  lemma Branchless(x: int)
    requires Abs(x) < 0x8000_0000
    ensures var m := if x < 0 then -1 else 0;
            Flip(x, m) - m == Abs(x) && Word(x + m) == if x < 0 then 0xFFFF_FFFF - Abs(x) else Abs(x)
  {
  }

  /** What writing leads to: the bits, and how many of them the register holds. */
  datatype Goal = Goal(bits: seq<bool>, held: nat)

  ghost function GoalOf(books: Books, events: Events): Goal {
    Goal(Spell(books, [], events), HeldAfter(books, 0, events))
  }

  /** Writing the events leads there, and all of them can be coded. */
  ghost predicate Writes(writer: HuffWriter, books: Books, events: Events, goal: Goal)
    reads writer`written, writer`putBits
  {
    Spell(books, writer.written, events) == goal.bits && HeldAfter(books, writer.putBits, events) == goal.held
    && AllCodable(books, events)
  }

  /** The code of a symbol that comes next. */
  lemma NextSymbol(books: Books, table: EncoderTable, tbl: nat, s: byte, rest: Events, written: seq<bool>)
    requires tbl < |books| && books[tbl].codes == table && AllCodable(books, Cons(Symbol(tbl, s), rest))
    ensures |table.ehufco| == |table.ehufsi| == 256 && 0 < table.ehufsi[s] <= 16
    ensures table.ehufco[s] < Shl(1, table.ehufsi[s]) && AllCodable(books, rest)
    ensures Spell(books, written, Cons(Symbol(tbl, s), rest))
            == Spell(books, written + BitsOf(table.ehufco[s], table.ehufsi[s]), rest)
    ensures Length(books, Symbol(tbl, s)) == table.ehufsi[s]
  {
    hide Shl, BitsOf;
    var p := CodeOfSymbol(books[tbl], s);
  }

  lemma NextBits(books: Books, v: nat, n: nat, rest: Events, written: seq<bool>)
    requires AllCodable(books, Cons(Raw(v, n), rest))
    ensures 0 < n <= 16 && v < Shl(1, n) && AllCodable(books, rest)
    ensures Spell(books, written, Cons(Raw(v, n), rest)) == Spell(books, written + BitsOf(v, n), rest)
  {
    hide Shl, BitsOf;
  }

  lemma HeldSymbol(books: Books, held: nat, tbl: nat, s: byte, rest: Events)
    requires if tbl < NUM_HUFF_TBLS then s != 0 else s as nat % 16 == 0
    ensures HeldAfter(books, held, Cons(Symbol(tbl, s), rest))
            == HeldAfter(books, Emptied(held, 6) + Length(books, Symbol(tbl, s)), rest)
  {
    hide Length;
  }

  lemma HeldZero(books: Books, held: nat, tbl: nat, rest: Events)
    requires tbl < NUM_HUFF_TBLS
    ensures HeldAfter(books, held, Cons(Symbol(tbl, 0), rest))
            == HeldAfter(books, Emptied(Emptied(held, 6) + Length(books, Symbol(tbl, 0)), 6), rest)
  {
    hide Length;
  }

  lemma HeldRaw(books: Books, held: nat, v: nat, n: nat, rest: Events)
    ensures HeldAfter(books, held, Cons(Raw(v, n), rest)) == HeldAfter(books, Emptied(held, 6) + n, rest)
  {
  }

  lemma HeldPair(books: Books, held: nat, tbl: nat, s: byte, v: nat, n: nat, rest: Events)
    requires tbl >= NUM_HUFF_TBLS && s as nat % 16 != 0
    ensures HeldAfter(books, held, Cons(Symbol(tbl, s), Cons(Raw(v, n), rest)))
            == HeldAfter(books, Emptied(held, 4) + Length(books, Symbol(tbl, s)) + n, rest)
  {
    hide Length;
  }

  /** A symbol alone. */
  method EmitSymbol(writer: HuffWriter, table: EncoderTable, s: byte, ghost books: Books, ghost tbl: nat,
                    ghost rest: Events, ghost goal: Goal)
    requires writer.Valid() && tbl < |books| && books[tbl].codes == table
    requires if tbl < NUM_HUFF_TBLS then s != 0 else s as nat % 16 == 0
    requires Writes(writer, books, Cons(Symbol(tbl, s), rest), goal)
    modifies writer`putBuffer, writer`putBits, writer`output, writer`data, writer`written, writer`spent
    ensures writer.Valid() && Writes(writer, books, rest, goal)
  {
    hide HuffWriter.Valid, Spell, AllCodable, Shl, BitsOf, HeldAfter, Length;
    NextSymbol(books, table, tbl, s, rest, writer.written);
    HeldSymbol(books, writer.putBits, tbl, s, rest);
    writer.EmitBits(table.ehufco[s], table.ehufsi[s]);
  }

  /** The DC difference. */
  method EncodeDc(writer: HuffWriter, dctbl: EncoderTable, diff: int, ghost books: Books, ghost tbl: nat,
                  ghost rest: Events, ghost goal: Goal)
    requires writer.Valid() && tbl < |books| && tbl < NUM_HUFF_TBLS && books[tbl].codes == dctbl && Abs(diff) < Shl(1, MAX_SIZE)
    requires Writes(writer, books, Dc.Difference(tbl, diff, rest), goal)
    modifies writer`putBuffer, writer`putBits, writer`output, writer`data, writer`written, writer`spent
    ensures writer.Valid() && Writes(writer, books, rest, goal)
  {
    hide HuffWriter.Valid, Writes, Shl, BitsOf, LowBits, Log2, SignedBits, Dc.Difference;
    assert Abs(diff) < 0x8000 by { Powers(); }
    Branchless(diff);
    var temp3 := if diff < 0 then -1 else 0;
    var temp := Flip(diff, temp3) - temp3;
    var temp2 := Word(diff + temp3);
    var nbits := DcEncoder.CountBits(temp);
    if diff != 0 { DcEncoder.BitsAtMost(temp, MAX_SIZE); }
    DcEncoder.DifferenceIs(tbl, diff, nbits, rest);
    DcBits(diff, nbits);
    if nbits == 0 {
      EmitZero(writer, dctbl, books, tbl, rest, goal);
    } else {
      ghost var v := SignedBits(diff < 0, temp, nbits);
      EmitSymbol(writer, dctbl, nbits as byte, books, tbl, Cons(Raw(v, nbits), rest), goal);
      EmitMasked(writer, LowBits(temp2, nbits), nbits, books, rest, goal);
    }
  }

  /** A difference of zero: the code, and then no bits, which may still empty the register. */
  method EmitZero(writer: HuffWriter, table: EncoderTable, ghost books: Books, ghost tbl: nat, ghost rest: Events,
                  ghost goal: Goal)
    requires writer.Valid() && tbl < |books| && books[tbl].codes == table && tbl < NUM_HUFF_TBLS
    requires Writes(writer, books, Cons(Symbol(tbl, 0), rest), goal)
    modifies writer`putBuffer, writer`putBits, writer`output, writer`data, writer`written, writer`spent
    ensures writer.Valid() && Writes(writer, books, rest, goal)
  {
    hide HuffWriter.Valid, Spell, AllCodable, Shl, HeldAfter, Length;
    NextSymbol(books, table, tbl, 0, rest, writer.written);
    HeldZero(books, writer.putBits, tbl, rest);
    writer.EmitBits(table.ehufco[0], table.ehufsi[0]);
    ghost var was := writer.written;
    ShlPositive(0);
    writer.EmitBits(0, 0);
    assert writer.written == was;
  }

  lemma DcBits(diff: int, n: nat)
    requires n == (if diff == 0 then 0 else BitLength(Abs(diff))) && n <= 16 && Abs(diff) < 0x8000
    ensures LowBits(if diff < 0 then 0xFFFF_FFFF - Abs(diff) else Abs(diff), n)
            == if n > 0 then SignedBits(diff < 0, Abs(diff), n) else 0
  {
    hide Shl, Log2, SignedBits, LowBits;
    if n > 0 { AcFirstEncoder.BitsSent(diff < 0, Abs(diff), n); } else { NoLowBits(Abs(diff)); }
  }

  lemma NoLowBits(v: nat)
    ensures LowBits(v, 0) == 0
  {
  }

  /** `EMIT_BITS` for the masked bits of a difference. */
  method EmitMasked(writer: HuffWriter, v: nat, n: nat, ghost books: Books, ghost rest: Events, ghost goal: Goal)
    requires writer.Valid() && Writes(writer, books, Cons(Raw(v, n), rest), goal)
    modifies writer`putBuffer, writer`putBits, writer`output, writer`data, writer`written, writer`spent
    ensures writer.Valid() && Writes(writer, books, rest, goal)
  {
    hide HuffWriter.Valid, Spell, AllCodable, Shl, HeldAfter, BitsOf;
    NextBits(books, v, n, rest, writer.written);
    HeldRaw(books, writer.putBits, v, n, rest);
    writer.EmitBits(v, n);
  }

  /** The sixteen-zeros symbols, and then the symbol of the coefficient with its bits. */
  method EmitCoef(writer: HuffWriter, actbl: EncoderTable, r: nat, temp: nat, temp2: nat, ghost b: Block, ghost last: int,
                  ghost k: nat, ghost books: Books, ghost tbl: nat, ghost rest: Events, ghost goal: Goal)
    requires writer.Valid() && NUM_HUFF_TBLS <= tbl < |books| && books[tbl].codes == actbl && BlockFits(b, last)
    requires 1 <= k - r && k <= 63 && FirstNonzero(AC, b, k - r) == k
    requires temp == Abs(b[Natural(k)]) && temp2 == if b[Natural(k)] < 0 then 0xFFFF_FFFF - temp else temp
    requires Writes(writer, books, AcPlan(tbl, b, k - r, rest), goal)
    modifies writer`putBuffer, writer`putBits, writer`output, writer`data, writer`written, writer`spent
    ensures writer.Valid() && Writes(writer, books, AcPlan(tbl, b, k + 1, rest), goal)
  {
    hide HuffWriter.Valid, Writes, AcPlan, BlockFits, FirstNonzero, Sent, Size, Natural, Shl, Log2, SignedBits, LowBits;
    var run := r;
    while run > 15
      invariant writer.Valid() && 0 <= run <= r && FirstNonzero(AC, b, k - run) == k
      invariant Writes(writer, books, AcPlan(tbl, b, k - run, rest), goal)
    {
      AcIsZeros(tbl, b, k - run, k, rest);
      SkipZeros(AC, b, k - run, k - run + 16);
      EmitSymbol(writer, actbl, 0xF0, books, tbl, AcPlan(tbl, b, k - run + 16, rest), goal);
      run := run - 16;
    }
    AcIsCoef(tbl, b, k - run, k, rest);
    ghost var v, n := SentIs(tbl, b, run, k, AcPlan(tbl, b, k + 1, rest), last);
    var nbits := DcEncoder.CountBits(temp);
    AcFirstEncoder.BitsSent(b[Natural(k)] < 0, temp, nbits);
    EmitPair(writer, actbl, (16 * run + nbits) as byte, temp2, nbits, books, tbl, SignedBits(b[Natural(k)] < 0, v, n),
             AcPlan(tbl, b, k + 1, rest), goal);
  }

  /** `EMIT_CODE`. */
  method EmitPair(writer: HuffWriter, table: EncoderTable, s: byte, temp2: nat, nbits: nat, ghost books: Books, ghost tbl: nat,
                  ghost v: nat, ghost rest: Events, ghost goal: Goal)
    requires writer.Valid() && NUM_HUFF_TBLS <= tbl < |books| && books[tbl].codes == table
    requires 1 <= nbits <= MAX_SIZE && s as nat % 16 == nbits
    requires v == LowBits(temp2, nbits) && Writes(writer, books, Cons(Symbol(tbl, s), Cons(Raw(v, nbits), rest)), goal)
    modifies writer`putBuffer, writer`putBits, writer`output, writer`data, writer`written, writer`spent
    ensures writer.Valid() && Writes(writer, books, rest, goal)
  {
    hide HuffWriter.Valid, Spell, AllCodable, Shl, BitsOf, LowBits, HeldAfter, Length;
    ghost var was := writer.written;
    HeldPair(books, writer.putBits, tbl, s, v, nbits, rest);
    NextSymbol(books, table, tbl, s, Cons(Raw(v, nbits), rest), was);
    NextBits(books, v, nbits, rest, was + BitsOf(table.ehufco[s], table.ehufsi[s]));
    writer.EmitCode(table.ehufco[s], table.ehufsi[s], temp2, nbits);
    LowBitsSame(temp2, nbits);
  }

  lemma LowBitsSame(v: nat, n: nat)
    ensures BitsOf(LowBits(v, n), n) == BitsOf(v, n)
  {
  }

  /** `encode_one_block`. */
  method EncodeOneBlock(writer: HuffWriter, block: array<int>, lastDcVal: int, dctbl: EncoderTable, actbl: EncoderTable,
                        ghost l: Layout, ghost c: nat, ghost books: Books, ghost rest: Events, ghost goal: Goal)
    requires writer.Valid() && block.Length == 64 && l.Valid() && c < |l.dcTables| && |books| == 2 * NUM_HUFF_TBLS
    requires books[l.dcTables[c]].codes == dctbl && books[NUM_HUFF_TBLS + l.acTables[c]].codes == actbl
    requires BlockFits(block[..], lastDcVal) && Writes(writer, books, BlockPlan(l, c, block[..], lastDcVal, rest), goal)
    modifies writer`putBuffer, writer`putBits, writer`output, writer`data, writer`written, writer`spent
    ensures writer.Valid() && Writes(writer, books, rest, goal)
  {
    hide HuffWriter.Valid, Writes, AcPlan, FirstNonzero, Sent, Size, Natural, Shl, Log2, Dc.Difference;
    ghost var b: Block, ac := block[..], NUM_HUFF_TBLS + l.acTables[c];
    EncodeDc(writer, dctbl, block[0] - lastDcVal, books, l.dcTables[c], AcPlan(ac, b, 1, rest), goal);
    var r := 0;
    for k := 1 to 64
      invariant writer.Valid() && block[..] == b && r <= k - 1
      invariant forall j | k - r <= j < k :: Size(AC, b, j) == 0
      invariant Writes(writer, books, AcPlan(ac, b, k - r, rest), goal)
    {
      var temp := block[Natural(k)];
      SizeIs(b, k);
      if temp == 0 {
        r := r + 1;
      } else {
        CoefBound(b, lastDcVal, k);
        Branchless(temp);
        var temp3 := if temp < 0 then -1 else 0;
        NonzeroIs(AC, b, k - r, k);
        EmitCoef(writer, actbl, r, Flip(temp, temp3) - temp3, Word(temp + temp3), b, lastDcVal, k, books, ac, rest, goal);
        r := 0;
      }
    }
    if r > 0 {
      NonzeroIs(AC, b, 64 - r, 64);
      AcIsEob(ac, b, 64 - r, rest);
      EmitSymbol(writer, actbl, 0, books, ac, rest, goal);
    } else {
      AcEnds(ac, b, rest);
    }
  }

  lemma SizeIs(b: Block, k: nat)
    requires k <= 63
    ensures Size(AC, b, k) == Abs(b[Natural(k)])
  {
    hide Natural;
  }

  lemma CoefBound(b: Block, last: int, k: nat)
    requires BlockFits(b, last) && 1 <= k <= 63
    ensures Abs(b[Natural(k)]) < 0x8000_0000
  {
    SizeIs(b, k);
    Powers();
  }

  // -------------------------------------------------------------- MCUs and restarts

  /** The segments that are complete, each with the restart marker behind it. */
  function Restarted(segments: seq<seq<byte>>, n: nat): seq<byte>
    requires n <= |segments|
  {
    if n == 0 then []
    else Restarted(segments, n - 1) + Stuff(segments[n - 1]) + [0xFF, (RST0 + RestartNum(n - 1)) as byte]
  }

  lemma {:induction false} RestartedPrefix(segments: seq<seq<byte>>, more: seq<byte>, n: nat)
    requires n <= |segments|
    ensures Restarted(segments + [more], n) == Restarted(segments, n)
  {
    if n > 0 { RestartedPrefix(segments, more, n - 1); }
  }

  /** All events of all segments can be coded, and all blocks fit. */
  ghost predicate AllFine(l: Layout, mcus: seq<Mcu>, interval: nat, books: Books)
    requires Laid(l, mcus)
  {
    forall s: nat | SegmentStart(interval, s) <= |mcus| ::
      var start := SegmentStart(interval, s);
      AllCodable(books, Segment(l, mcus, interval, start))
      && InRange(l, mcus, SegmentEnd(interval, |mcus|, start), start, 0, Zero(l))
  }

  /** The tables of a scan. */
  ghost predicate TablesOf(l: Layout, dc: seq<EncoderTable>, ac: seq<EncoderTable>, books: Books) {
    && l.Valid() && |dc| == |ac| == NUM_HUFF_TBLS && |books| == 2 * NUM_HUFF_TBLS
    && forall c | 0 <= c < |l.dcTables| ::
         books[l.dcTables[c]].codes == dc[l.dcTables[c]] && books[NUM_HUFF_TBLS + l.acTables[c]].codes == ac[l.acTables[c]]
  }

  /** Segment `s` holds the bits of its events, padded with ones. */
  ghost predicate SegmentHolds(l: Layout, mcus: seq<Mcu>, interval: nat, books: Books, s: nat, d: seq<byte>)
    requires Laid(l, mcus)
  {
    SegmentStart(interval, s) <= |mcus|
    && PaddedBytes(Spell(books, [], Segment(l, mcus, interval, SegmentStart(interval, s))), d)
  }

  /** The bits of segment `s` fit when it is flushed. */
  predicate SegmentFits(l: Layout, mcus: seq<Mcu>, interval: nat, books: Books, s: nat)
    requires Laid(l, mcus)
  {
    SegmentStart(interval, s) <= |mcus| && FlushFits(books, Segment(l, mcus, interval, SegmentStart(interval, s)))
  }

  /** Each segment holds what it should, if and only if its bits fit. */
  ghost predicate HoldIfFit(l: Layout, mcus: seq<Mcu>, interval: nat, books: Books, segments: seq<seq<byte>>)
    requires Laid(l, mcus)
  {
    forall s: nat | s < |segments| ::
      SegmentHolds(l, mcus, interval, books, s, segments[s]) <==> SegmentFits(l, mcus, interval, books, s)
  }

  lemma OneMoreHolds(l: Layout, mcus: seq<Mcu>, interval: nat, books: Books, segments: seq<seq<byte>>, d: seq<byte>)
    requires Laid(l, mcus) && HoldIfFit(l, mcus, interval, books, segments)
    requires SegmentHolds(l, mcus, interval, books, |segments|, d) <==> SegmentFits(l, mcus, interval, books, |segments|)
    ensures HoldIfFit(l, mcus, interval, books, segments + [d])
  {
    hide SegmentHolds, SegmentFits;
  }

  class HuffmanEncoder {
    const writer: HuffWriter
    const dcCodes: seq<EncoderTable>
    const acCodes: seq<EncoderTable>
    const layout: Layout
    const restartInterval: nat
    var lastDcVal: seq<int>
    var restartsToGo: nat
    var nextRestartNum: nat
    ghost const books: Books
    ghost var segments: seq<seq<byte>>    // the data of the segments that are complete

    /** `start_pass_huff`. */
    constructor (dc: seq<EncoderTable>, ac: seq<EncoderTable>, l: Layout, interval: nat, ghost all: Books)
      requires TablesOf(l, dc, ac, all)
      ensures Valid() && fresh(writer) && dcCodes == dc && acCodes == ac && layout == l && restartInterval == interval
      ensures books == all && lastDcVal == Zero(l) && segments == [] && restartsToGo == interval
      ensures nextRestartNum == 0 && writer.written == [] && writer.earlier == [] && writer.putBits == 0
    {
      writer := new HuffWriter();
      dcCodes, acCodes, layout, restartInterval, books := dc, ac, l, interval, all;
      lastDcVal, restartsToGo, nextRestartNum, segments := Zero(l), interval, 0, [];
      new;
      NothingHeld(writer);
    }

    ghost predicate Valid()
      reads this`lastDcVal, writer
    {
      TablesOf(layout, dcCodes, acCodes, books) && writer.Valid() && |lastDcVal| == |layout.dcTables|
    }

    /** Where the current segment begins. */
    ghost function Start(): nat
      reads this`segments
    {
      SegmentStart(restartInterval, |segments|)
    }

    /** The counters, before MCU `i`. */
    ghost predicate Counts(i: nat, n: nat)
      reads this`segments, this`restartsToGo, this`nextRestartNum
    {
      && Start() <= i <= n && nextRestartNum == RestartNum(|segments|)
      && (restartInterval == 0 ==> segments == [])
      && (restartInterval > 0 ==> restartsToGo <= restartInterval && i - Start() == restartInterval - restartsToGo)
    }

    /** The segments that are complete hold what they should, if their bits fitted. */
    ghost predicate Kept(mcus: seq<Mcu>)
      requires Laid(layout, mcus)
      reads this`segments
    {
      HoldIfFit(layout, mcus, restartInterval, books, segments)
    }

    /** The rest of the current segment is to come. */
    ghost predicate Goes(mcus: seq<Mcu>, i: nat)
      requires Laid(layout, mcus) && |lastDcVal| == |layout.dcTables|
      reads this`segments, this`lastDcVal, writer`written, writer`putBits
    {
      && Start() <= |mcus| && i <= SegmentEnd(restartInterval, |mcus|, Start())
      && Writes(writer, books, BasePlan(layout, mcus, SegmentEnd(restartInterval, |mcus|, Start()), i, 0, lastDcVal),
                GoalOf(books, Segment(layout, mcus, restartInterval, Start())))
      && InRange(layout, mcus, SegmentEnd(restartInterval, |mcus|, Start()), i, 0, lastDcVal)
    }

    /** The state before MCU `i`. */
    ghost predicate Before(mcus: seq<Mcu>, i: nat)
      requires Laid(layout, mcus)
      reads this`lastDcVal, this`segments, this`restartsToGo, this`nextRestartNum, writer
    {
      && Valid() && Counts(i, |mcus|) && Kept(mcus) && Goes(mcus, i)
      && writer.earlier == Restarted(segments, |segments|)
    }

    lemma SegmentOver(mcus: seq<Mcu>, i: nat)
      requires Laid(layout, mcus) && Before(mcus, i) && i < |mcus| && restartInterval > 0 && restartsToGo == 0
      ensures Reached(writer, GoalOf(books, Segment(layout, mcus, restartInterval, Start())))
      ensures i == Start() + restartInterval == SegmentStart(restartInterval, |segments| + 1)
    {
      hide Writes, Segment, BasePlan, InRange, HuffWriter.Valid, TablesOf, Spell, HeldAfter;
      PlanDone(layout, mcus, i, lastDcVal);
      WritesNothing(writer, books, GoalOf(books, Segment(layout, mcus, restartInterval, Start())));
    }

    lemma NotOver(mcus: seq<Mcu>, i: nat)
      requires Laid(layout, mcus) && Before(mcus, i) && i < |mcus| && (restartInterval > 0 ==> restartsToGo > 0)
      ensures i < SegmentEnd(restartInterval, |mcus|, Start())
    {
      hide Writes, Segment, BasePlan, InRange, HuffWriter.Valid, TablesOf, Spell;
    }

    /** `emit_restart`. */
    method EmitRestart(ghost mcus: seq<Mcu>, ghost i: nat)
      requires Laid(layout, mcus) && Before(mcus, i) && i < |mcus| && restartInterval > 0 && restartsToGo == 0
      requires AllFine(layout, mcus, restartInterval, books)
      modifies this`lastDcVal, this`segments, writer
      ensures Valid() && Kept(mcus) && Goes(mcus, i) && Start() == i && |segments| == |old(segments)| + 1
      ensures writer.earlier == Restarted(segments, |segments|)
    {
      hide HuffWriter.Valid, TablesOf, PaddedBytes, Spell, Segment, Writes, BasePlan, InRange, AllFine, AllCodable,
           Stuff, HeldAfter, SegmentHolds, SegmentFits, Reached;
      SegmentOver(mcus, i);
      ghost var s := |segments|;
      ghost var d := FlushSegment(writer, layout, mcus, restartInterval, books, s);
      NothingHeld(writer);
      writer.EmitMarker((RST0 + nextRestartNum) as byte);
      RestartedPrefix(segments, d, s);
      OneMoreHolds(layout, mcus, restartInterval, books, segments, d);
      segments := segments + [d];
      lastDcVal := Zero(layout);
      NothingHeld(writer);
      SegmentBegins(layout, mcus, restartInterval, books, s + 1, writer);
    }

    /** The blocks of MCU `i`. */
    method EncodeBlocks(data: seq<array<int>>, ghost mcus: seq<Mcu>, ghost i: nat)
      requires Valid() && Laid(layout, mcus) && Goes(mcus, i) && i < |mcus| && i < SegmentEnd(restartInterval, |mcus|, Start())
      requires |data| == |layout.members| && forall j | 0 <= j < |data| :: data[j].Length == 64 && data[j][..] == mcus[i][j]
      modifies this`lastDcVal
      modifies writer`putBuffer, writer`putBits, writer`output, writer`data, writer`written, writer`spent
      ensures Valid() && Goes(mcus, i + 1)
    {
      hide HuffWriter.Valid, PaddedBytes, Spell, Segment, Writes, BasePlan, InRange, AllCodable, BlockPlan, HeldAfter;
      ghost var end := SegmentEnd(restartInterval, |mcus|, Start());
      ghost var goal := GoalOf(books, Segment(layout, mcus, restartInterval, Start()));
      for blkn := 0 to |layout.members|
        invariant Valid() && InRange(layout, mcus, end, i, blkn, lastDcVal)
        invariant Writes(writer, books, BasePlan(layout, mcus, end, i, blkn, lastDcVal), goal)
      {
        var ci := layout.members[blkn];
        PlanBlock(layout, mcus, end, i, blkn, lastDcVal);
        EncodeOneBlock(writer, data[blkn], lastDcVal[ci], dcCodes[layout.dcTables[ci]], acCodes[layout.acTables[ci]],
                       layout, ci, books, BasePlan(layout, mcus, end, i, blkn + 1, lastDcVal[ci := data[blkn][0]]), goal);
        lastDcVal := lastDcVal[ci := data[blkn][0]];
      }
      PlanMcu(layout, mcus, end, i, lastDcVal);
    }

    /** `encode_mcu_huff`. */
    method EncodeMcu(data: seq<array<int>>, ghost mcus: seq<Mcu>, ghost i: nat)
      requires Laid(layout, mcus) && Before(mcus, i) && i < |mcus| && AllFine(layout, mcus, restartInterval, books)
      requires |data| == |layout.members| && forall j | 0 <= j < |data| :: data[j].Length == 64 && data[j][..] == mcus[i][j]
      modifies this`lastDcVal, this`segments, this`restartsToGo, this`nextRestartNum, writer
      ensures Before(mcus, i + 1)
    {
      hide HuffWriter.Valid, TablesOf, PaddedBytes, Spell, Segment, Writes, BasePlan, InRange, AllFine, AllCodable, Goes, Stuff, HeldAfter, HoldIfFit;
      var again := restartInterval != 0 && restartsToGo == 0;
      if again {
        SegmentOver(mcus, i);
        EmitRestart(mcus, i);
      } else {
        NotOver(mcus, i);
      }
      EncodeBlocks(data, mcus, i);
      if restartInterval != 0 {
        if restartsToGo == 0 {
          restartsToGo := restartInterval;
          nextRestartNum := (nextRestartNum + 1) % 8;
        }
        restartsToGo := restartsToGo - 1;
      }
    }
  }

  /** All that leads there has been written. */
  ghost predicate Reached(writer: HuffWriter, goal: Goal)
    reads writer`written, writer`putBits
  {
    writer.written == goal.bits && writer.putBits == goal.held
  }

  lemma WritesNothing(writer: HuffWriter, books: Books, goal: Goal)
    requires Writes(writer, books, Nil, goal)
    ensures Reached(writer, goal)
  {
  }

  /** `flush_bits` behind segment `s`. */
  method FlushSegment(writer: HuffWriter, ghost l: Layout, ghost mcus: seq<Mcu>, ghost interval: nat, ghost books: Books, ghost s: nat)
    returns (ghost d: seq<byte>)
    requires writer.Valid() && Laid(l, mcus) && SegmentStart(interval, s) <= |mcus|
    requires Reached(writer, GoalOf(books, Segment(l, mcus, interval, SegmentStart(interval, s))))
    modifies writer
    ensures writer.Valid() && writer.written == [] && writer.data == [] && writer.earlier == writer.output
    ensures writer.output == old(writer.earlier) + Stuff(d)
    ensures SegmentHolds(l, mcus, interval, books, s, d) <==> SegmentFits(l, mcus, interval, books, s)
  {
    hide HuffWriter.Valid, Segment, Spell, HeldAfter, Stuff, PaddedBytes, NumberAt, Shl;
    PendingIsHeld(writer);
    d := writer.FlushBits();
  }

  lemma PendingIsHeld(writer: HuffWriter)
    requires writer.Valid()
    ensures Packed(writer.written, writer.data) && writer.putBits <= |writer.written|
    ensures Pending(writer.written, writer.data) == NumberAt(writer.written, |writer.written| - writer.putBits, writer.putBits)
  {
    hide NumberAt;
  }

  /** At the start of a segment. */
  lemma SegmentBegins(l: Layout, mcus: seq<Mcu>, interval: nat, books: Books, s: nat, writer: HuffWriter)
    requires Laid(l, mcus) && AllFine(l, mcus, interval, books) && SegmentStart(interval, s) <= |mcus|
    requires writer.written == [] && writer.putBits == 0
    ensures var start := SegmentStart(interval, s);
            Writes(writer, books, BasePlan(l, mcus, SegmentEnd(interval, |mcus|, start), start, 0, Zero(l)),
                   GoalOf(books, Segment(l, mcus, interval, start)))
            && InRange(l, mcus, SegmentEnd(interval, |mcus|, start), start, 0, Zero(l))
  {
    hide Spell, AllCodable, BasePlan, InRange, HeldAfter;
  }

  lemma NothingHeld(writer: HuffWriter)
    requires writer.Valid() && writer.written == []
    ensures writer.putBits == 0
  {
  }

  /** The bytes of a scan: all segments but the last with restart markers behind them. */
  function Scan(segments: seq<seq<byte>>): seq<byte>
    requires |segments| > 0
  {
    Restarted(segments, |segments| - 1) + Stuff(segments[|segments| - 1])
  }

  /** There are as many segments as the MCUs need. */
  ghost predicate Enough(n: nat, interval: nat, count: nat) {
    && count > 0 && SegmentStart(interval, count - 1) <= n && SegmentEnd(interval, n, SegmentStart(interval, count - 1)) == n
    && (interval == 0 ==> count == 1)
  }

  /** A whole scan: each segment holds the bits of its events if and only if these fit when the
      register is flushed behind it. */
  method EncodeScan(l: Layout, mcus: seq<Mcu>, interval: nat, dc: seq<EncoderTable>, ac: seq<EncoderTable>, ghost books: Books)
    returns (bytes: seq<byte>, ghost segments: seq<seq<byte>>)
    requires Laid(l, mcus) && TablesOf(l, dc, ac, books) && AllFine(l, mcus, interval, books)
    ensures |segments| > 0 && bytes == Scan(segments) && Enough(|mcus|, interval, |segments|)
    ensures HoldIfFit(l, mcus, interval, books, segments)
  {
    hide HuffWriter.Valid, TablesOf, PaddedBytes, Spell, Segment, Writes, BasePlan, InRange, AllFine, AllCodable, Stuff,
         HeldAfter, SegmentHolds, SegmentFits;
    var encoder := new HuffmanEncoder(dc, ac, l, interval, books);
    SegmentBegins(l, mcus, interval, books, 0, encoder.writer);
    for i := 0 to |mcus|
      invariant encoder.Before(mcus, i)
    {
      var data := BlockArrays(mcus[i]);
      encoder.EncodeMcu(data, mcus, i);
    }
    bytes, segments := FinishPass(encoder, mcus);
  }

  method BlockArrays(mcu: Mcu) returns (data: seq<array<int>>)
    ensures |data| == |mcu| && forall j | 0 <= j < |data| :: fresh(data[j]) && data[j].Length == 64 && data[j][..] == mcu[j]
  {
    data := [];
    for j := 0 to |mcu|
      invariant |data| == j && forall k | 0 <= k < j :: fresh(data[k]) && data[k].Length == 64 && data[k][..] == mcu[k]
    {
      var b := mcu[j];
      var block := new int[64](k requires 0 <= k < 64 => b[k]);
      data := data + [block];
    }
  }

  /** `finish_pass_huff`. */
  method FinishPass(encoder: HuffmanEncoder, ghost mcus: seq<Mcu>) returns (bytes: seq<byte>, ghost segments: seq<seq<byte>>)
    requires Laid(encoder.layout, mcus) && encoder.Before(mcus, |mcus|)
    modifies encoder.writer
    ensures |segments| > 0 && bytes == Scan(segments) && Enough(|mcus|, encoder.restartInterval, |segments|)
    ensures HoldIfFit(encoder.layout, mcus, encoder.restartInterval, encoder.books, segments)
  {
    hide HuffWriter.Valid, TablesOf, PaddedBytes, Spell, Segment, Writes, BasePlan, InRange, AllFine, AllCodable, Stuff,
         HeldAfter, SegmentHolds, SegmentFits, Reached;
    ghost var s := |encoder.segments|;
    LastSegment(encoder, mcus);
    ghost var d := FlushSegment(encoder.writer, encoder.layout, mcus, encoder.restartInterval, encoder.books, s);
    OneMoreHolds(encoder.layout, mcus, encoder.restartInterval, encoder.books, encoder.segments, d);
    RestartedPrefix(encoder.segments, d, s);
    segments := encoder.segments + [d];
    bytes := encoder.writer.output;
  }

  /** Behind the last MCU. */
  lemma LastSegment(encoder: HuffmanEncoder, mcus: seq<Mcu>)
    requires Laid(encoder.layout, mcus) && encoder.Before(mcus, |mcus|)
    ensures Reached(encoder.writer, GoalOf(encoder.books, Segment(encoder.layout, mcus, encoder.restartInterval, encoder.Start())))
    ensures Enough(|mcus|, encoder.restartInterval, |encoder.segments| + 1)
  {
    hide Writes, Segment, BasePlan, InRange, HuffWriter.Valid, TablesOf, Spell, HeldAfter, Reached;
    PlanDone(encoder.layout, mcus, |mcus|, encoder.lastDcVal);
    WritesNothing(encoder.writer, encoder.books,
                  GoalOf(encoder.books, Segment(encoder.layout, mcus, encoder.restartInterval, encoder.Start())));
  }
}
