/** With short codes at the ends of blocks, the register of jchuff.c never holds too many
  bits when it is flushed. */
module ShortEob {
  import opened JpegLimits
  import opened Segments
  import opened Shifts
  import opened HuffmanTables
  import opened CodeEvents
  import opened HeldBits
  import opened Zigzag
  import opened PointTransform
  import opened AcRefineModel
  import opened AcFirstModel
  import AcFirstDecoder
  import Dc = DcModel
  import DcDecoder
  import opened BaseModel
  import opened HuffEncoder
  import opened BaseTraces
  import opened Wrappers

  /** No block ends with many bits: the code of the end of a block is short, and so is that of
      a coefficient with its bits. */
  ghost predicate ShortEnds(l: Layout, books: Books)
    requires l.Valid()
  {
    forall c | 0 <= c < |l.acTables| :: ShortTable(books, NUM_HUFF_TBLS + l.acTables[c])
  }

  ghost predicate ShortTable(books: Books, tbl: nat) {
    && Length(books, Symbol(tbl, 0)) <= 10
    && forall s: byte | s as nat % 16 != 0 :: Length(books, Symbol(tbl, s)) + s as nat % 16 <= 26
  }

  /** In a table for coefficients of at most 10 bits, as 8-bit samples give them, only the code
      of the end of a block matters. */
  lemma TenBitTable(books: Books, tbl: nat)
    requires tbl < |books| && books[tbl].Valid() && Length(books, Symbol(tbl, 0)) <= 10
    requires forall p: nat | p < 256 :: books[tbl].huffval[p] as nat % 16 <= MAX_COEF_BITS
    ensures ShortTable(books, tbl)
  {
    hide Book.Valid;
    forall s: byte | s as nat % 16 != 0 ensures Length(books, Symbol(tbl, s)) + s as nat % 16 <= 26 {
      TenBitSymbol(books[tbl], s);
    }
  }

  lemma TenBitSymbol(book: Book, s: byte)
    requires book.Valid() && forall p: nat | p < 256 :: book.huffval[p] as nat % 16 <= MAX_COEF_BITS
    ensures |book.codes.ehufsi| == 256 && (book.codes.ehufsi[s] > 0 ==> book.codes.ehufsi[s] <= 16 && s as nat % 16 <= MAX_COEF_BITS)
  {
    if book.codes.ehufsi[s] > 0 { var p := CodeOfSymbol(book, s); }
  }

  lemma HeadLength(books: Books, e: Event, rest: Events)
    requires AllCodable(books, Cons(e, rest))
    ensures Length(books, e) <= 16 && AllCodable(books, rest)
  {
    EventFits(books, e);
  }

  /** Behind the AC coefficients of a block. */
  lemma {:induction false} AcHeld(books: Books, tbl: nat, b: Block, last: int, k: nat, rest: Events, held: nat) returns (h: nat)
    requires tbl >= NUM_HUFF_TBLS && BlockFits(b, last) && 1 <= k <= 64 && ShortTable(books, tbl)
    requires AllCodable(books, AcPlan(tbl, b, k, rest)) && held <= 63 && (k == 64 ==> held <= 57)
    ensures h <= 57 && HeldAfter(books, held, AcPlan(tbl, b, k, rest)) == HeldAfter(books, h, rest) && AllCodable(books, rest)
    decreases 64 - k
  {
    hide AcPlan, BlockFits, AllCodable, FirstNonzero, Size, Natural, HeldAfter, Length, Extend, SignedBits, Log2, Shl;
    if k == 64 {
      AcEnds(tbl, b, rest);
      h := held;
    } else {
      var t := FirstNonzero(AC, b, k);
      var s, more := AcHead(tbl, b, k, rest, last);
      var n := s as nat % 16;
      HeadLength(books, Symbol(tbl, s), more);
      if n != 0 {
        var v := SignedBits(b[Natural(t)] < 0, Size(AC, b, t), n);
        HeadLength(books, Raw(v, n), AcPlan(tbl, b, t + 1, rest));
        HeldPair(books, held, tbl, s, v, n, AcPlan(tbl, b, t + 1, rest));
        h := AcHeld(books, tbl, b, last, t + 1, rest, Emptied(held, 4) + Length(books, Symbol(tbl, s)) + n);
      } else {
        HeldSymbol(books, held, tbl, s, more);
        var now := Emptied(held, 6) + Length(books, Symbol(tbl, s));
        if s as nat / 16 == 15 {
          h := AcHeld(books, tbl, b, last, k + 16, rest, now);
        } else {
          h := now;
        }
      }
    }
  }

  /** Behind a DC difference. */
  lemma DcHeld(books: Books, tbl: nat, diff: int, rest: Events, held: nat) returns (h: nat)
    requires tbl < NUM_HUFF_TBLS && Abs(diff) < Shl(1, MAX_SIZE)
    requires AllCodable(books, Dc.Difference(tbl, diff, rest)) && held <= 63
    ensures h <= 63 && HeldAfter(books, held, Dc.Difference(tbl, diff, rest)) == HeldAfter(books, h, rest) && AllCodable(books, rest)
  {
    hide AllCodable, HeldAfter, Length, Extend, SignedBits, Log2, Shl, Dc.Difference;
    var n := DcDecoder.WideHead(tbl, diff, rest);
    if n == 0 {
      HeadLength(books, Symbol(tbl, 0), rest);
      HeldZero(books, held, tbl, rest);
      h := Emptied(Emptied(held, 6) + Length(books, Symbol(tbl, 0)), 6);
    } else {
      var v := SignedBits(diff < 0, Abs(diff), n);
      HeadLength(books, Symbol(tbl, n as byte), Cons(Raw(v, n), rest));
      HeadLength(books, Raw(v, n), rest);
      HeldSymbol(books, held, tbl, n as byte, Cons(Raw(v, n), rest));
      var now := Emptied(held, 6) + Length(books, Symbol(tbl, n as byte));
      HeldRaw(books, now, v, n, rest);
      h := Emptied(now, 6) + n;
    }
  }

  /** At the end of every block at most 57 bits are held. */
  lemma {:induction false} BlocksHeld(l: Layout, books: Books, mcus: seq<Mcu>, end: nat, i: nat, j: nat, last: seq<int>, held: nat)
    requires Laid(l, mcus) && i <= end <= |mcus| && j <= |l.members| && |last| == |l.dcTables| && ShortEnds(l, books)
    requires InRange(l, mcus, end, i, j, last) && AllCodable(books, BasePlan(l, mcus, end, i, j, last)) && held <= 57
    ensures HeldAfter(books, held, BasePlan(l, mcus, end, i, j, last)) <= 57
    decreases end - i, |l.members| - j
  {
    hide AllCodable, HeldAfter, Length, BasePlan, InRange, AcPlan, Shl, Dc.Difference, Size;
    if i == end {
      PlanEnds(l, books, mcus, end, j, last, held);
    } else if j == |l.members| {
      PlanMcu(l, mcus, end, i, last);
      BlocksHeld(l, books, mcus, end, i + 1, 0, last, held);
    } else {
      var c, b := l.members[j], mcus[i][j];
      PlanBlock(l, mcus, end, i, j, last);
      var rest := BasePlan(l, mcus, end, i, j + 1, last[c := b[0]]);
      var ac := NUM_HUFF_TBLS + l.acTables[c];
      var h := DcHeld(books, l.dcTables[c], b[0] - last[c], AcPlan(ac, b, 1, rest), held);
      h := AcHeld(books, ac, b, last[c], 1, rest, h);
      BlocksHeld(l, books, mcus, end, i, j + 1, last[c := b[0]], h);
    }
  }

  lemma PlanEnds(l: Layout, books: Books, mcus: seq<Mcu>, end: nat, j: nat, last: seq<int>, held: nat)
    requires Laid(l, mcus) && end <= |mcus| && j <= |l.members| && |last| == |l.dcTables|
    ensures HeldAfter(books, held, BasePlan(l, mcus, end, end, j, last)) == held
  {
  }

  /** So every segment fits when it is flushed. */
  lemma ShortEndsFit(l: Layout, mcus: seq<Mcu>, interval: nat, books: Books, s: nat)
    requires Laid(l, mcus) && AllFine(l, mcus, interval, books) && ShortEnds(l, books) && SegmentStart(interval, s) <= |mcus|
    ensures SegmentFits(l, mcus, interval, books, s)
  {
    hide AllCodable, HeldAfter, BasePlan, InRange, FlushFits, ShortEnds;
    var start := SegmentStart(interval, s);
    BlocksHeld(l, books, mcus, SegmentEnd(interval, |mcus|, start), start, 0, Zero(l), 0);
    FewHeldFit(books, Segment(l, mcus, interval, start));
  }
}
