/** Where the symbols and bits of a sequential scan stand in the stream, decoding gives back
  the blocks. */
module BaseTraces {
  import opened JpegLimits
  import opened Shifts
  import opened BitStrings
  import opened CanonicalCodes
  import opened HuffmanTables
  import opened CodeEvents
  import opened EventReader
  import opened Zigzag
  import opened PointTransform
  import opened AcRefineModel
  import opened AcFirstModel
  import Dc = DcModel
  import DcDecoder
  import opened BaseModel
  import opened McuTrace
  import opened HuffDecoder
  import opened Wrappers

  ghost predicate Matches(table: DecoderTable, book: Book) {
    table.Valid() && table.bits == book.bits && table.huffval == book.huffval
  }

  /** The coefficients before `k` are those of `b`, the others zero. */
  ghost predicate UpTo(b: Block, cur: seq<int>, k: nat) {
    |cur| == 64 && forall j | 0 <= j < 64 :: cur[Natural(j)] == if j < k then b[Natural(j)] else 0
  }

  lemma UpToNext(b: Block, cur: seq<int>, k: nat)
    requires k < 64 && UpTo(b, cur, k)
    ensures UpTo(b, cur[Natural(k) := b[Natural(k)]], k + 1)
  {
    forall j | 0 <= j < 64 && Natural(j) == Natural(k) ensures j == k { NaturalInjective(j, k); }
  }

  lemma UpToZeros(b: Block, cur: seq<int>, k: nat, t: nat)
    requires 1 <= k <= t <= 64 && UpTo(b, cur, k) && forall j | k <= j < t :: Size(AC, b, j) == 0
    ensures UpTo(b, cur, t)
  {
    forall j | k <= j < t ensures b[Natural(j)] == 0 {
      assert Size(AC, b, j) == Abs(b[Natural(j)]);
    }
  }

  lemma UpToAll(b: Block, cur: seq<int>)
    requires UpTo(b, cur, 64)
    ensures cur == b
  {
    hide Natural;
    assert Coefs(cur) == Coefs(b);
    CoefsDetermine(cur, b);
  }

  /** The first symbol of the AC coefficients from `k` on, and what it means. */
  ghost predicate AcMeans(tbl: nat, b: Block, k: nat, rest: Events, s: byte, more: Events)
    requires 1 <= k <= 63
  {
    var t := FirstNonzero(AC, b, k);
    var r, n := s as nat / 16, s as nat % 16;
    && AcPlan(tbl, b, k, rest) == Cons(Symbol(tbl, s), more)
    && if n != 0 then
         && t <= 63 && t == k + r && n == BitLength(Size(AC, b, t)) && n <= MAX_SIZE
         && Extend(SignedBits(b[Natural(t)] < 0, Size(AC, b, t), n), n) == b[Natural(t)]
         && more == Cons(Raw(SignedBits(b[Natural(t)] < 0, Size(AC, b, t), n), n), AcPlan(tbl, b, t + 1, rest))
       else if r == 15 then k + 16 <= t <= 63 && more == AcPlan(tbl, b, k + 16, rest)
       else r == 0 && t > 63 && more == rest
  }

  lemma AcHead(tbl: nat, b: Block, k: nat, rest: Events, last: int) returns (s: byte, more: Events)
    requires 1 <= k <= 63 && BlockFits(b, last)
    ensures AcMeans(tbl, b, k, rest, s, more)
  {
    hide AcPlan, BlockFits, FirstNonzero, Sent, Size, Natural, Shl, Log2, SignedBits, Extend;
    var t := FirstNonzero(AC, b, k);
    if t > 63 {
      AcIsEob(tbl, b, k, rest);
      s, more := 0, rest;
    } else if t - k > 15 {
      AcIsZeros(tbl, b, k, t, rest);
      s, more := 0xF0, AcPlan(tbl, b, k + 16, rest);
    } else {
      AcIsCoef(tbl, b, k, t, rest);
      var v, n := SentIs(tbl, b, t - k, t, AcPlan(tbl, b, t + 1, rest), last);
      ExtendInverts(b[Natural(t)] < 0, v);
      s := (16 * (t - k) + n) as byte;
      more := Cons(Raw(SignedBits(b[Natural(t)] < 0, v, n), n), AcPlan(tbl, b, t + 1, rest));
    }
  }

  /** A symbol that stands ahead is decoded, from a valid code. */
  lemma SymbolIs(table: DecoderTable, books: Books, stream: seq<bool>, at: nat, tbl: nat, s: byte, rest: Events)
    returns (behind: nat)
    requires tbl < |books| && Matches(table, books[tbl])
    requires Ahead(books, stream, at, Cons(Symbol(tbl, s), rest)) && AllCodable(books, Cons(Symbol(tbl, s), rest))
    ensures Sized(table) && DecodeAt(table.bits, table.huffval, stream, at) == (s, behind)
    ensures ReadLength(table.bits, stream, at, 1) <= 16
    ensures Ahead(books, stream, behind, rest) && AllCodable(books, rest)
  {
    hide DecodeAt, NumberAt, Shl, ReadLength, Ahead, AllCodable;
    behind := ReadsHere(table, books, stream, at, tbl, s, rest);
    HeadFits(books, stream, at, tbl, s, rest);
    CodeIsShort(table, books[tbl], stream, at, s, behind);
  }

  lemma HeadFits(books: Books, stream: seq<bool>, at: nat, tbl: nat, s: byte, rest: Events)
    requires tbl < |books|
    requires Ahead(books, stream, at, Cons(Symbol(tbl, s), rest)) && AllCodable(books, Cons(Symbol(tbl, s), rest))
    ensures books[tbl].Valid() && 0 < books[tbl].codes.ehufsi[s] <= 16
    ensures NumberAt(stream, at, books[tbl].codes.ehufsi[s]) == books[tbl].codes.ehufco[s]
  {
    hide NumberAt, Shl;
    EventFits(books, Symbol(tbl, s));
  }

  lemma CodeIsShort(table: DecoderTable, book: Book, stream: seq<bool>, at: nat, s: byte, behind: nat)
    requires table.Valid() && table.bits == book.bits && table.huffval == book.huffval && book.Valid()
    requires 0 < book.codes.ehufsi[s] <= 16 && NumberAt(stream, at, book.codes.ehufsi[s]) == book.codes.ehufco[s]
    requires DecodeAt(table.bits, table.huffval, stream, at) == (s, behind)
    ensures ReadLength(table.bits, stream, at, 1) <= 16
  {
    DecodesEvent(book, stream, at, s);
    hide NumberAt, ReadLength, Book.Valid, DecoderTable.Valid;
    assert behind == at + book.codes.ehufsi[s];
  }

  lemma AmountIs(books: Books, stream: seq<bool>, at: nat, v: nat, n: nat, rest: Events)
    requires Ahead(books, stream, at, Cons(Raw(v, n), rest)) && AllCodable(books, Cons(Raw(v, n), rest))
    ensures n > 0 && Amount(stream, at, n) == Extend(v, n) && Ahead(books, stream, at + n, rest) && AllCodable(books, rest)
  {
    hide NumberAt, Extend, Shl;
    BitsHere(books, stream, at, v, n, rest);
  }

  /** The AC coefficients are stored as they were, and all codes are valid. */
  lemma {:induction false} AcTraceIs(table: DecoderTable, books: Books, tbl: nat, b: Block, last: int, stream: seq<bool>, at: nat,
                                     k: nat, cur: seq<int>, rest: Events)
    requires tbl < |books| && Matches(table, books[tbl]) && Sized(table) && 1 <= k <= 64
    requires BlockFits(b, last) && UpTo(b, cur, k)
    requires Ahead(books, stream, at, AcPlan(tbl, b, k, rest)) && AllCodable(books, AcPlan(tbl, b, k, rest))
    ensures var trace := AcTrace(table, stream, at, k);
            && Apply(cur, trace) == b && AcSound(table, stream, at, k)
            && Ahead(books, stream, End(trace), rest) && AllCodable(books, rest)
    decreases 64 - k
  {
    hide Matches, BlockFits, UpTo, AcPlan, Ahead, AllCodable, Natural, Size, DecodeAt, ReadLength, Amount, FirstNonzero, Extend,
         SignedBits, Log2, Shl, Jcoef;
    if k == 64 {
      AcEnds(tbl, b, rest);
      UpToAll(b, cur);
    } else {
      var t := FirstNonzero(AC, b, k);
      var s, more := AcHead(tbl, b, k, rest, last);
      UpToZeros(b, cur, k, t);
      var behind := SymbolIs(table, books, stream, at, tbl, s, more);
      var r, n := s as nat / 16, s as nat % 16;
      if n != 0 {
        AmountIs(books, stream, behind, SignedBits(b[Natural(t)] < 0, Size(AC, b, t), n), n, AcPlan(tbl, b, t + 1, rest));
        CoefFits(b, last, t);
        UpToNext(b, cur, t);
        AcTraceIs(table, books, tbl, b, last, stream, behind + n, t + 1, cur[Natural(t) := b[Natural(t)]], rest);
      } else if r == 15 {
        UpToZeros(b, cur, k, k + 16);
        AcTraceIs(table, books, tbl, b, last, stream, behind, k + 16, cur, rest);
      } else {
        UpToAll(b, cur);
      }
    }
  }

  lemma CoefFits(b: Block, last: int, t: nat)
    requires BlockFits(b, last) && 1 <= t <= 63
    ensures Jcoef(b[Natural(t)]) == b[Natural(t)]
  {
    assert Size(AC, b, t) == Abs(b[Natural(t)]);
    Powers();
  }

  /** The DC coefficient of a block that stands ahead. */
  lemma DcStepIs(table: DecoderTable, books: Books, tbl: nat, stream: seq<bool>, at: nat, last: int, v: int, rest: Events)
    requires tbl < |books| && Matches(table, books[tbl]) && Abs(v - last) < Shl(1, MAX_SIZE)
    requires Ahead(books, stream, at, Dc.Difference(tbl, v - last, rest)) && AllCodable(books, Dc.Difference(tbl, v - last, rest))
    ensures Sized(table) && ReadLength(table.bits, stream, at, 1) <= 16
    ensures var r := DcStep(table, stream, at, last);
            r.0 == v && Ahead(books, stream, r.1, rest) && AllCodable(books, rest)
  {
    hide Matches, Ahead, AllCodable, DecodeAt, ReadLength, Amount, Extend, SignedBits, Log2, Shl, Dc.Difference;
    var n := DcDecoder.WideHead(tbl, v - last, rest);
    var bits := if n > 0 then SignedBits(v - last < 0, Abs(v - last), n) else 0;
    var behind := SymbolIs(table, books, stream, at, tbl, n as byte, if n > 0 then Cons(Raw(bits, n), rest) else rest);
    if n > 0 { AmountIs(books, stream, behind, bits, n, rest); } else { NoAmount(stream, behind); }
  }

  /** A whole block, stored into zeros. */
  lemma BlockTraceIs(t: Tables, books: Books, c: nat, b: Block, last: int, stream: seq<bool>, at: nat, rest: Events)
    requires t.Valid() && c < |t.l.dcTables| && HasTables(t, books) && BlockFits(b, last)
    requires Ahead(books, stream, at, BlockPlan(t.l, c, b, last, rest)) && AllCodable(books, BlockPlan(t.l, c, b, last, rest))
    ensures Sized(t.Dc(c)) && Sized(t.Ac(c))
    ensures var trace := BlockTrace(t.Dc(c), t.Ac(c), stream, at, last);
            && Apply(seq(64, _ => 0), trace) == b && BlockSound(t.Dc(c), t.Ac(c), stream, at, last)
            && DcStep(t.Dc(c), stream, at, last).0 == b[0]
            && Ahead(books, stream, End(trace), rest) && AllCodable(books, rest)
  {
    hide Matches, UpTo, AcPlan, Ahead, AllCodable, ReadLength, Jcoef, AcTrace, Dc.Difference, AcSound, DcStep, CodesUpTo, Shl, Size;
    TablesSized(t, c);
    var tbl, ac := t.l.dcTables[c], NUM_HUFF_TBLS + t.l.acTables[c];
    DcStepIs(t.Dc(c), books, tbl, stream, at, last, b[0], AcPlan(ac, b, 1, rest));
    var zeros: seq<int> := seq(64, _ => 0);
    ZerosUpTo(b, zeros);
    AcTraceIs(t.Ac(c), books, ac, b, last, stream, DcStep(t.Dc(c), stream, at, last).1, 1, zeros[0 := b[0]], rest);
  }

  lemma NoAmount(stream: seq<bool>, at: nat)
    ensures Amount(stream, at, 0) == 0
  {
  }

  lemma ZerosUpTo(b: Block, zeros: seq<int>)
    requires zeros == seq(64, _ => 0)
    ensures UpTo(b, zeros[0 := b[0]], 1) && (-0x8000 <= b[0] < 0x8000 ==> Jcoef(b[0]) == b[0])
  {
    assert Natural(0) == 0;
    UpToNext(b, zeros, 0);
  }

  /** The decoder's tables are those of the books. */
  ghost predicate HasTables(t: Tables, books: Books)
    requires t.Valid()
  {
    && |books| == 2 * NUM_HUFF_TBLS
    && forall c | 0 <= c < |t.l.dcTables| ::
         Matches(t.Dc(c), books[t.l.dcTables[c]]) && Matches(t.Ac(c), books[NUM_HUFF_TBLS + t.l.acTables[c]])
  }

  /** Blocks of zeros. */
  function Blank(n: nat): (blocks: seq<seq<int>>)
    ensures |blocks| == n && forall j | 0 <= j < n :: blocks[j] == seq(64, _ => 0)
  {
    seq(n, _ => seq(64, _ => 0))
  }

  /** The first `n` blocks of an MCU that stands ahead. */
  ghost predicate McuIs(t: Tables, books: Books, mcus: seq<Mcu>, end: nat, i: nat, stream: seq<bool>, at: nat, last: seq<int>, n: nat)
    requires t.Valid() && Laid(t.l, mcus) && i < end <= |mcus| && n <= |t.l.members| && |last| == |t.l.dcTables|
  {
    var r := McuRun(t, stream, at, last, n);
    && (forall j | 0 <= j < n :: Apply(seq(64, _ => 0), r.traces[j]) == mcus[i][j])
    && McuSound(t, stream, at, last, n) && InRange(t.l, mcus, end, i, n, r.last)
    && Ahead(books, stream, r.at, BasePlan(t.l, mcus, end, i, n, r.last))
    && AllCodable(books, BasePlan(t.l, mcus, end, i, n, r.last))
  }

  lemma {:induction false} McuDecoded(t: Tables, books: Books, mcus: seq<Mcu>, end: nat, i: nat, stream: seq<bool>, at: nat,
                                      last: seq<int>, n: nat)
    requires t.Valid() && HasTables(t, books) && Laid(t.l, mcus) && i < end <= |mcus| && n <= |t.l.members|
    requires |last| == |t.l.dcTables| && InRange(t.l, mcus, end, i, 0, last)
    requires Ahead(books, stream, at, BasePlan(t.l, mcus, end, i, 0, last)) && AllCodable(books, BasePlan(t.l, mcus, end, i, 0, last))
    ensures McuIs(t, books, mcus, end, i, stream, at, last, n)
  {
    hide Ahead, AllCodable, BasePlan, InRange, Apply, BlockTrace, BlockPlan, BlockFits, BlockSound, DcStep, Matches, CodesUpTo,
         McuRun, McuSound, HasTables;
    NoBlocks(t, stream, at, last);
    if n == 0 {
      NothingSound(t, stream, at, last);
    } else {
      McuDecoded(t, books, mcus, end, i, stream, at, last, n - 1);
      var r, c, b := McuRun(t, stream, at, last, n - 1), t.l.members[n - 1], mcus[i][n - 1];
      PlanBlock(t.l, mcus, end, i, n - 1, r.last);
      BlockTraceIs(t, books, c, b, r.last[c], stream, r.at, BasePlan(t.l, mcus, end, i, n, r.last[c := b[0]]));
      RunNext(t, stream, at, last, n);
    }
  }

  lemma NothingSound(t: Tables, stream: seq<bool>, at: nat, last: seq<int>)
    requires t.Valid() && |last| == |t.l.dcTables|
    ensures McuSound(t, stream, at, last, 0)
  {
  }

  lemma RunNext(t: Tables, stream: seq<bool>, at: nat, last: seq<int>, n: nat)
    requires t.Valid() && |last| == |t.l.dcTables| && 0 < n <= |t.l.members|
    ensures var r, c := McuRun(t, stream, at, last, n - 1), t.l.members[n - 1];
            && c < |t.l.dcTables| && Sized(t.Dc(c)) && Sized(t.Ac(c))
            && (McuSound(t, stream, at, last, n)
                <==> McuSound(t, stream, at, last, n - 1) && BlockSound(t.Dc(c), t.Ac(c), stream, r.at, r.last[c]))
            && var trace := BlockTrace(t.Dc(c), t.Ac(c), stream, r.at, r.last[c]);
            McuRun(t, stream, at, last, n)
            == Run(r.traces + [trace], r.last[c := DcStep(t.Dc(c), stream, r.at, r.last[c]).0], End(trace))
  {
    hide BlockTrace, DcStep, CodesUpTo, End, BlockSound;
    TablesSized(t, t.l.members[n - 1]);
  }

  /** A whole MCU that stands ahead: it is stored into blocks of zeros as it was, and then the
      next stands ahead. */
  lemma WholeMcu(t: Tables, books: Books, mcus: seq<Mcu>, end: nat, i: nat, stream: seq<bool>, at: nat, last: seq<int>,
                 result: seq<seq<int>>)
    requires t.Valid() && HasTables(t, books) && Laid(t.l, mcus) && i < end <= |mcus|
    requires |last| == |t.l.dcTables| && InRange(t.l, mcus, end, i, 0, last)
    requires Ahead(books, stream, at, BasePlan(t.l, mcus, end, i, 0, last)) && AllCodable(books, BasePlan(t.l, mcus, end, i, 0, last))
    requires Stored(Blank(|t.l.members|), result, McuRun(t, stream, at, last, |t.l.members|).traces)
    ensures result == mcus[i]
    ensures var r := McuRun(t, stream, at, last, |t.l.members|);
            && InRange(t.l, mcus, end, i + 1, 0, r.last) && Ahead(books, stream, r.at, BasePlan(t.l, mcus, end, i + 1, 0, r.last))
            && AllCodable(books, BasePlan(t.l, mcus, end, i + 1, 0, r.last))
  {
    hide Ahead, AllCodable, BasePlan, InRange, Apply, Matches, CodesUpTo, McuRun, McuSound;
    var n := |t.l.members|;
    McuDecoded(t, books, mcus, end, i, stream, at, last, n);
    PlanMcu(t.l, mcus, end, i, McuRun(t, stream, at, last, n).last);
    forall j | 0 <= j < n ensures result[j] == mcus[i][j] {
      assert result[j] == Apply(Blank(n)[j], McuRun(t, stream, at, last, n).traces[j]);
    }
  }
}
