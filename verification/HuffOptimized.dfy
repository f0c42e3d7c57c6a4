/** `finish_pass_gather` of jchuff.c: optimal tables for a sequential scan, made from its own
  statistics, have a code for everything in it. */
module HuffOptimized {
  import opened JpegLimits
  import opened Segments
  import opened Shifts
  import opened Totals
  import opened EntropySource
  import opened HuffmanCost
  import opened HuffmanMerge
  import opened HuffmanLimit
  import opened HuffmanTables
  import opened CodeEvents
  import opened EventTables
  import opened EventReader
  import opened HeldBits
  import opened Zigzag
  import opened PointTransform
  import opened AcRefineModel
  import opened AcFirstModel
  import Dc = DcModel
  import DcDecoder
  import opened BaseModel
  import opened HuffEncoder
  import opened McuTrace
  import opened BaseTraces
  import opened ShortEob
  import HuffScan
  import opened HuffGather
  import opened Wrappers

  // ------------------------------------------------------ what stands for a scan

  /** Symbols as a sequential scan has them, and bits that fit. */
  ghost predicate Modest(events: Events) {
    match events
    case Nil => true
    case Cons(Symbol(tbl, s), rest) => tbl < TABLES && s as nat % 16 <= 11 && (tbl < NUM_HUFF_TBLS ==> s <= 11) && Modest(rest)
    case Cons(Raw(v, n), rest) => 0 < n <= 16 && v < Shl(1, n) && Modest(rest)
  }

  lemma {:induction false} ModestTabled(events: Events)
    requires Modest(events)
    ensures Tabled(events, TABLES)
    decreases events
  {
    hide Shl;
    if events.Cons? { ModestTabled(events.tail); }
  }

  lemma {:induction false} ModestShaped(t: nat, events: Events)
    requires Modest(events)
    ensures Shaped(Only(t, events), 11)
    ensures t < NUM_HUFF_TBLS ==> forall s: byte | Occurs(s, Only(t, events)) :: s <= 15
    decreases events
  {
    hide Shl;
    if events.Cons? { ModestShaped(t, events.tail); }
  }

  lemma {:induction false} ModestAppend(a: Events, b: Events)
    requires Modest(a) && Modest(b)
    ensures Modest(Append(a, b))
    decreases a
  {
    hide Shl;
    if a.Cons? { ModestAppend(a.tail, b); }
  }

  lemma {:induction false} AcModest(tbl: nat, b: Block, last: int, k: nat, rest: Events)
    requires NUM_HUFF_TBLS <= tbl < TABLES && BlockSmall(b, last) && 1 <= k <= 64 && Modest(rest)
    ensures Modest(AcPlan(tbl, b, k, rest))
    ensures k <= 63 || Appears(tbl, rest) ==> Appears(tbl, AcPlan(tbl, b, k, rest))
    ensures forall t | Appears(t, rest) :: Appears(t, AcPlan(tbl, b, k, rest))
    ensures forall t | Appears(t, AcPlan(tbl, b, k, rest)) :: t == tbl || Appears(t, rest)
    decreases 64 - k
  {
    hide BlockSmall, FirstNonzero, Size, Natural, SignedBits, Log2, Shl, Sent, AcPlan;
    if k == 64 {
      AcEnds(tbl, b, rest);
    } else {
      var t := FirstNonzero(AC, b, k);
      if t > 63 {
        AcIsEob(tbl, b, k, rest);
      } else if t - k > 15 {
        AcIsZeros(tbl, b, k, t, rest);
        AcModest(tbl, b, last, k + 16, rest);
      } else {
        AcIsCoef(tbl, b, k, t, rest);
        AcModest(tbl, b, last, t + 1, rest);
        SmallFits(b, last);
        var v, n := SentIs(tbl, b, t - k, t, AcPlan(tbl, b, t + 1, rest), last);
      }
    }
  }

  lemma DcModest(tbl: nat, diff: int, rest: Events)
    requires tbl < NUM_HUFF_TBLS && Abs(diff) < Shl(1, MAX_COEF_BITS + 1) && Modest(rest)
    ensures Modest(Dc.Difference(tbl, diff, rest)) && Appears(tbl, Dc.Difference(tbl, diff, rest))
    ensures forall t | Appears(t, rest) :: Appears(t, Dc.Difference(tbl, diff, rest))
    ensures forall t | Appears(t, Dc.Difference(tbl, diff, rest)) :: t == tbl || Appears(t, rest)
  {
    hide Shl, SignedBits, Log2, Dc.Difference;
    var n := DcDecoder.DifferenceHead(tbl, diff, rest);
  }

  /** Table `t` belongs to component `c`: the AC tables are numbered behind the DC tables. */
  predicate Has(l: Layout, c: nat, t: nat)
    requires l.Valid() && c < |l.dcTables|
  {
    t == l.dcTables[c] || t == NUM_HUFF_TBLS + l.acTables[c]
  }

  /** One of the first `n` components has table `t`. */
  ghost predicate UsedBy(l: Layout, n: nat, t: nat)
    requires l.Valid() && n <= |l.dcTables|
  {
    exists c | 0 <= c < n :: Has(l, c, t)
  }

  /** Every component of the scan has a block in the MCU. */
  ghost predicate Covers(l: Layout) {
    l.Valid() && forall c: nat | c < |l.dcTables| :: c in l.members
  }

  /** The blocks of a segment use their own tables, and no others. */
  lemma {:induction false} BlocksModest(l: Layout, mcus: seq<Mcu>, end: nat, i: nat, j: nat, last: seq<int>)
    requires Laid(l, mcus) && i <= end <= |mcus| && j <= |l.members| && |last| == |l.dcTables|
    requires SmallRange(l, mcus, end, i, j, last)
    ensures var events := BasePlan(l, mcus, end, i, j, last);
            && Modest(events) && (forall t | Appears(t, events) :: UsedBy(l, |l.dcTables|, t))
            && (i < end ==> forall k, t | j <= k < |l.members| && Has(l, l.members[k], t) :: Appears(t, events))
    decreases end - i, |l.members| - j
  {
    hide BasePlan, SmallRange, BlockSmall, AcPlan, Dc.Difference, Modest, Appears, BlockPlan;
    if i == end {
      NothingThere(l, mcus, end, j, last);
    } else if j == |l.members| {
      PlanMcu(l, mcus, end, i, last);
      BlocksModest(l, mcus, end, i + 1, 0, last);
    } else {
      var c, b := l.members[j], mcus[i][j];
      PlanBlock(l, mcus, end, i, j, last);
      BlocksModest(l, mcus, end, i, j + 1, last[c := b[0]]);
      OneBlock(l, c, b, last[c], BasePlan(l, mcus, end, i, j + 1, last[c := b[0]]));
    }
  }

  lemma NothingThere(l: Layout, mcus: seq<Mcu>, end: nat, j: nat, last: seq<int>)
    requires Laid(l, mcus) && end <= |mcus| && j <= |l.members| && |last| == |l.dcTables|
    ensures Modest(BasePlan(l, mcus, end, end, j, last)) && forall t :: !Appears(t, BasePlan(l, mcus, end, end, j, last))
  {
  }

  lemma OneBlock(l: Layout, c: nat, b: Block, last: int, rest: Events)
    requires l.Valid() && c < |l.dcTables| && BlockSmall(b, last) && Modest(rest)
    requires forall t | Appears(t, rest) :: UsedBy(l, |l.dcTables|, t)
    ensures var events := BlockPlan(l, c, b, last, rest);
            && Modest(events) && (forall t | Appears(t, events) :: UsedBy(l, |l.dcTables|, t))
            && forall t | Has(l, c, t) || Appears(t, rest) :: Appears(t, events)
  {
    hide AcPlan, Dc.Difference, Modest, Appears;
    var ac := NUM_HUFF_TBLS + l.acTables[c];
    AcModest(ac, b, last, 1, rest);
    DcModest(l.dcTables[c], b[0] - last, AcPlan(ac, b, 1, rest));
    forall t | Appears(t, BlockPlan(l, c, b, last, rest)) ensures UsedBy(l, |l.dcTables|, t) {
      if !Appears(t, rest) { assert Has(l, c, t); }
    }
  }

  lemma {:induction false} AppearsAppend(t: nat, a: Events, b: Events)
    ensures Appears(t, Append(a, b)) <==> Appears(t, a) || Appears(t, b)
    decreases a
  {
    if a.Cons? { AppearsAppend(t, a.tail, b); }
  }

  lemma {:induction false} ScanModest(l: Layout, mcus: seq<Mcu>, interval: nat, start: nat)
    requires Laid(l, mcus) && start <= |mcus| && RangeFrom(l, mcus, interval, start)
    ensures var events := ScanFrom(l, mcus, interval, start);
            && Modest(events) && (forall t | Appears(t, events) :: UsedBy(l, |l.dcTables|, t))
            && (start < |mcus| ==> forall k, t | 0 <= k < |l.members| && Has(l, l.members[k], t) :: Appears(t, events))
    decreases |mcus| - start
  {
    hide BasePlan, SmallRange, Modest, Appears, Append;
    var end := SegmentEnd(interval, |mcus|, start);
    BlocksModest(l, mcus, end, start, 0, Zero(l));
    if end < |mcus| {
      ScanModest(l, mcus, interval, end);
      var a, b := Segment(l, mcus, interval, start), ScanFrom(l, mcus, interval, end);
      ModestAppend(a, b);
      forall t ensures Appears(t, Append(a, b)) <==> Appears(t, a) || Appears(t, b) { AppearsAppend(t, a, b); }
    }
  }

  // ------------------------------------------------------------------ the tables

  /** A table that codes all of its events; no DC table has a symbol above 15. */
  ghost predicate Made(codes: EncoderTable, table: DecoderTable, book: Book, isDC: bool, events: Events) {
    && table.Valid() && book == Book(table.bits, table.huffval, codes) && book.Valid() && AllCodable([book], events)
    && forall p | 0 <= p < 256 :: book.huffval[p] as int <= MaxSymbol(isDC)
  }

  /** What is counted for table `t`. */
  ghost function Statistics(l: Layout, mcus: seq<Mcu>, interval: nat, t: nat): Table
    requires Laid(l, mcus)
  {
    StatisticsOf(Only(t, ScanFrom(l, mcus, interval, 0)))
  }

  /** Not too many symbols for the merging of counts. */
  ghost predicate FewSymbols(l: Layout, mcus: seq<Mcu>, interval: nat)
    requires Laid(l, mcus)
  {
    forall t | 0 <= t < TABLES :: Total(Statistics(l, mcus, interval, t)[256 := 1]) <= MAX_COUNT
  }

  /** Table `t`, in use. */
  method MakeTable(counts: array<nat>, isDC: bool, l: Layout, interval: nat, ghost mcus: seq<Mcu>, ghost t: nat)
    returns (tables: Option<(EncoderTable, DecoderTable)>, ghost book: Book)
    requires Laid(l, mcus) && |mcus| > 0 && RangeFrom(l, mcus, interval, 0) && t < TABLES && (isDC <==> t < NUM_HUFF_TBLS)
    requires exists k | 0 <= k < |l.members| :: Has(l, l.members[k], t)
    requires counts.Length == 257 && counts[..] == Statistics(l, mcus, interval, t)
    requires Total(Statistics(l, mcus, interval, t)[256 := 1]) <= MAX_COUNT
    modifies counts
    ensures tables.Some? <==> !TooLong(Statistics(l, mcus, interval, t))
    ensures tables.Some? ==> Made(tables.value.0, tables.value.1, book, isDC, Only(t, ScanFrom(l, mcus, interval, 0)))
  {
    hide AllCodable, DecoderTable.Valid, Book.Valid, ScanFrom, RangeFrom, Only, Occurs, Shaped, Modest, Appears, Total, TooLong;
    ghost var events := ScanFrom(l, mcus, interval, 0);
    ScanModest(l, mcus, interval, 0);
    ModestShaped(t, events);
    ghost var some := AppearsOccurs(t, events);
    tables, book := TablesFor(counts, isDC, Only(t, events), 11, some);
  }

  lemma InUse(l: Layout, c: nat, t: nat)
    requires Covers(l) && c < |l.dcTables| && Has(l, c, t)
    ensures exists k | 0 <= k < |l.members| :: Has(l, l.members[k], t)
  {
    assert c in l.members;
    var k :| 0 <= k < |l.members| && l.members[k] == c;
    assert Has(l, l.members[k], t);
  }

  lemma UsedMore(l: Layout, n: nat)
    requires l.Valid() && n < |l.dcTables|
    ensures forall t :: UsedBy(l, n + 1, t) <==> UsedBy(l, n, t) || Has(l, n, t)
  {
    forall t | UsedBy(l, n, t) || Has(l, n, t) ensures UsedBy(l, n + 1, t) {
      if !Has(l, n, t) {
        var c :| 0 <= c < n && Has(l, c, t);
        assert Has(l, c, t);
      }
    }
  }

  /** For no table in use does Huffman's algorithm give a code of more than 32 bits. */
  ghost predicate CodesFit(l: Layout, mcus: seq<Mcu>, interval: nat)
    requires Laid(l, mcus)
  {
    forall t | 0 <= t < TABLES && UsedBy(l, |l.dcTables|, t) :: !TooLong(Statistics(l, mcus, interval, t))
  }

  /** The tables that are made, one after the other. */
  class TableMaker {
    const counts: seq<array<nat>>
    const did: array<bool>
    var codes: seq<EncoderTable>
    var tables: seq<DecoderTable>
    ghost var books: Books

    constructor (c: seq<array<nat>>)
      requires |c| == TABLES
      ensures counts == c && fresh(did) && did.Length == TABLES && (forall t | 0 <= t < TABLES :: !did[t])
      ensures |codes| == |tables| == |books| == TABLES
    {
      counts := c;
      did := new bool[TABLES](_ => false);
      codes, tables := seq(TABLES, _ => EncoderTable([], [])), seq(TABLES, _ => DecoderTable([], [], [], [], []));
      books := seq(TABLES, _ => Book([], [], EncoderTable([], [])));
    }

    /** Exactly these tables have been made; the counts of the others are still there. */
    ghost predicate Did(l: Layout, mcus: seq<Mcu>, interval: nat, those: iset<nat>)
      requires Laid(l, mcus)
      reads this, did, counts
    {
      && |counts| == did.Length == |codes| == |tables| == |books| == TABLES
      && (forall t | 0 <= t < TABLES :: counts[t].Length == 257) && (forall t, u | 0 <= t < u < TABLES :: counts[t] != counts[u])
      && (forall t | 0 <= t < TABLES :: did[t] <==> t in those)
      && (forall t | 0 <= t < TABLES && !did[t] :: counts[t][..] == Statistics(l, mcus, interval, t))
      && forall t | 0 <= t < TABLES && did[t] ::
           Made(codes[t], tables[t], books[t], t < NUM_HUFF_TBLS, Only(t, ScanFrom(l, mcus, interval, 0)))
           && !TooLong(Statistics(l, mcus, interval, t))
    }

    /** `jpeg_gen_optimal_table` for a table, unless that has been done. */
    method Make(tbl: nat, l: Layout, interval: nat, ghost mcus: seq<Mcu>, ghost those: iset<nat>) returns (ok: bool)
      requires Laid(l, mcus) && |mcus| > 0 && RangeFrom(l, mcus, interval, 0) && tbl < TABLES && FewSymbols(l, mcus, interval)
      requires exists k | 0 <= k < |l.members| :: Has(l, l.members[k], tbl)
      requires Did(l, mcus, interval, those)
      modifies this, counts, did
      ensures ok ==> Did(l, mcus, interval, those + iset{tbl})
      ensures !ok ==> TooLong(Statistics(l, mcus, interval, tbl))
    {
      hide Made, TooLong, Statistics, RangeFrom, ScanFrom, Total, Only;
      if !did[tbl] {
        ghost var before := seq(TABLES, t requires 0 <= t < TABLES reads counts => counts[t][..]);
        var made;
        ghost var book;
        made, book := MakeTable(counts[tbl], tbl < NUM_HUFF_TBLS, l, interval, mcus, tbl);
        assert forall t | 0 <= t < TABLES && t != tbl :: counts[t][..] == before[t];
        books := books[tbl := book];
        if made.None? { return false; }
        codes, tables := codes[tbl := made.value.0], tables[tbl := made.value.1];
        did[tbl] := true;
      }
      ok := true;
    }

    /** Both tables of component `ci`. */
    method MakeBoth(ci: nat, l: Layout, interval: nat, ghost mcus: seq<Mcu>) returns (ok: bool)
      requires Laid(l, mcus) && Covers(l) && |mcus| > 0 && RangeFrom(l, mcus, interval, 0) && FewSymbols(l, mcus, interval)
      requires ci < |l.dcTables| && Did(l, mcus, interval, InUseBy(l, ci))
      modifies this, counts, did
      ensures ok ==> Did(l, mcus, interval, InUseBy(l, ci + 1))
      ensures !ok ==> !CodesFit(l, mcus, interval)
    {
      hide Made, TooLong, Statistics, RangeFrom, ScanFrom, Total, Only, FewSymbols, UsedBy, Did, InUseBy;
      var dctbl, actbl := l.dcTables[ci], NUM_HUFF_TBLS + l.acTables[ci];
      UseGrows(l, ci);
      BothInUse(l, ci);
      ok := Make(dctbl, l, interval, mcus, InUseBy(l, ci));
      if ok { ok := Make(actbl, l, interval, mcus, InUseBy(l, ci) + iset{dctbl}); }
    }
  }

  /** The tables in use among the first `n` components. */
  ghost function InUseBy(l: Layout, n: nat): iset<nat>
    requires l.Valid() && n <= |l.dcTables|
  {
    iset t: nat | UsedBy(l, n, t)
  }

  lemma UseGrows(l: Layout, n: nat)
    requires l.Valid() && n < |l.dcTables|
    ensures InUseBy(l, n + 1) == InUseBy(l, n) + iset{l.dcTables[n]} + iset{NUM_HUFF_TBLS + l.acTables[n]}
  {
    UsedMore(l, n);
  }

  /** `finish_pass_gather`: a table for each of those in use, made only once even if components
      share it. */
  method MakeTables(counts: seq<array<nat>>, l: Layout, interval: nat, ghost mcus: seq<Mcu>)
    returns (ok: bool, codes: seq<EncoderTable>, tables: seq<DecoderTable>, ghost books: Books)
    requires Laid(l, mcus) && Covers(l) && |mcus| > 0 && RangeFrom(l, mcus, interval, 0) && FewSymbols(l, mcus, interval)
    requires |counts| == TABLES && forall t, u | 0 <= t < u < TABLES :: counts[t] != counts[u]
    requires forall t | 0 <= t < TABLES :: counts[t].Length == 257 && counts[t][..] == Statistics(l, mcus, interval, t)
    modifies counts
    ensures |codes| == |tables| == |books| == TABLES && (ok <==> CodesFit(l, mcus, interval))
    ensures ok ==> forall t | 0 <= t < TABLES && UsedBy(l, |l.dcTables|, t) ::
              Made(codes[t], tables[t], books[t], t < NUM_HUFF_TBLS, Only(t, ScanFrom(l, mcus, interval, 0)))
  {
    hide Made, TooLong, Statistics, RangeFrom, ScanFrom, Total, Only, FewSymbols, UsedBy;
    var maker := new TableMaker(counts);
    codes, tables := seq(TABLES, _ => EncoderTable([], [])), seq(TABLES, _ => DecoderTable([], [], [], [], []));
    books := seq(TABLES, _ => Book([], [], EncoderTable([], [])));
    NothingUsed(l);
    for ci := 0 to |l.dcTables|
      invariant maker.counts == counts && fresh(maker) && fresh(maker.did)
      invariant maker.Did(l, mcus, interval, InUseBy(l, ci))
    {
      ok := maker.MakeBoth(ci, l, interval, mcus);
      if !ok { return; }
    }
    ok, codes, tables, books := true, maker.codes, maker.tables, maker.books;
    forall t: nat | t < TABLES && UsedBy(l, |l.dcTables|, t) ensures t in InUseBy(l, |l.dcTables|) { }
  }

  lemma NothingUsed(l: Layout)
    requires l.Valid()
    ensures forall t: nat :: t !in InUseBy(l, 0)
  {
  }

  lemma BothInUse(l: Layout, ci: nat)
    requires Covers(l) && ci < |l.dcTables|
    ensures exists k | 0 <= k < |l.members| :: Has(l, l.members[k], l.dcTables[ci])
    ensures exists k | 0 <= k < |l.members| :: Has(l, l.members[k], NUM_HUFF_TBLS + l.acTables[ci])
    ensures UsedBy(l, |l.dcTables|, l.dcTables[ci]) && UsedBy(l, |l.dcTables|, NUM_HUFF_TBLS + l.acTables[ci])
  {
    assert Has(l, ci, l.dcTables[ci]) && Has(l, ci, NUM_HUFF_TBLS + l.acTables[ci]);
    InUse(l, ci, l.dcTables[ci]);
    InUse(l, ci, NUM_HUFF_TBLS + l.acTables[ci]);
  }

  // ------------------------------------------------------ and the scan with them

  /** Everything in the scan has a code. */
  lemma ScanCodable(l: Layout, mcus: seq<Mcu>, interval: nat, books: Books)
    requires Laid(l, mcus) && RangeFrom(l, mcus, interval, 0) && |books| == TABLES
    requires forall t | 0 <= t < TABLES && UsedBy(l, |l.dcTables|, t) ::
               AllCodable([books[t]], Only(t, ScanFrom(l, mcus, interval, 0)))
    ensures AllCodable(books, ScanFrom(l, mcus, interval, 0))
  {
    hide AllCodable, ScanFrom, RangeFrom, Only, Modest, Appears, UsedBy;
    ScanModest(l, mcus, interval, 0);
    ModestTabled(ScanFrom(l, mcus, interval, 0));
    EachCodable(books, ScanFrom(l, mcus, interval, 0));
  }

  /** So has everything in each of its segments. */
  lemma {:induction false} FromSegment(l: Layout, mcus: seq<Mcu>, interval: nat, books: Books, s: nat)
    requires Laid(l, mcus) && RangeFrom(l, mcus, interval, 0) && AllCodable(books, ScanFrom(l, mcus, interval, 0))
    requires SegmentStart(interval, s) <= |mcus|
    ensures SegmentStart(interval, s) < |mcus| || s == 0 ==>
              RangeFrom(l, mcus, interval, SegmentStart(interval, s))
              && AllCodable(books, ScanFrom(l, mcus, interval, SegmentStart(interval, s)))
  {
    hide AllCodable, Segment, SegmentInRange, Append;
    if s > 0 {
      var before := SegmentStart(interval, s - 1);
      FromSegment(l, mcus, interval, books, s - 1);
      if interval > 0 && before + interval < |mcus| {
        AppendCodable(books, Segment(l, mcus, interval, before), ScanFrom(l, mcus, interval, before + interval));
      }
    }
  }

  lemma SegmentsFine(l: Layout, mcus: seq<Mcu>, interval: nat, books: Books)
    requires Laid(l, mcus) && RangeFrom(l, mcus, interval, 0) && AllCodable(books, ScanFrom(l, mcus, interval, 0))
    ensures AllFine(l, mcus, interval, books)
  {
    hide AllCodable, BasePlan, InRange, SmallRange, ScanFrom, RangeFrom, Append;
    forall s: nat | SegmentStart(interval, s) <= |mcus|
      ensures AllCodable(books, Segment(l, mcus, interval, SegmentStart(interval, s)))
              && InRange(l, mcus, SegmentEnd(interval, |mcus|, SegmentStart(interval, s)), SegmentStart(interval, s), 0, Zero(l))
    {
      FromSegment(l, mcus, interval, books, s);
      FirstFine(l, mcus, interval, books, SegmentStart(interval, s), s);
      var start := SegmentStart(interval, s);
      SmallInRange(l, mcus, SegmentEnd(interval, |mcus|, start), start, 0, Zero(l));
    }
  }

  lemma FirstFine(l: Layout, mcus: seq<Mcu>, interval: nat, books: Books, start: nat, s: nat)
    requires Laid(l, mcus) && start <= |mcus|
    requires start < |mcus| || s == 0 ==> RangeFrom(l, mcus, interval, start) && AllCodable(books, ScanFrom(l, mcus, interval, start))
    ensures AllCodable(books, Segment(l, mcus, interval, start)) && SegmentInRange(l, mcus, interval, start)
  {
    hide AllCodable, BasePlan, SmallRange, Append;
    if start == |mcus| {
      PlanDone(l, mcus, start, Zero(l));
      NothingCodable(books);
    } else if SegmentEnd(interval, |mcus|, start) < |mcus| {
      AppendCodable(books, Segment(l, mcus, interval, start), ScanFrom(l, mcus, interval, SegmentEnd(interval, |mcus|, start)));
    }
  }

  lemma NothingCodable(books: Books)
    ensures AllCodable(books, Nil)
  {
  }

  /** Tables for a scan, made from its own statistics.  They fail to exist exactly when a
      coefficient is out of range or Huffman's algorithm gives a code of more than 32 bits; otherwise the
      scan can be written with them: no symbol lacks a code. */
  method TablesForScan(l: Layout, mcus: seq<Mcu>, interval: nat)
    returns (ok: bool, dc: seq<EncoderTable>, ac: seq<EncoderTable>, t: Tables, books: Books)
    requires Laid(l, mcus) && Covers(l) && |mcus| > 0 && Words(mcus) && FewSymbols(l, mcus, interval)
    ensures ok <==> RangeFrom(l, mcus, interval, 0) && CodesFit(l, mcus, interval)
    ensures ok ==> t.l == l && t.Valid() && TablesOf(l, dc, ac, books) && HasTables(t, books) && AllFine(l, mcus, interval, books)
  {
    hide Made, TooLong, Statistics, RangeFrom, ScanFrom, Only, FewSymbols, UsedBy, AllFine, TablesOf, HasTables, Tables.Valid,
         Words;
    dc, ac, t, books := [], [], Tables(l, [], []), [];
    var counts;
    ok, counts := GatherScan(l, mcus, interval);
    if !ok { return; }
    var codes, tables;
    CountsAre(l, mcus, interval, counts);
    ghost var made;
    ok, codes, tables, made := MakeTables(counts, l, interval, mcus);
    if ok {
      books := seq(TABLES, t requires 0 <= t < TABLES => Book(tables[t].bits, tables[t].huffval, codes[t]));
      SameBooks(l, mcus, interval, codes, tables, made, books);
      dc, ac := codes[..NUM_HUFF_TBLS], codes[NUM_HUFF_TBLS..];
      t := Tables(l, tables[..NUM_HUFF_TBLS], tables[NUM_HUFF_TBLS..]);
      TablesServe(l, mcus, interval, codes, tables, books);
    }
  }

  /** The books are those of the tables. */
  lemma SameBooks(l: Layout, mcus: seq<Mcu>, interval: nat, codes: seq<EncoderTable>, tables: seq<DecoderTable>, made: Books,
                  books: Books)
    requires Laid(l, mcus) && |codes| == |tables| == |made| == |books| == TABLES
    requires forall t | 0 <= t < TABLES :: books[t] == Book(tables[t].bits, tables[t].huffval, codes[t])
    requires forall t | 0 <= t < TABLES && UsedBy(l, |l.dcTables|, t) ::
               Made(codes[t], tables[t], made[t], t < NUM_HUFF_TBLS, Only(t, ScanFrom(l, mcus, interval, 0)))
    ensures forall t | 0 <= t < TABLES && UsedBy(l, |l.dcTables|, t) ::
               Made(codes[t], tables[t], books[t], t < NUM_HUFF_TBLS, Only(t, ScanFrom(l, mcus, interval, 0)))
  {
    hide AllCodable, DecoderTable.Valid, Book.Valid, UsedBy, Only, ScanFrom;
    forall t | 0 <= t < TABLES && UsedBy(l, |l.dcTables|, t)
      ensures Made(codes[t], tables[t], books[t], t < NUM_HUFF_TBLS, Only(t, ScanFrom(l, mcus, interval, 0)))
    {
      assert made[t] == books[t];
    }
  }

  lemma CountsAre(l: Layout, mcus: seq<Mcu>, interval: nat, counts: seq<array<nat>>)
    requires Laid(l, mcus) && |counts| == TABLES
    requires forall t | 0 <= t < TABLES :: counts[t][..] == StatisticsOf(Only(t, ScanFrom(l, mcus, interval, 0)))
    ensures forall t | 0 <= t < TABLES :: counts[t][..] == Statistics(l, mcus, interval, t)
  {
    hide Only, ScanFrom;
  }

  lemma TablesServe(l: Layout, mcus: seq<Mcu>, interval: nat, codes: seq<EncoderTable>, tables: seq<DecoderTable>, books: Books)
    requires Laid(l, mcus) && RangeFrom(l, mcus, interval, 0) && |codes| == |tables| == |books| == TABLES
    requires forall t | 0 <= t < TABLES && UsedBy(l, |l.dcTables|, t) ::
               Made(codes[t], tables[t], books[t], t < NUM_HUFF_TBLS, Only(t, ScanFrom(l, mcus, interval, 0)))
    ensures var t := Tables(l, tables[..NUM_HUFF_TBLS], tables[NUM_HUFF_TBLS..]);
            t.Valid() && HasTables(t, books) && TablesOf(l, codes[..NUM_HUFF_TBLS], codes[NUM_HUFF_TBLS..], books)
            && AllFine(l, mcus, interval, books)
  {
    hide AllCodable, DecoderTable.Valid, ScanFrom, RangeFrom, Only, UsedBy, AllFine;
    forall c | 0 <= c < |l.dcTables| ensures UsedBy(l, |l.dcTables|, l.dcTables[c]) && UsedBy(l, |l.dcTables|, NUM_HUFF_TBLS + l.acTables[c]) {
      UsedLater(l, c);
    }
    ScanCodable(l, mcus, interval, books);
    SegmentsFine(l, mcus, interval, books);
  }

  lemma UsedLater(l: Layout, c: nat)
    requires l.Valid() && c < |l.dcTables|
    ensures UsedBy(l, |l.dcTables|, l.dcTables[c]) && UsedBy(l, |l.dcTables|, NUM_HUFF_TBLS + l.acTables[c])
  {
    assert Has(l, c, l.dcTables[c]) && Has(l, c, NUM_HUFF_TBLS + l.acTables[c]);
  }

  /** Whether all segments of a scan fit when they are flushed. */
  method SegmentsFit(l: Layout, mcus: seq<Mcu>, interval: nat, books: Books) returns (fits: bool)
    requires Laid(l, mcus)
    ensures fits <==> forall s: nat | SegmentStart(interval, s) <= |mcus| :: SegmentFits(l, mcus, interval, books, s)
  {
    hide SegmentFits;
    var s := 0;
    while SegmentStart(interval, s) <= |mcus|
      invariant forall r: nat | r < s :: SegmentFits(l, mcus, interval, books, r)
      invariant interval > 0 || s == 0
      decreases |mcus| + 1 - SegmentStart(interval, s)
    {
      if !SegmentFits(l, mcus, interval, books, s) { return false; }
      if interval == 0 {
        forall r: nat ensures SegmentFits(l, mcus, 0, books, r) { OneSegment(l, mcus, books, r); }
        return true;
      }
      s := s + 1;
    }
    forall r: nat | SegmentStart(interval, r) <= |mcus| ensures SegmentFits(l, mcus, interval, books, r) {
      if s <= r { HuffScan.StartsGrow(interval, s, r); }
    }
    fits := true;
  }

  /** Without restarts there is one segment, whatever its number. */
  lemma OneSegment(l: Layout, mcus: seq<Mcu>, books: Books, s: nat)
    requires Laid(l, mcus) && SegmentFits(l, mcus, 0, books, 0)
    ensures SegmentFits(l, mcus, 0, books, s)
  {
    hide FlushFits, Segment;
    NoStart(s);
  }

  lemma {:induction false} NoStart(s: nat)
    ensures SegmentStart(0, s) == 0
  {
    if s > 0 { NoStart(s - 1); }
  }

  /** Statistics gathered in one pass, optimal tables made from them, the scan written with
      these and read back, for every restart interval: it comes back if all segments fit when
      they are flushed, which they do when the codes at the ends of blocks are short. */
  method OptimizedRoundTrip(l: Layout, mcus: seq<Mcu>, interval: nat, fill: nat, marker: byte, tail: seq<byte>)
    returns (ok: bool, fits: bool, decoded: seq<Mcu>, books: Books)
    requires Laid(l, mcus) && Covers(l) && |mcus| > 0 && Words(mcus) && FewSymbols(l, mcus, interval)
    requires marker != 0 && marker != 0xFF
    ensures ok <==> RangeFrom(l, mcus, interval, 0) && CodesFit(l, mcus, interval)
    ensures ok ==> AllFine(l, mcus, interval, books)
    ensures ok ==> (fits <==> forall s: nat | SegmentStart(interval, s) <= |mcus| :: SegmentFits(l, mcus, interval, books, s))
    ensures ok && fits ==> decoded == mcus
    ensures ok && ShortEnds(l, books) ==> fits
  {
    hide CodesFit, Statistics, RangeFrom, ScanFrom, FewSymbols, UsedBy, AllFine, TablesOf, HasTables, Tables.Valid, Words,
         ShortEnds, SegmentFits;
    fits, decoded := false, [];
    var dc, ac, t;
    ok, dc, ac, t, books := TablesForScan(l, mcus, interval);
    if !ok { return; }
    fits := SegmentsFit(l, mcus, interval, books);
    if ShortEnds(l, books) {
      forall s: nat | SegmentStart(interval, s) <= |mcus| ensures SegmentFits(l, mcus, interval, books, s) {
        ShortEndsFit(l, mcus, interval, books, s);
      }
    }
    if fits { decoded := HuffScan.RoundTrip(t, mcus, interval, dc, ac, books, fill, marker, tail); }
  }
}
