/** Code tables made from the statistics of a pass have a code for every symbol of it. */
module EventTables {
  import opened Shifts
  import opened Totals
  import opened EntropySource
  import opened HuffmanCost
  import opened HuffmanMerge
  import opened HuffmanLimit
  import opened HuffmanTables
  import opened CanonicalCodes
  import opened CodeEvents
  import opened OptimalTables
  import opened Wrappers

  /** Events with a single table: the low half of a symbol is at most `m`, and plain bits fit. */
  ghost predicate Shaped(events: Events, m: nat) {
    match events
    case Nil => true
    case Cons(Symbol(tbl, s), rest) => tbl == 0 && s as nat % 16 <= m && Shaped(rest, m)
    case Cons(Raw(v, n), rest) => 0 < n <= 16 && v < Shl(1, n) && Shaped(rest, m)
  }

  /** If every symbol that occurs has a code, all events can be coded. */
  lemma {:induction false} OccurringCodable(book: Book, events: Events, m: nat)
    requires book.Valid() && Shaped(events, m) && |book.codes.ehufsi| == 256
    requires forall s: byte | Occurs(s, events) :: book.codes.ehufsi[s] > 0
    ensures AllCodable([book], events)
    decreases events
  {
    hide Book.Valid, Shl;
    if events.Cons? {
      forall s: byte | Occurs(s, events.tail) ensures book.codes.ehufsi[s] > 0 { assert Occurs(s, events); }
      OccurringCodable(book, events.tail, m);
      if events.head.Symbol? { assert Occurs(events.head.s, events); }
    }
  }

  lemma {:induction false} NeverOccurs(events: Events, m: nat, s: byte)
    requires Shaped(events, m) && s as nat % 16 > m
    ensures !Occurs(s, events)
    decreases events
  {
    if events.Cons? { NeverOccurs(events.tail, m, s); }
  }

  lemma LiveBounds(count: Table, s: byte, p: byte, q: byte)
    requires count[256] > 0 && count[s] > 0 && p != q && count[p] == 0 && count[q] == 0
    ensures 2 <= Live(count) <= 255
  {
    hide Sum;
    TwoEntries(Marks(count), s, 256, 257);
    var ones: Table := seq(257, _ => 1);
    var fewer := ones[p := 0];
    var fewest := fewer[q := 0];
    AllOnesSum(ones, 257);
    SumChange(ones, fewer, p, 257);
    SumChange(fewer, fewest, q, 257);
    SumOrder(Marks(count), fewest, 257);
  }

  /** The statistics of a pass. */
  ghost function StatisticsOf(events: Events): (count: Table)
    ensures Counts(count) == EmitAll([], Counts(seq(257, _ => 0)), events)
    ensures count[256] == 0 && forall s: byte :: count[s] > 0 <==> Occurs(s, events)
  {
    var none := seq(257, _ => 0);
    CountsOccurrences([], none, events, 0);
    assert forall s: byte :: EmitAll([], Counts(none), events).count[s] > 0 <==> Occurs(s, events) by {
      forall s: byte ensures EmitAll([], Counts(none), events).count[s] > 0 <==> Occurs(s, events) {
        CountsOccurrences([], none, events, s);
      }
    }
    EmitAll([], Counts(none), events).count
  }

  lemma StatisticsFit(events: Events, m: nat, s: byte)
    requires Shaped(events, m) && m <= 13 && Occurs(s, events)
    ensures 2 <= Live(StatisticsOf(events)[256 := 1]) <= 255
  {
    hide EmitAll, Live, Occurs, Shaped;
    NeverOccurs(events, m, 14);
    NeverOccurs(events, m, 15);
    LiveBounds(StatisticsOf(events)[256 := 1], s, 14, 15);
  }

  /** Huffman's algorithm gives a code of more than 32 bits for these statistics. */
  predicate TooLong(count: Table) {
    !Coded(CodeSizes(count[256 := 1]))
  }

  /** There are enough counts for a code, and none is too large. */
  lemma StatisticsCountable(count: Table)
    requires 2 <= Live(count) <= 255 && count[256] > 0 && Total(count) <= MAX_COUNT
    ensures Countable(CodeSizes(count))
  {
    hide Optimal, Live, CodeSizes, Total;
    CodeSizesOptimal(count);
    FewAreCountable(count, CodeSizes(count));
  }

  lemma CodedBook(book: Book, table: DecoderTable, events: Events, m: nat)
    requires table.Valid() && book.bits == table.bits && book.huffval == table.huffval
    requires |book.codes.ehufsi| == 256
    requires EncodesBy(book.bits, book.huffval, CodesUpTo(book.bits, 16), book.codes.ehufco, book.codes.ehufsi)
    requires Shaped(events, m) && forall s: byte | Occurs(s, events) :: book.codes.ehufsi[s] > 0
    ensures book.Valid() && AllCodable([book], events)
  {
    hide Occurs;
    OccurringCodable(book, events, m);
  }

  /** The tables for a pass, from its statistics: they fail to exist exactly when Huffman's
      algorithm gives a code of more than 32 bits, and they never lack a code. */
  method TablesFor(counts: array<nat>, isDC: bool, ghost events: Events, ghost m: nat, ghost some: byte)
    returns (tables: Option<(EncoderTable, DecoderTable)>, ghost book: Book)
    requires counts.Length == 257 && counts[..] == StatisticsOf(events) && Occurs(some, events)
    requires Shaped(events, m) && m <= 13 && (isDC ==> forall s: byte | Occurs(s, events) :: s <= 15)
    requires Total(StatisticsOf(events)[256 := 1]) <= MAX_COUNT
    modifies counts
    ensures tables.Some? <==> !TooLong(StatisticsOf(events))
    ensures tables.Some? ==> tables.value.1.Valid() && book.Valid() && AllCodable([book], events)
                             && book == Book(tables.value.1.bits, tables.value.1.huffval, tables.value.0)
                             && forall p | 0 <= p < 256 :: book.huffval[p] as int <= MaxSymbol(isDC)
  {
    hide AllCodable, DecoderTable.Valid, EmitAll, Occurs, Optimal, Live, Total, Shaped, EncodesBy, Legal, CodeSizes, Countable;
    StatisticsFit(events, m, some);
    StatisticsCountable(StatisticsOf(events)[256 := 1]);
    tables := TablesFromCounts(counts, isDC);
    if tables.Some? {
      var (codes, table) := tables.value;
      book := Book(table.bits, table.huffval, codes);
      CodedBook(book, table, events, m);
    } else {
      book := Book([], [], EncoderTable([], []));
    }
  }

  // -------------------------------------------------------- events by table

  function Append(events: Events, rest: Events): Events {
    match events
    case Nil => rest
    case Cons(e, more) => Cons(e, Append(more, rest))
  }

  /** The symbols of table `t` alone. */
  function Only(t: nat, events: Events): Events {
    match events
    case Nil => Nil
    case Cons(Symbol(tbl, s), rest) => if tbl == t then Cons(Symbol(0, s), Only(t, rest)) else Only(t, rest)
    case Cons(Raw(v, n), rest) => Only(t, rest)
  }

  /** Symbols of `n` tables, and bits that fit. */
  ghost predicate Tabled(events: Events, n: nat) {
    match events
    case Nil => true
    case Cons(Symbol(tbl, s), rest) => tbl < n && Tabled(rest, n)
    case Cons(Raw(v, m), rest) => 0 < m <= 16 && v < Shl(1, m) && Tabled(rest, n)
  }

  ghost predicate Appears(t: nat, events: Events) {
    match events
    case Nil => false
    case Cons(e, rest) => (e.Symbol? && e.tbl == t) || Appears(t, rest)
  }

  lemma {:induction false} AppearsOccurs(t: nat, events: Events) returns (s: byte)
    requires Appears(t, events)
    ensures Occurs(s, Only(t, events))
    decreases events
  {
    if events.head.Symbol? && events.head.tbl == t { s := events.head.s; } else { s := AppearsOccurs(t, events.tail); }
  }

  /** All events can be coded if those of each table can. */
  lemma {:induction false} EachCodable(books: Books, events: Events)
    requires Tabled(events, |books|)
    requires forall t | 0 <= t < |books| && Appears(t, events) :: AllCodable([books[t]], Only(t, events))
    ensures AllCodable(books, events)
    decreases events
  {
    hide Shl;
    if events.Cons? {
      forall t | 0 <= t < |books| && Appears(t, events.tail) ensures AllCodable([books[t]], Only(t, events.tail)) {
        assert Appears(t, events);
      }
      EachCodable(books, events.tail);
      if events.head.Symbol? {
        assert Appears(events.head.tbl, events);
        assert Codable([books[events.head.tbl]], Symbol(0, events.head.s));
      }
    }
  }

  // --------------------------------------------------- one part after another

  lemma {:induction false} OnlyAppend(t: nat, a: Events, b: Events)
    ensures Only(t, Append(a, b)) == Append(Only(t, a), Only(t, b))
    decreases a
  {
    if a.Cons? { OnlyAppend(t, a.tail, b); }
  }

  lemma {:induction false} EmitAppend(books: Books, sink: Sink, a: Events, b: Events)
    ensures EmitAll(books, sink, Append(a, b)) == EmitAll(books, EmitAll(books, sink, a), b)
    decreases a
  {
    if a.Cons? { EmitAppend(books, Emit(books, sink, a.head), a.tail, b); }
  }

  lemma {:induction false} AppendCodable(books: Books, a: Events, b: Events)
    ensures AllCodable(books, Append(a, b)) <==> AllCodable(books, a) && AllCodable(books, b)
    decreases a
  {
    hide Codable;
    if a.Cons? { AppendCodable(books, a.tail, b); }
  }
}
