/** What the Huffman coders put into a segment: symbols of a code table and plain bits. */
module CodeEvents {
  import opened Shifts
  import opened CodeLengths
  import opened BitStrings
  import opened CanonicalCodes
  import opened HuffmanTables
  import opened Wrappers

  datatype Event = Symbol(tbl: nat, s: byte) | Raw(v: nat, n: nat)

  type Events = List<Event>

  /** A table as both sides see it. */
  datatype Book = Book(bits: seq<byte>, huffval: seq<byte>, codes: EncoderTable) {
    ghost predicate Valid() {
      && Legal(bits) && |huffval| == |codes.ehufco| == |codes.ehufsi| == 256
      && EncodesBy(bits, huffval, CodesUpTo(bits, 16), codes.ehufco, codes.ehufsi)
    }
  }

  type Books = seq<Book>

  /** The symbol has a code, or the plain bits fit into 16. */
  ghost predicate Codable(books: Books, e: Event) {
    match e
    case Symbol(tbl, s) => tbl < |books| && books[tbl].Valid() && books[tbl].codes.ehufsi[s] > 0
    case Raw(v, n) => 0 < n <= 16 && v < Shl(1, n)
  }

  ghost predicate AllCodable(books: Books, events: Events) {
    match events
    case Nil => true
    case Cons(e, rest) => Codable(books, e) && AllCodable(books, rest)
  }

  function Number(books: Books, e: Event): nat {
    match e
    case Symbol(tbl, s) =>
      if tbl < |books| && |books[tbl].codes.ehufco| == 256 then books[tbl].codes.ehufco[s] else 0
    case Raw(v, n) => v
  }

  function Length(books: Books, e: Event): nat {
    match e
    case Symbol(tbl, s) =>
      if tbl < |books| && |books[tbl].codes.ehufsi| == 256 then books[tbl].codes.ehufsi[s] else 0
    case Raw(v, n) => n
  }

  /** The bits written so far followed by those of the events. */
  function Spell(books: Books, written: seq<bool>, events: Events): seq<bool>
    decreases events
  {
    match events
    case Nil => written
    case Cons(e, rest) => Spell(books, written + BitsOf(Number(books, e), Length(books, e)), rest)
  }

  /** The bits of the events stand in the stream from `at` on. */
  ghost predicate Ahead(books: Books, stream: seq<bool>, at: nat, events: Events)
    decreases events
  {
    match events
    case Nil => at <= |stream|
    case Cons(e, rest) =>
      at + Length(books, e) <= |stream| && NumberAt(stream, at, Length(books, e)) == Number(books, e) && Ahead(books, stream, at + Length(books, e), rest)
  }

  /** A symbol with a code: the code stands for it alone and fits its length. */
  lemma CodeOfSymbol(book: Book, s: byte) returns (p: nat)
    requires book.Valid() && book.codes.ehufsi[s] > 0
    ensures p < 256 && book.huffval[p] == s && HasCode(book.bits, p, book.codes.ehufsi[s])
    ensures book.codes.ehufco[s] == Code(book.bits, p, book.codes.ehufsi[s])
    ensures book.codes.ehufsi[s] <= 16 && book.codes.ehufco[s] < Shl(1, book.codes.ehufsi[s])
  {
    hide Used, CodesUpTo, Shl;
    var n := CodesUpTo(book.bits, 16);
    assert s in book.huffval[..n];
    p :| 0 <= p < n && book.huffval[p] == s;
    var l := LengthExists(book.bits, p, 16);
    CodeFits(book.bits, p, l);
  }

  lemma EventFits(books: Books, e: Event)
    requires Codable(books, e)
    ensures 0 < Length(books, e) <= 16 && Number(books, e) < Shl(1, Length(books, e))
  {
    if e.Symbol? { var p := CodeOfSymbol(books[e.tbl], e.s); }
  }

  /** A symbol that stands ahead is what the decoder finds. */
  lemma DecodesEvent(book: Book, stream: seq<bool>, at: nat, s: byte)
    requires book.Valid() && book.codes.ehufsi[s] > 0
    requires NumberAt(stream, at, book.codes.ehufsi[s]) == book.codes.ehufco[s]
    ensures DecodeAt(book.bits, book.huffval, stream, at) == (s, at + book.codes.ehufsi[s])
  {
    hide DecodeAt, NumberAt, EncodesBy;
    var p := CodeOfSymbol(book, s);
    DecodesSymbol(book.bits, book.huffval, stream, at, p, book.codes.ehufsi[s]);
  }

  lemma {:induction false} SpellPrefix(books: Books, written: seq<bool>, events: Events)
    ensures written <= Spell(books, written, events)
    decreases events
  {
    if events.Cons? {
      var e := events.head;
      SpellPrefix(books, written + BitsOf(Number(books, e), Length(books, e)), events.tail);
    }
  }

  lemma AheadBound(books: Books, stream: seq<bool>, at: nat, events: Events)
    requires Ahead(books, stream, at, events)
    ensures at <= |stream|
  {
  }

  /** What has been spelled stands ahead in any stream that holds it. */
  lemma {:induction false} SpelledAhead(books: Books, written: seq<bool>, events: Events, stream: seq<bool>)
    requires AllCodable(books, events)
    requires |Spell(books, written, events)| <= |stream|
    requires forall i | 0 <= i < |Spell(books, written, events)| ::
               BitAt(stream, i) == BitAt(Spell(books, written, events), i)
    ensures Ahead(books, stream, |written|, events)
    decreases events
  {
    hide BitsOf, NumberAt, BitAt, Length, Number, Codable, Shl;
    if events.Cons? {
      var e := events.head;
      var more := written + BitsOf(Number(books, e), Length(books, e));
      SpellPrefix(books, more, events.tail);
      EventFits(books, e);
      NumberOfBits(Number(books, e), Length(books, e));
      PrefixEnds(written, BitsOf(Number(books, e), Length(books, e)), Spell(books, written, events));
      WordSame(|written|, BitsOf(Number(books, e), Length(books, e)), Spell(books, written, events), stream);
      SpelledAhead(books, more, events.tail, stream);
    }
  }

  lemma PrefixEnds(front: seq<bool>, word: seq<bool>, all: seq<bool>)
    requires front + word <= all
    ensures |front| + |word| <= |all|
    ensures forall i | |front| <= i < |front| + |word| :: all[i] == word[i - |front|]
  {
    var more := front + word;
    assert more == all[..|more|];
    forall i | |front| <= i < |front| + |word| ensures all[i] == word[i - |front|] {
      assert all[i] == more[i];
    }
  }

  lemma WordSame(at: nat, word: seq<bool>, all: seq<bool>, stream: seq<bool>)
    requires at + |word| <= |all| <= |stream| && forall i | at <= i < at + |word| :: all[i] == word[i - at]
    requires forall i | 0 <= i < |all| :: BitAt(stream, i) == BitAt(all, i)
    ensures NumberAt(stream, at, |word|) == NumberAt(word, 0, |word|)
  {
    hide NumberAt;
    NumberSame(stream, word, at, 0, |word|);
  }

  /** Where the events of a pass go: they are written, or the symbols are counted. */
  datatype Sink = Bits(written: seq<bool>) | Counts(count: seq<nat>)

  ghost function Emit(books: Books, sink: Sink, e: Event): Sink {
    match sink
    case Bits(written) => Bits(written + BitsOf(Number(books, e), Length(books, e)))
    case Counts(count) =>
      if e.Symbol? && e.s as int < |count| then Counts(count[e.s as int := count[e.s] + 1]) else sink
  }

  ghost function EmitAll(books: Books, sink: Sink, events: Events): Sink
    decreases events
  {
    match events
    case Nil => sink
    case Cons(e, rest) => EmitAll(books, Emit(books, sink, e), rest)
  }

  lemma {:induction false} EmitsSpelling(books: Books, written: seq<bool>, events: Events)
    ensures EmitAll(books, Bits(written), events) == Bits(Spell(books, written, events))
    decreases events
  {
    if events.Cons? {
      var e := events.head;
      EmitsSpelling(books, written + BitsOf(Number(books, e), Length(books, e)), events.tail);
    }
  }

  ghost predicate Occurs(s: byte, events: Events) {
    match events
    case Nil => false
    case Cons(e, rest) => (e.Symbol? && e.s == s) || Occurs(s, rest)
  }

  /** Exactly the symbols that occur are counted. */
  lemma {:induction false} CountsOccurrences(books: Books, count: seq<nat>, events: Events, s: byte)
    requires |count| == 257
    ensures var sink := EmitAll(books, Counts(count), events);
            sink.Counts? && |sink.count| == 257 && (sink.count[s] > 0 <==> count[s] > 0 || Occurs(s, events))
            && sink.count[256] == count[256]
    decreases events
  {
    if events.Cons? {
      CountsOccurrences(books, Emit(books, Counts(count), events.head).count, events.tail, s);
    }
  }
}
