/** Reading symbols and bits that are known to stand ahead in the stream. */
module EventReader {
  import opened Shifts
  import opened CodeLengths
  import opened BitStrings
  import opened CanonicalCodes
  import opened HuffmanTables
  import opened CodeEvents
  import opened BitReader
  import opened BitWriter
  import opened BitCodec
  import opened Wrappers

  /** Where the stream is when the events `events` are ahead. */
  ghost predicate Facing(reader: Reader, books: Books, events: Events)
    reads reader`stream, reader`at
  {
    Ahead(books, reader.stream, reader.at, events) && AllCodable(books, events)
  }

  /** Reads a symbol that is ahead. */
  method ReadAhead(reader: Reader, table: DecoderTable, ghost books: Books, ghost tbl: nat, ghost s: byte,
                   ghost rest: Events)
    returns (r: Option<byte>)
    requires reader.Valid() && table.Valid() && !reader.insufficientData
    requires tbl < |books| && table.bits == books[tbl].bits && table.huffval == books[tbl].huffval
    requires Facing(reader, books, Cons(Symbol(tbl, s), rest))
    modifies reader`pos, reader`unreadMarker, reader`getBuffer, reader`bitsLeft, reader`insufficientData
    modifies reader`spent, reader`at
    ensures reader.Valid() && !reader.insufficientData
    ensures r.Some? ==> r.value == s && Facing(reader, books, rest)
    ensures r.None? ==> reader.unreadMarker == 0
    ensures old(reader.unreadMarker) != 0 ==> reader.unreadMarker != 0
    ensures old(reader.Complete()) ==> r.Some? && reader.Complete()
  {
    hide Ahead, AllCodable, Reader.Valid, Reader.Complete, DecoderTable.Valid, DecodeAt;
    ghost var behind := ReadsHere(table, books, reader.stream, reader.at, tbl, s, rest);
    r := reader.HuffDecode(table);
  }

  lemma ReadsHere(table: DecoderTable, books: Books, stream: seq<bool>, at: nat, tbl: nat, s: byte, rest: Events)
    returns (behind: nat)
    requires table.Valid() && tbl < |books| && table.bits == books[tbl].bits && table.huffval == books[tbl].huffval
    requires Ahead(books, stream, at, Cons(Symbol(tbl, s), rest)) && AllCodable(books, Cons(Symbol(tbl, s), rest))
    ensures |table.bits| == 17 && |table.huffval| == 256
    ensures DecodeAt(table.bits, table.huffval, stream, at) == (s, behind) && behind <= |stream|
    ensures Ahead(books, stream, behind, rest) && AllCodable(books, rest)
  {
    hide DecodeAt, NumberAt;
    TableSizes(table);
    DecodesEvent(books[tbl], stream, at, s);
    behind := at + books[tbl].codes.ehufsi[s];
    AheadBound(books, stream, behind, rest);
  }

  /** Reads bits that are ahead. */
  method ReadBits(reader: Reader, n: nat, ghost books: Books, ghost v: nat, ghost rest: Events) returns (r: Option<nat>)
    requires reader.Valid() && !reader.insufficientData && n <= 16 && Facing(reader, books, Cons(Raw(v, n), rest))
    modifies reader`pos, reader`unreadMarker, reader`getBuffer, reader`bitsLeft, reader`insufficientData
    modifies reader`spent, reader`at
    ensures reader.Valid() && !reader.insufficientData
    ensures r.Some? ==> r.value == v && Facing(reader, books, rest)
    ensures r.None? ==> reader.unreadMarker == 0
    ensures old(reader.unreadMarker) != 0 ==> reader.unreadMarker != 0
    ensures old(reader.Complete()) ==> r.Some? && reader.Complete()
  {
    hide Reader.Valid, Reader.Complete, NumberAt;
    BitsHere(books, reader.stream, reader.at, v, n, rest);
    r := reader.GetBits(n);
  }

  lemma BitsHere(books: Books, stream: seq<bool>, at: nat, v: nat, n: nat, rest: Events)
    requires Ahead(books, stream, at, Cons(Raw(v, n), rest)) && AllCodable(books, Cons(Raw(v, n), rest))
    ensures NumberAt(stream, at, n) == v && at + n <= |stream|
    ensures Ahead(books, stream, at + n, rest) && AllCodable(books, rest)
  {
    hide NumberAt;
    AheadBound(books, stream, at + n, rest);
  }

  /** What a pass has spelled stands ahead in the stream that its bytes hold. */
  lemma EventsAhead(books: Books, events: Events, d: seq<byte>, stream: seq<bool>)
    requires AllCodable(books, events) && PaddedBytes(Spell(books, [], events), d)
    requires |stream| == 8 * |d| && Packed(stream, d)
    ensures Ahead(books, stream, 0, events)
  {
    hide Ahead, AllCodable, Packed, Spell, BitsOf;
    var all := Spell(books, [], events);
    forall i | 0 <= i < |all| ensures BitAt(stream, i) == BitAt(all, i) {
      StreamHolds(all, d, stream, i);
    }
    SpelledAhead(books, [], events, stream);
  }
}
