/** Codes after which the 64-bit register of jchuff.c loses bits when it is flushed. */
module FlushLoss {
  import opened JpegLimits
  import opened Segments
  import opened Shifts
  import opened CodeLengths
  import opened BitStrings
  import opened BitWriter
  import opened CanonicalCodes
  import opened HuffmanTables
  import opened CodeEvents
  import opened HeldBits
  import opened Zigzag
  import opened PointTransform
  import opened AcRefineModel
  import opened AcFirstModel
  import Dc = DcModel
  import opened BaseModel
  import opened HuffEncoder
  import BitCodec
  import opened Wrappers

  /** A number of 63 bits that starts with 16 bits of at least 2^10 is too large. */
  lemma TooManyPending(all: seq<bool>)
    requires NumberAt(all, 0, 16) >= Shl(1, 10)
    ensures NumberAt(all, 0, 63) >= Shl(1, 57)
  {
    hide NumberAt;
    NumberSplit(all, 0, 16, 47);
    ShlOrder(Shl(1, 10), NumberAt(all, 0, 16), 47);
    ShlShl(1, 10, 47);
  }

  // ------------------------------------------------------------------ plain codes

  /** Codes of ones only: 16, 16, 15 and 16 bits. */
  function Ones(): (items: seq<BitCodec.Item>)
    ensures BitCodec.Fits(items)
  {
    Powers();
    [BitCodec.Item(0xFFFF, 16), BitCodec.Item(0xFFFF, 16), BitCodec.Item(0x7FFF, 15), BitCodec.Item(0xFFFF, 16)]
  }

  /** All 63 bits are still held, and they do not fit. */
  lemma OnesDoNotFit()
    ensures var items := Ones(); var all := BitCodec.Joined(items, 4);
            BitCodec.Held(items, 4) == 63 == |all| && NumberAt(all, 0, 63) >= Shl(1, 57)
  {
    hide Shl, NumberAt, BitsOf;
    var items := Ones();
    var all := BitCodec.Joined(items, 4);
    OnesHeld();
    BitCodec.ItemAt(items, 0, all);
    assert NumberAt(all, 0, 16) == 0xFFFF;
    TenBits();
    TooManyPending(all);
  }

  lemma OnesHeld()
    ensures var items := Ones();
            BitCodec.Held(items, 4) == 63 == |BitCodec.Joined(items, 4)| && |BitCodec.Joined(items, 0)| == 0
  {
    hide BitsOf;
    var items := Ones();
    assert BitCodec.Held(items, 1) == 16 && |BitCodec.Joined(items, 1)| == 16;
    assert BitCodec.Held(items, 2) == 32 && |BitCodec.Joined(items, 2)| == 32;
    assert BitCodec.Held(items, 3) == 47 && |BitCodec.Joined(items, 3)| == 47;
  }

  lemma TenBits()
    ensures Shl(1, 9) == 512 && Shl(1, 10) == 1024 && Shl(1, 11) == 2048
  {
    Powers();
    assert Shl(1, 9) == 2 * Shl(1, 8);
  }

  /** So the wide writer does not write what the narrow one writes, which can be read back. */
  method OnesLost(marker: byte) returns (narrow: seq<byte>, wide: seq<byte>, codes: seq<nat>)
    requires marker != 0 && marker != 0xFF
    ensures wide != narrow && codes == [0xFFFF, 0xFFFF, 0x7FFF, 0xFFFF]
  {
    hide Shl, NumberAt, BitsOf;
    OnesDoNotFit();
    narrow, wide, codes := BitCodec.RoundTrip(Ones(), 0, marker, []);
  }

  // ----------------------------------------------------------------------- a scan

  /** Two codes: one of `a` bits and one of 16 bits. */
  function TwoCodes(a: nat): (bits: seq<byte>)
    requires 1 <= a < 16
    ensures |bits| == 17
  {
    seq(17, i => if i == a || i == 16 then 1 else 0)
  }

  lemma {:induction false} TwoCodesAre(a: nat, l: nat)
    requires 1 <= a < 16 && l <= 16
    ensures CodesUpTo(TwoCodes(a), l) == if l < a then 0 else if l < 16 then 1 else 2
    ensures Used(TwoCodes(a), l) == if l < a then 0 else if l < 16 then Shl(1, l - a) else Shl(1, 16 - a) + 1
  {
    if l > 0 { TwoCodesAre(a, l - 1); }
  }

  lemma TwoCodesLegal(a: nat)
    requires 1 <= a < 16
    ensures Legal(TwoCodes(a)) && HasCode(TwoCodes(a), 0, a) && HasCode(TwoCodes(a), 1, 16)
    ensures Code(TwoCodes(a), 0, a) == 0 && Code(TwoCodes(a), 1, 16) == Shl(1, 16 - a)
  {
    hide CodesUpTo, Used, TwoCodes;
    TwoCodesAre(a, a - 1);
    TwoCodesAre(a, a);
    TwoCodesAre(a, 15);
    TwoCodesAre(a, 16);
    assert Shl(1, 16 - a) == 2 * Shl(1, 15 - a);
    Powers();
    assert Shl(1, 16) == 2 * Shl(1, 15);
    if a > 1 { ShlExponent(16 - a, 15); }
    assert TwoCodes(a)[16] == 1 by { LastOne(a); }
  }

  lemma LastOne(a: nat)
    requires 1 <= a < 16
    ensures TwoCodes(a)[16] == 1
  {
  }

  /** The symbol of the code of `a` bits and that of the code of 16 bits. */
  function TwoSymbols(s: byte, t: byte): (huffval: seq<byte>)
    ensures |huffval| == 256
  {
    seq(256, i => if i == 0 then s else if i == 1 then t else 0)
  }

  const DC_BITS := 1
  const AC_BITS := 10

  /** The DC table: difference category 11 has the code of 16 bits. */
  ghost function DcBook(codes: EncoderTable): Book {
    Book(TwoCodes(DC_BITS), TwoSymbols(0, 11), codes)
  }

  /** The AC table: the end of the block has the code of 16 bits. */
  ghost function AcBook(codes: EncoderTable): Book {
    Book(TwoCodes(AC_BITS), TwoSymbols(0x0A, 0), codes)
  }

  ghost function AllBooks(dc: EncoderTable, ac: EncoderTable): Books {
    var d, a := DcBook(dc), AcBook(ac);
    [d, d, d, d, a, a, a, a]
  }

  lemma BookCodes(book: Book, a: nat, s: byte, t: byte)
    requires 1 <= a < 16 && book.bits == TwoCodes(a) && book.huffval == TwoSymbols(s, t) && book.Valid()
    ensures book.codes.ehufsi[s] == a && book.codes.ehufsi[t] == 16
    ensures book.codes.ehufco[t] == Shl(1, 16 - a)
  {
    hide Shl, TwoCodes, CodesUpTo, Used;
    TwoCodesLegal(a);
    TwoCodesAre(a, 16);
    assert book.huffval[0] == s && book.huffval[1] == t;
  }

  const SINGLE := Layout([0], [0], [0])

  /** One block: DC value 1024, first AC coefficient 512. */
  function OneBlock(): (b: Block)
  {
    seq(64, i => if i == 0 then 1024 else if i == 1 then 512 else 0)
  }

  lemma BlockSizes(k: nat)
    requires k <= 63
    ensures Size(AC, OneBlock(), k) == if k == 0 then 1024 else if k == 1 then 512 else 0
    ensures OneBlock()[Natural(1)] == 512
  {
    assert Natural(1) == 1 && Natural(0) == 0;
    assert Inverse(Natural(k)) == k;
    hide Natural;
  }

  lemma {:induction false} NothingMore(k: nat)
    requires 2 <= k <= 64
    ensures FirstNonzero(AC, OneBlock(), k) == 64
    decreases 64 - k
  {
    hide Natural, Size;
    if k <= 63 { BlockSizes(k); NothingMore(k + 1); }
  }

  lemma LengthIs(v: nat, n: nat)
    requires n > 0 && Shl(1, n - 1) <= v < Shl(1, n)
    ensures v > 0 && BitLength(v) == n
  {
    hide Shl, Log2;
    ShlPositive(n - 1);
    ExponentOrder(BitLength(v) - 1, n);
    ExponentOrder(n - 1, BitLength(v));
  }

  lemma BlockSpelled()
    ensures BlockPlan(SINGLE, 0, OneBlock(), 0, Nil) == FiveEvents()
    ensures BlockSmall(OneBlock(), 0)
  {
    hide Shl, Natural, Size, Log2, FirstNonzero, BitLength;
    var b := OneBlock();
    TenBits();
    LengthIs(1024, 11);
    LengthIs(512, 10);
    forall k: nat | k <= 63 ensures Size(AC, b, k) == if k == 0 then 1024 else if k == 1 then 512 else 0 { BlockSizes(k); }
    NonzeroIs(AC, b, 1, 1);
    BlockSizes(1);
    NothingMore(2);
    AcIsCoef(4, b, 1, 1, Nil);
    AcIsEob(4, b, 2, Nil);
  }

  /** With legal tables every symbol of the block has a code and every coefficient is small,
      and still the bits do not fit. */
  lemma LongEobDoesNotFit(dc: EncoderTable, ac: EncoderTable)
    requires DcBook(dc).Valid() && AcBook(ac).Valid()
    ensures Laid(SINGLE, [[OneBlock()]]) && AllFine(SINGLE, [[OneBlock()]], 0, AllBooks(dc, ac))
    ensures SegmentStart(0, 0) == 0 && !SegmentFits(SINGLE, [[OneBlock()]], 0, AllBooks(dc, ac), 0)
  {
    hide Shl, OneBlock, TwoCodes, TwoSymbols, FlushFits, BlockPlan, BlockSmall, BlockFits;
    var books, mcus := AllBooks(dc, ac), [[OneBlock()]];
    BlockSpelled();
    SmallFits(OneBlock(), 0);
    ScanOfOne(OneBlock());
    TableCodes(dc, ac);
    EventsDoNotFit(books);
    EventsCodable(books);
  }

  /** The plan of a scan with one block only. */
  lemma ScanOfOne(b: Block)
    ensures Laid(SINGLE, [[b]]) && BasePlan(SINGLE, [[b]], 1, 0, 0, [0]) == BlockPlan(SINGLE, 0, b, 0, Nil)
    ensures InRange(SINGLE, [[b]], 1, 0, 0, [0]) <==> BlockFits(b, 0)
    ensures Zero(SINGLE) == [0] && SegmentEnd(0, 1, 0) == 1
    ensures forall s: nat :: SegmentStart(0, s) == 0
  {
    hide BlockPlan, BlockFits;
    var mcus: seq<Mcu> := [[b]];
    PlanBlock(SINGLE, mcus, 1, 0, 0, [0]);
    PlanMcu(SINGLE, mcus, 1, 0, [b[0]]);
    PlanDone(SINGLE, mcus, 1, [b[0]]);
    assert [0][0 := b[0]] == [b[0]];
    forall s: nat ensures SegmentStart(0, s) == 0 { NoStarts(s); }
  }

  lemma {:induction false} NoStarts(s: nat)
    ensures SegmentStart(0, s) == 0
  {
    if s > 0 { NoStarts(s - 1); }
  }

  lemma TableCodes(dc: EncoderTable, ac: EncoderTable)
    requires DcBook(dc).Valid() && AcBook(ac).Valid()
    ensures dc.ehufsi[11] == 16 && dc.ehufco[11] == 0x8000
    ensures ac.ehufsi[0x0A] == 10 && ac.ehufsi[0] == 16
  {
    Powers();
    BookCodes(DcBook(dc), DC_BITS, 0, 11);
    BookCodes(AcBook(ac), AC_BITS, 0x0A, 0);
  }

  /** The symbols of the block have these codes. */
  ghost predicate LongCodes(books: Books) {
    && |books| == 8 && |books[0].codes.ehufsi| == |books[0].codes.ehufco| == 256 == |books[4].codes.ehufsi|
    && books[0].codes.ehufsi[11] == 16 && books[0].codes.ehufco[11] == 0x8000
    && books[4].codes.ehufsi[0x0A] == 10 && books[4].codes.ehufsi[0] == 16
  }

  /** The events of the block. */
  function FiveEvents(): Events {
    Cons(Symbol(0, 11), Cons(Raw(1024, 11), Cons(Symbol(4, 0x0A), Cons(Raw(512, 10), Cons(Symbol(4, 0), Nil)))))
  }

  /** They have 16, 11, 10, 10 and 16 bits, all of which are held at the end. */
  lemma AllHeld(books: Books)
    requires LongCodes(books)
    ensures HeldAfter(books, 0, FiveEvents()) == 63 == |Spell(books, [], FiveEvents())|
  {
    hide BitsOf;
    var end := Cons(Symbol(4, 0), Nil);
    assert HeldAfter(books, 47, end) == 63;
    var behind := Cons(Symbol(4, 0x0A), Cons(Raw(512, 10), end));
    assert HeldAfter(books, 27, behind) == 63;
    forall w: seq<bool> ensures |Spell(books, w, behind)| == |w| + 36 { }
  }

  lemma EventsDoNotFit(books: Books)
    requires LongCodes(books)
    ensures !FlushFits(books, FiveEvents())
  {
    hide Shl, NumberAt, BitsOf, HeldAfter;
    var all, front := Spell(books, [], FiveEvents()), BitsOf(0x8000, 16);
    TenBits();
    AllHeld(books);
    FrontOf(books, front, all);
    Powers();
    NumberOfBits(0x8000, 16);
    TooManyPending(all);
  }

  lemma FrontOf(books: Books, front: seq<bool>, all: seq<bool>)
    requires LongCodes(books) && front == BitsOf(0x8000, 16) && all == Spell(books, [], FiveEvents())
    ensures NumberAt(all, 0, 16) == NumberAt(front, 0, 16)
  {
    hide NumberAt, BitsOf;
    assert [] + front == front;
    assert all == Spell(books, front, FiveEvents().tail);
    SpellPrefix(books, front, FiveEvents().tail);
    NumberSame(all, front, 0, 0, 16);
  }

  lemma EventsCodable(books: Books)
    requires LongCodes(books) && books[0].Valid() && books[4].Valid()
    ensures AllCodable(books, FiveEvents())
  {
    hide Book.Valid, Shl;
    TenBits();
    var events := FiveEvents();
    assert AllCodable(books, events.tail.tail.tail.tail);
    assert AllCodable(books, events.tail.tail);
  }

  /** The scan of that block is written, without an error, as bytes that do not hold its bits. */
  method LongEobLost() returns (dc: EncoderTable, ac: EncoderTable, bytes: seq<byte>)
    ensures DcBook(dc).Valid() && AcBook(ac).Valid()
    ensures forall d | bytes == Stuff(d) ::
              !PaddedBytes(Spell(AllBooks(dc, ac), [], BlockPlan(SINGLE, 0, OneBlock(), 0, Nil)), d)
  {
    hide Shl, Spell, BlockPlan, PaddedBytes, AllFine, SegmentFits, EncodesBy, Stuff;
    dc := MakeTable(DC_BITS, 0, 11, true);
    ac := MakeTable(AC_BITS, 0x0A, 0, false);
    ghost var books := AllBooks(dc, ac);
    var mcus: seq<Mcu> := [[OneBlock()]];
    LongEobDoesNotFit(dc, ac);
    ghost var segments;
    bytes, segments := EncodeScan(SINGLE, mcus, 0, [dc, dc, dc, dc], [ac, ac, ac, ac], books);
    ScanOfOne(OneBlock());
    assert segments == [segments[0]];
    assert bytes == Stuff(segments[0]) by { assert Restarted(segments, 0) == []; }
    forall d | bytes == Stuff(d) ensures !PaddedBytes(Spell(books, [], BlockPlan(SINGLE, 0, OneBlock(), 0, Nil)), d) {
      BitCodec.StuffInjective(d, segments[0]);
    }
  }

  method MakeTable(a: nat, s: byte, t: byte, isDC: bool) returns (table: EncoderTable)
    requires 1 <= a < 16 && s != t && s <= 15 && t <= 15
    ensures Book(TwoCodes(a), TwoSymbols(s, t), table).Valid()
  {
    hide EncodesBy, TwoCodes;
    TwoCodesLegal(a);
    TwoCodesAre(a, 16);
    var made := MakeEncoder(TwoCodes(a), TwoSymbols(s, t), isDC);
    table := made.value;
  }
}
