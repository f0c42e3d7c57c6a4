/** How many bits the 64-bit register of jchuff.c holds, and when flushing it loses none. */
module HeldBits {
  import opened JpegLimits
  import opened Shifts
  import opened BitStrings
  import opened CodeEvents
  import opened Wrappers

  /** The bits held once `CHECKBUF31` or `CHECKBUF47` has made room, by `n` bytes. */
  function Emptied(held: nat, n: nat): nat {
    if held > 8 * n - 1 then held - 8 * n else held
  }

  /** The bits held after the events: room is made before each code and before the bits of a
      DC difference, and before a code and the bits of an AC coefficient together. */
  function HeldAfter(books: Books, held: nat, events: Events): nat
    decreases events
  {
    match events
    case Nil => held
    case Cons(Raw(_, n), rest) => HeldAfter(books, Emptied(held, 6) + n, rest)
    case Cons(Symbol(tbl, s), rest) =>
      var n := Length(books, Symbol(tbl, s));
      if tbl < NUM_HUFF_TBLS && s == 0 then HeldAfter(books, Emptied(Emptied(held, 6) + n, 6), rest)
      else if tbl >= NUM_HUFF_TBLS && s as nat % 16 != 0 && rest.Cons? && rest.head.Raw? then
        HeldAfter(books, Emptied(held, 4) + n + rest.head.n, rest.tail)
      else HeldAfter(books, Emptied(held, 6) + n, rest)
  }

  /** The bits held when the events have been written are a number below 2^57, so that seven
      more bits fit into the register. */
  predicate FlushFits(books: Books, events: Events) {
    var all, held := Spell(books, [], events), HeldAfter(books, 0, events);
    held <= |all| && NumberAt(all, |all| - held, held) < Shl(1, 57)
  }

  /** No more bits are held than have been written. */
  lemma {:induction false} HeldWritten(books: Books, held: nat, written: seq<bool>, events: Events)
    requires held <= |written|
    ensures HeldAfter(books, held, events) <= |Spell(books, written, events)|
    decreases events
  {
    if events.Cons? {
      var e, rest := events.head, events.tail;
      var more := written + BitsOf(Number(books, e), Length(books, e));
      if e.Symbol? && e.tbl >= NUM_HUFF_TBLS && e.s as nat % 16 != 0 && rest.Cons? && rest.head.Raw? {
        var raw := rest.head;
        HeldWritten(books, Emptied(held, 4) + Length(books, e) + raw.n,
                    more + BitsOf(Number(books, raw), Length(books, raw)), rest.tail);
      } else if e.Symbol? && e.tbl < NUM_HUFF_TBLS && e.s == 0 {
        HeldWritten(books, Emptied(Emptied(held, 6) + Length(books, e), 6), more, rest);
      } else {
        HeldWritten(books, Emptied(held, 6) + Length(books, e), more, rest);
      }
    }
  }

  /** With at most 57 bits held, all is well. */
  lemma FewHeldFit(books: Books, events: Events)
    requires HeldAfter(books, 0, events) <= 57
    ensures FlushFits(books, events)
  {
    hide HeldAfter, Spell, Shl, NumberAt;
    var all, held := Spell(books, [], events), HeldAfter(books, 0, events);
    HeldWritten(books, 0, [], events);
    NumberBound(all, |all| - held, held);
    if held < 57 { ShlExponent(held, 57); }
  }
}
