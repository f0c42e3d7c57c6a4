/** Decoding the plan of an AC refinement scan block by block. */
module AcRefinePlan {
  import opened Shifts
  import opened BitStrings
  import opened CanonicalCodes
  import opened CodeEvents
  import HuffmanTables
  import opened Zigzag
  import opened PointTransform
  import opened AcRefineRun
  import opened AcRefineModel
  import opened AcRefineDecoder
  import opened Wrappers

  /** The decoder knows the coefficients of the band but for the bit this scan adds. */
  ghost predicate Known(band: Band, b: Block, base: Block) {
    band.Valid() && forall j | band.ss <= j <= band.se :: base[Natural(j)] == Point(b[Natural(j)], band.al + 1)
  }

  /** The coefficients of the band before `k` have got that bit. */
  ghost predicate Refined(band: Band, b: Block, base: Block, cur: seq<int>, k: nat) {
    && |cur| == 64
    && forall j | 0 <= j < 64 ::
         cur[Natural(j)] == if band.ss <= j < k then Point(b[Natural(j)], band.al) else base[Natural(j)]
  }

  lemma PartGrows(band: Band, b: Block, base: Block, cur: seq<int>, k: nat, v: int)
    requires Refined(band, b, base, cur, k) && band.ss <= k < 64 && v == Point(b[Natural(k)], band.al)
    ensures Refined(band, b, base, cur[Natural(k) := v], k + 1)
  {
    hide Point;
    forall j | 0 <= j < 64 && Natural(j) == Natural(k) ensures j == k { NaturalInjective(j, k); }
  }

  /** The phase with another number of zeros to pass. */
  function WithZeros(phase: Phase, zeros: nat): Phase {
    if phase.Skipping? then Skipping(zeros, phase.s) else phase
  }

  /** One coefficient that is nonzero already. */
  lemma PassOld(src: Source, band: Band, init: State, st: State, b: Block, base: Block) returns (next: State)
    requires Reached(src, band, init, st) && !st.phase.Symbols? && band.Valid() && Known(band, b, base)
    requires band.ss <= st.k <= band.se && Size(band, b, st.k) > 1 && Refined(band, b, base, st.block, st.k)
    requires BitAt(src.stream, st.at) == Size(band, b, st.k) % 2
    ensures Reached(src, band, init, next) && Refined(band, b, base, next.block, st.k + 1)
    ensures next == st.(block := next.block, k := st.k + 1, at := st.at + 1)
  {
    var p := Natural(st.k);
    PointRefines(b[p], band.al);
    PartAt(band, b, base, st.block, st.k);
    assert base[p] == Point(b[p], band.al + 1);
    hide Reached, Refined, Known, Point, Correct;
    var v := Correct(st.block[p], BitAt(src.stream, st.at) == 1, band.al);
    CoefNext(src, band, init, st, st.block[p := v]);
    next := st.(block := st.block[p := v], k := st.k + 1, at := st.at + 1);
    PartGrows(band, b, base, st.block, st.k, v);
  }

  /** One coefficient that stays zero. */
  lemma PassZero(src: Source, band: Band, init: State, st: State, b: Block, base: Block) returns (next: State)
    requires Reached(src, band, init, st) && !st.phase.Symbols? && band.Valid() && Known(band, b, base)
    requires band.ss <= st.k <= band.se && Size(band, b, st.k) == 0 && Refined(band, b, base, st.block, st.k)
    requires st.phase.Skipping? ==> st.phase.r > 0
    ensures Reached(src, band, init, next) && Refined(band, b, base, st.block, st.k + 1)
    ensures next == st.(k := st.k + 1, phase := WithZeros(st.phase, if st.phase.Skipping? then st.phase.r - 1 else 0))
  {
    var p := Natural(st.k);
    PointRefines(b[p], band.al);
    PartAt(band, b, base, st.block, st.k);
    assert st.block[p] == base[p] == Point(b[p], band.al + 1) == 0;
    hide Reached, Refined, Known, Point, Natural;
    ZeroNext(src, band, init, st);
    next := st.(k := st.k + 1, phase := if st.phase.Rest? then st.phase else Skipping(st.phase.r - 1, st.phase.s));
    PartGrows(band, b, base, st.block, st.k, 0);
    assert st.block[p := 0] == st.block;
  }

  /** One coefficient that does not become nonzero. */
  lemma PassOne(src: Source, band: Band, init: State, st: State, b: Block, base: Block, books: Books, end: nat, rest: Events)
    returns (next: State)
    requires Reached(src, band, init, st) && !st.phase.Symbols? && band.Valid() && Known(band, b, base)
    requires band.ss <= st.k < end <= band.se + 1 && Size(band, b, st.k) != 1 && Refined(band, b, base, st.block, st.k)
    requires st.phase.Skipping? ==> st.phase.r == Zeros(band, b, st.k, end)
    requires Ahead(books, src.stream, st.at, OldBits(band, b, st.k, end, rest))
    ensures Reached(src, band, init, next) && next.k == st.k + 1 && next.newnz == st.newnz
    ensures Refined(band, b, base, next.block, next.k)
    ensures next.phase == WithZeros(st.phase, Zeros(band, b, st.k + 1, end))
    ensures Ahead(books, src.stream, next.at, OldBits(band, b, next.k, end, rest))
  {
    hide Reached, NumberAt, Refined, Known, Zeros, Natural, Size;
    ZerosFront(band, b, st.k, end);
    if Size(band, b, st.k) > 1 {
      OneBit(src.stream, st.at);
      next := PassOld(src, band, init, st, b, base);
    } else {
      next := PassZero(src, band, init, st, b, base);
    }
  }

  lemma PartAt(band: Band, b: Block, base: Block, cur: seq<int>, k: nat)
    requires Refined(band, b, base, cur, k) && band.ss <= k < 64
    ensures |cur| == 64 && cur[Natural(k)] == base[Natural(k)]
  {
  }

  /** All coefficients up to before `end`, of which none becomes nonzero. */
  lemma {:induction false} Pass(src: Source, band: Band, init: State, st: State, b: Block, base: Block, books: Books,
                                end: nat, rest: Events)
    returns (next: State)
    requires Reached(src, band, init, st) && !st.phase.Symbols? && band.Valid() && Known(band, b, base)
    requires band.ss <= st.k <= end <= band.se + 1 && Refined(band, b, base, st.block, st.k)
    requires forall j | st.k <= j < end :: Size(band, b, j) != 1
    requires st.phase.Skipping? ==> st.phase.r == Zeros(band, b, st.k, end)
    requires Ahead(books, src.stream, st.at, OldBits(band, b, st.k, end, rest))
    requires AllCodable(books, OldBits(band, b, st.k, end, rest))
    ensures Reached(src, band, init, next) && next.k == end && next.newnz == st.newnz
    ensures Refined(band, b, base, next.block, end)
    ensures next.phase == WithZeros(st.phase, 0)
    ensures Ahead(books, src.stream, next.at, rest) && AllCodable(books, rest)
    decreases end - st.k
  {
    hide Reached, Refined, Known, Ahead;
    if st.k == end {
      next := st;
    } else {
      next := PassOne(src, band, init, st, b, base, books, end, rest);
      next := Pass(src, band, init, next, b, base, books, end, rest);
    }
  }

  /** A symbol that stands ahead is read. */
  lemma ReadsSymbol(books: Books, src: Source, at: nat, s: byte, rest: Events) returns (behind: nat)
    requires |books| == 1 && src.bits == books[0].bits && src.huffval == books[0].huffval
    requires AllCodable(books, Cons(Symbol(0, s), rest)) && Ahead(books, src.stream, at, Cons(Symbol(0, s), rest))
    ensures src.Valid() && DecodeAt(src.bits, src.huffval, src.stream, at) == (s, behind) && at <= behind
    ensures Ahead(books, src.stream, behind, rest) && AllCodable(books, rest)
  {
    hide DecodeAt, NumberAt, HuffmanTables.EncodesBy;
    DecodesEvent(books[0], src.stream, at, s);
    behind := at + Length(books, Symbol(0, s));
  }

  // ------------------------------------------------------- one block of the plan

  /** A new coefficient, with the zeros and correction bits before it. */
  lemma NewCoef(src: Source, band: Band, init: State, st: State, books: Books, b: Block, base: Block, t: nat, rest: Events)
    returns (next: State)
    requires Reached(src, band, init, st) && st.phase.Symbols? && band.Valid() && Known(band, b, base)
    requires |books| == 1 && src.bits == books[0].bits && src.huffval == books[0].huffval
    requires band.ss <= st.k <= t <= band.se && t == FirstNew(band, b, st.k) && Zeros(band, b, st.k, t) <= 15
    requires Refined(band, b, base, st.block, st.k)
    requires var events := Cons(Symbol(0, (16 * Zeros(band, b, st.k, t) + 1) as byte),
                                Cons(Raw(if b[Natural(t)] < 0 then 0 else 1, 1), OldBits(band, b, st.k, t, rest)));
             Ahead(books, src.stream, st.at, events) && AllCodable(books, events)
    ensures Reached(src, band, init, next) && next.phase.Symbols? && next.k == t + 1
    ensures Refined(band, b, base, next.block, t + 1)
    ensures Ahead(books, src.stream, next.at, rest) && AllCodable(books, rest)
  {
    hide Reached, Refined, Known, DecodeAt, Zeros, FirstNew, Natural, OldBits;
    var z, bit := Zeros(band, b, st.k, t), if b[Natural(t)] < 0 then 0 else 1;
    var at := ReadsSymbol(books, src, st.at, (16 * z + 1) as byte, Cons(Raw(bit, 1), OldBits(band, b, st.k, t, rest)));
    OneBit(src.stream, at);
    var value := NewValue(bit, band.al);
    SymbolNext(src, band, init, st, (16 * z + 1) as byte, at, Skipping(z, value), at + 1);
    var skip := st.(phase := Skipping(z, value), at := at + 1);
    next := Pass(src, band, init, skip, b, base, books, t, rest);
    next := PlaceNew(src, band, init, next, b, base);
  }

  lemma PlaceNew(src: Source, band: Band, init: State, st: State, b: Block, base: Block) returns (next: State)
    requires Reached(src, band, init, st) && st.phase.Skipping? && band.Valid() && Known(band, b, base)
    requires band.ss <= st.k <= band.se && Size(band, b, st.k) == 1 && Refined(band, b, base, st.block, st.k)
    requires st.phase == Skipping(0, NewValue(if b[Natural(st.k)] < 0 then 0 else 1, band.al))
    ensures Reached(src, band, init, next) && next.phase.Symbols? && next.k == st.k + 1 && next.at == st.at
    ensures Refined(band, b, base, next.block, st.k + 1)
  {
    var p := Natural(st.k);
    PointRefines(b[p], band.al);
    PartAt(band, b, base, st.block, st.k);
    assert st.block[p] == base[p] == Point(b[p], band.al + 1) == 0;
    assert st.phase.s == Point(b[p], band.al);
    ShlPositive(band.al);
    hide Reached, Refined, Known, Point, NewValue;
    PlacedNext(src, band, init, st);
    next := Placed(st);
    PartGrows(band, b, base, st.block, st.k, st.phase.s);
  }

  /** Sixteen zeros, with the correction bits between them. */
  lemma SixteenZeros(src: Source, band: Band, init: State, st: State, books: Books, b: Block, base: Block, t: nat,
                     rest: Events)
    returns (next: State)
    requires Reached(src, band, init, st) && st.phase.Symbols? && band.Valid() && Known(band, b, base)
    requires |books| == 1 && src.bits == books[0].bits && src.huffval == books[0].huffval
    requires band.ss <= st.k <= t <= band.se && t == FirstNew(band, b, st.k) && Zeros(band, b, st.k, t) > 15
    requires Refined(band, b, base, st.block, st.k)
    requires var m := NthZero(band, b, st.k, 15, t);
             var events := Cons(Symbol(0, 0xF0), OldBits(band, b, st.k, m, rest));
             Ahead(books, src.stream, st.at, events) && AllCodable(books, events)
    ensures var m := NthZero(band, b, st.k, 15, t);
            && Reached(src, band, init, next) && next.phase.Symbols? && next.k == m + 1
            && Refined(band, b, base, next.block, m + 1)
    ensures Ahead(books, src.stream, next.at, rest) && AllCodable(books, rest)
  {
    hide Reached, Refined, Known, DecodeAt, Zeros, Natural, OldBits, NthZero;
    var m := NthZero(band, b, st.k, 15, t);
    var at := ReadsSymbol(books, src, st.at, 0xF0, OldBits(band, b, st.k, m, rest));
    SymbolNext(src, band, init, st, 0xF0, at, Skipping(15, 0), at);
    ZerosBefore(band, b, st.k, 15, t);
    var skip := st.(phase := Skipping(15, 0), at := at);
    next := Pass(src, band, init, skip, b, base, books, m, rest);
    next := PassLast(src, band, init, next, b, base);
  }

  lemma PassLast(src: Source, band: Band, init: State, st: State, b: Block, base: Block) returns (next: State)
    requires Reached(src, band, init, st) && st.phase == Skipping(0, 0) && band.Valid() && Known(band, b, base)
    requires band.ss <= st.k <= band.se && Size(band, b, st.k) == 0 && Refined(band, b, base, st.block, st.k)
    ensures Reached(src, band, init, next) && next.phase.Symbols? && next.k == st.k + 1 && next.at == st.at
    ensures Refined(band, b, base, next.block, st.k + 1)
  {
    var p := Natural(st.k);
    PointRefines(b[p], band.al);
    PartAt(band, b, base, st.block, st.k);
    assert st.block[p] == base[p] == Point(b[p], band.al + 1) == 0;
    hide Reached, Refined, Known, Point;
    PlacedNext(src, band, init, st);
    next := Placed(st);
    PartGrows(band, b, base, st.block, st.k, 0);
    assert st.block[p := 0] == st.block;
  }

  /** The block is done: all of the band has got its bit, and the next events are `rest`. */
  ghost predicate Decoded(src: Source, band: Band, init: State, books: Books, b: Block, base: Block,
                          at: nat, block: seq<int>, e: nat, rest: Events) {
    && Finishes(src, band, init, at, block, e)
    && Refined(band, b, base, block, band.se + 1)
    && Ahead(books, src.stream, at, rest) && AllCodable(books, rest)
  }

  /** A block, or what is left of it, behind its last new coefficient. */
  lemma RestOfBlock(src: Source, band: Band, init: State, st: State, books: Books, b: Block, base: Block, rest: Events)
    returns (at: nat, block: seq<int>)
    requires Reached(src, band, init, st) && st.phase.Rest? && st.phase.eobrun > 0 && band.Valid() && Known(band, b, base)
    requires band.ss <= st.k <= band.se + 1 && FirstNew(band, b, st.k) > band.se
    requires Refined(band, b, base, st.block, st.k)
    requires Ahead(books, src.stream, st.at, OldBits(band, b, st.k, band.se + 1, rest))
    requires AllCodable(books, OldBits(band, b, st.k, band.se + 1, rest))
    ensures Decoded(src, band, init, books, b, base, at, block, st.phase.eobrun - 1, rest)
  {
    hide Reached, Refined, Known, OldBits, Finishes, Ahead;
    var end := Pass(src, band, init, st, b, base, books, band.se + 1, rest);
    RestEnds(src, band, init, end);
    at, block := end.at, end.block;
  }

  lemma OneBlock(run: nat, stream: seq<bool>, at: nat)
    requires Shl(1, 0) <= run < Shl(1, 1)
    ensures run == Shl(1, 0) && NumberAt(stream, at, 0) == 0
  {
  }

  /** An end-of-band symbol gives the length of the run. */
  lemma ReadsEob(src: Source, band: Band, init: State, st: State, books: Books, run: nat, rest: Events)
    returns (next: State)
    requires Reached(src, band, init, st) && st.phase.Symbols? && st.k <= band.se
    requires |books| == 1 && src.bits == books[0].bits && src.huffval == books[0].huffval
    requires 0 < run <= MAX_EOBRUN && Ahead(books, src.stream, st.at, Eob(run, rest)) && AllCodable(books, Eob(run, rest))
    ensures next == st.(phase := Rest(run), at := next.at) && Reached(src, band, init, next)
    ensures Ahead(books, src.stream, next.at, rest) && AllCodable(books, rest)
  {
    hide Reached, DecodeAt, Log2, Shl, NumberAt;
    var n := Log2(run);
    Log2Fits(run);
    var bits := if n > 0 then Cons(Raw(run - Shl(1, n), n), rest) else rest;
    var at := ReadsSymbol(books, src, st.at, (16 * n) as byte, bits);
    if n == 0 { OneBlock(run, src.stream, at); }
    SymbolNext(src, band, init, st, (16 * n) as byte, at, Rest(run), at + n);
    next := st.(phase := Rest(run), at := at + n);
  }

  lemma EndOfBand(src: Source, band: Band, init: State, st: State, books: Books, blocks: seq<Block>, i: nat, base: Block)
    requires Reached(src, band, init, st) && st.phase.Symbols? && band.Valid() && i < |blocks|
    requires st.k == band.se + 1 && Refined(band, blocks[i], base, st.block, st.k)
    requires Ahead(books, src.stream, st.at, Plan(band, blocks, i, st.k)) && AllCodable(books, Plan(band, blocks, i, st.k))
    ensures RunAhead(band, blocks, i + 1, 0)
    ensures Decoded(src, band, init, books, blocks[i], base, st.at, st.block, 0, Blocks(band, blocks, i + 1, 0))
  {
    hide Plan, Blocks, Reached, Refined, Ahead, AllCodable, Finishes;
    PlanEnds(band, blocks, i, st.k);
    BandEnds(src, band, init, st);
  }

  /** From a symbol on to the end of the block. */
  lemma {:induction false} FromSymbol(src: Source, band: Band, init: State, st: State, books: Books,
                                      blocks: seq<Block>, i: nat, base: Block)
    returns (at: nat, block: seq<int>, e: nat)
    requires Reached(src, band, init, st) && st.phase.Symbols? && band.Valid() && i < |blocks| && Known(band, blocks[i], base)
    requires |books| == 1 && src.bits == books[0].bits && src.huffval == books[0].huffval
    requires band.ss <= st.k <= band.se + 1 && Refined(band, blocks[i], base, st.block, st.k)
    requires Ahead(books, src.stream, st.at, Plan(band, blocks, i, st.k)) && AllCodable(books, Plan(band, blocks, i, st.k))
    ensures RunAhead(band, blocks, i + 1, e)
    ensures Decoded(src, band, init, books, blocks[i], base, at, block, e, Blocks(band, blocks, i + 1, e))
    decreases 65 - st.k
  {
    hide Plan, HasNew, RunAhead, Decoded, OldCount, Reached, Refined, Known, OldBits, Finishes, Ahead, AllCodable, Zeros, NthZero, FirstNew, Blocks, Eob, Joins, Natural;
    var b, k := blocks[i], st.k;
    if k > band.se {
      EndOfBand(src, band, init, st, books, blocks, i, base);
      at, block, e := st.at, st.block, 0;
    } else {
      var t := FirstNew(band, b, k);
      if t > band.se {
        PlanIsEob(band, blocks, i, k);
        var n := Joins(band, blocks, 1, OldCount(band, b, k, band.se + 1), i + 1);
        var rest := Blocks(band, blocks, i + 1, n);
        var next := ReadsEob(src, band, init, st, books, 1 + n, OldBits(band, b, k, band.se + 1, rest));
        at, block := RestOfBlock(src, band, init, next, books, b, base, rest);
        e := n;
        JoinsAhead(band, blocks, 1, OldCount(band, b, k, band.se + 1), i + 1);
      } else if Zeros(band, b, k, t) > 15 {
        PlanIsZeros(band, blocks, i, k);
        var m := NthZero(band, b, k, 15, t);
        var next := SixteenZeros(src, band, init, st, books, b, base, t, Plan(band, blocks, i, m + 1));
        at, block, e := FromSymbol(src, band, init, next, books, blocks, i, base);
      } else {
        PlanIsNew(band, blocks, i, k);
        var next := NewCoef(src, band, init, st, books, b, base, t, Plan(band, blocks, i, t + 1));
        at, block, e := FromSymbol(src, band, init, next, books, blocks, i, base);
      }
    }
  }

  /** Decoding block `i` of the plan: whatever the block held outside the band, the band then
      holds one bit more of each coefficient, and the plan of the next block is ahead. */
  lemma DecodesBlock(src: Source, band: Band, books: Books, blocks: seq<Block>, i: nat, base: Block, e: nat, at: nat)
    returns (behind: nat, block: seq<int>, left: nat)
    requires band.Valid() && i < |blocks| && Known(band, blocks[i], base)
    requires |books| == 1 && src.bits == books[0].bits && src.huffval == books[0].huffval && src.Valid()
    requires RunAhead(band, blocks, i, e)
    requires Ahead(books, src.stream, at, Blocks(band, blocks, i, e)) && AllCodable(books, Blocks(band, blocks, i, e))
    ensures RunAhead(band, blocks, i + 1, left)
    ensures Decoded(src, band, Start(band, base, e, at), books, blocks[i], base, behind, block, left,
                    Blocks(band, blocks, i + 1, left))
  {
    var st := Start(band, base, e, at);
    ReachedAtOnce(src, band, st);
    assert Refined(band, blocks[i], base, st.block, st.k);
    hide Reached, Refined, Known, OldBits, Finishes, Ahead, AllCodable, FirstNew, Plan;
    if e > 0 {
      behind, block := RestOfBlock(src, band, st, st, books, blocks[i], base, Blocks(band, blocks, i + 1, e - 1));
      left := e - 1;
    } else {
      behind, block, left := FromSymbol(src, band, st, st, books, blocks, i, base);
    }
  }
}
