/** `encode_mcu_DC_first` and `encode_mcu_DC_refine` of jcphuff.c, when they write bits and
  when they gather statistics. */
module DcEncoder {
  import opened JpegLimits
  import opened Shifts
  import opened BitStrings
  import opened BitWriter
  import opened CodeEvents
  import opened HuffmanTables
  import opened PointTransform
  import opened AcRefineModel
  import opened AcRefineEncoder
  import opened AcFirstModel
  import opened AcFirstEncoder
  import opened EventTables
  import opened DcModel
  import opened Wrappers

  /** What a pass leads to: its bits, or the counts of each table; and whether all symbols
      have codes. */
  datatype Goal = Goal(bits: Sink, counts: seq<Sink>, fine: bool)

  /** The number of significant bits, found by shifting. */
  method CountBits(v: nat) returns (nbits: nat)
    ensures nbits == if v == 0 then 0 else BitLength(v)
  {
    hide Shl;
    var temp := v;
    nbits := 0;
    while temp != 0
      invariant temp >= 0
      invariant if v == 0 then temp == 0 && nbits == 0
                else Log2(v) + 1 == nbits + if temp == 0 then 0 else 1 + Log2(temp)
      decreases temp
    {
      nbits := nbits + 1;
      temp := temp / 2;
    }
  }

  lemma BitsAtMost(v: nat, n: nat)
    requires v > 0
    ensures BitLength(v) <= n <==> v < Shl(1, n)
  {
    hide Shl, Log2;
    ExponentOrder(BitLength(v) - 1, n);
    ExponentOrder(BitLength(v), n);
    if BitLength(v) > n { ExponentOrder(n, BitLength(v) - 1); }
  }

  lemma CountsHead(t: nat, sink: Sink, e: Event, rest: Events)
    ensures EmitAll([], sink, Only(t, Cons(e, rest)))
            == if e.Symbol? && e.tbl == t then EmitAll([], Emit([], sink, Symbol(0, e.s)), Only(t, rest))
               else EmitAll([], sink, Only(t, rest))
  {
  }

  lemma WritesHead(books: Books, sink: Sink, e: Event, rest: Events)
    ensures EmitAll(books, sink, Cons(e, rest)) == EmitAll(books, Emit(books, sink, e), rest)
    ensures AllCodable(books, Cons(e, rest)) <==> Codable(books, e) && AllCodable(books, rest)
  {
  }

  class PhuffDcEncoder {
    const writer: PhuffWriter
    const gather: bool
    const counts: seq<array<nat>>   // one for each table
    const codes: seq<EncoderTable>
    const layout: Layout
    const refining: bool            // such a pass needs no tables
    const lastDcVal: array<int>
    const restartInterval: nat
    var restartsToGo: nat
    var nextRestartNum: nat
    ghost const books: Books

    /** `start_pass_phuff`. */
    constructor (gatherStatistics: bool, refine: bool, tables: seq<EncoderTable>, l: Layout, interval: nat, ghost all: Books)
      requires l.Valid() && |tables| == NUM_HUFF_TBLS == |all|
      requires !gatherStatistics && !refine ==>
                 forall c | 0 <= c < |l.tables| :: all[l.tables[c]].Valid() && all[l.tables[c]].codes == tables[l.tables[c]]
      ensures Valid() && fresh(writer) && fresh(lastDcVal) && forall t | 0 <= t < NUM_HUFF_TBLS :: fresh(counts[t])
      ensures gather == gatherStatistics && refining == refine && codes == tables && layout == l && books == all
      ensures restartInterval == restartsToGo == interval && nextRestartNum == 0
      ensures writer.written == [] && writer.earlier == [] && Last() == Zero(l)
      ensures forall t | 0 <= t < NUM_HUFF_TBLS :: counts[t][..] == seq(257, _ => 0)
    {
      hide PhuffWriter.Valid, Book.Valid;
      writer := new PhuffWriter();
      var zero, one, two, three := new nat[257](_ => 0), new nat[257](_ => 0), new nat[257](_ => 0), new nat[257](_ => 0);
      gather, refining, codes, layout, books, counts := gatherStatistics, refine, tables, l, all, [zero, one, two, three];
      lastDcVal := new int[MAX_COMPS_IN_SCAN](_ => 0);
      restartInterval, restartsToGo, nextRestartNum := interval, interval, 0;
    }

    ghost predicate Fixed() {
      && layout.Valid() && lastDcVal.Length == MAX_COMPS_IN_SCAN && |counts| == |codes| == |books| == NUM_HUFF_TBLS
      && (forall t | 0 <= t < NUM_HUFF_TBLS :: counts[t].Length == 257 && counts[t] as object != lastDcVal as object)
      && (forall t, u | 0 <= t < u < NUM_HUFF_TBLS :: counts[t] != counts[u])
      && (!gather && !refining ==> forall c | 0 <= c < |layout.tables| ::
                        books[layout.tables[c]].Valid() && books[layout.tables[c]].codes == codes[layout.tables[c]])
    }

    ghost predicate Valid()
      reads writer
    {
      Fixed() && writer.Valid()
    }

    /** The previous value of each component. */
    ghost function Last(): (last: seq<int>)
      requires Fixed()
      reads lastDcVal
      ensures |last| == |layout.tables|
    {
      lastDcVal[..|layout.tables|]
    }

    /** Emitting the events leads to the goal. */
    ghost predicate Leads(events: Events, goal: Goal)
      requires Fixed()
      reads counts, writer`written
    {
      if gather then
        |goal.counts| == NUM_HUFF_TBLS
        && forall t | 0 <= t < NUM_HUFF_TBLS :: EmitAll([], Counts(counts[t][..]), Only(t, events)) == goal.counts[t]
      else EmitAll(books, Bits(writer.written), events) == goal.bits && (AllCodable(books, events) <==> goal.fine)
    }

    /** Everything that is written is flushed. */
    method EndSegment(ghost goal: Goal) returns (ghost d: seq<byte>)
      requires Valid() && Leads(Nil, goal)
      modifies writer
      ensures Valid()
      ensures !gather ==> goal.bits.Bits? && goal.fine && writer.output == old(writer.earlier) + Stuff(d)
                          && PaddedBytes(goal.bits.written, d)
      ensures !gather ==> writer.written == [] && writer.data == [] && writer.earlier == writer.output
      ensures gather ==> |goal.counts| == NUM_HUFF_TBLS && forall t | 0 <= t < NUM_HUFF_TBLS :: Counts(counts[t][..]) == goal.counts[t]
    {
      hide PhuffWriter.Valid, Stuff, PaddedBytes;
      NothingLeft(goal);
      d := [];
      if !gather { d := writer.FlushBits(); }
    }

    lemma NothingLeft(goal: Goal)
      requires Fixed() && Leads(Nil, goal)
      ensures gather ==> |goal.counts| == NUM_HUFF_TBLS && forall t | 0 <= t < NUM_HUFF_TBLS :: Counts(counts[t][..]) == goal.counts[t]
      ensures !gather ==> goal.bits == Bits(writer.written) && goal.fine
    {
    }

    /** `emit_restart`. */
    method EmitRestart(ghost goal: Goal) returns (ghost d: seq<byte>)
      requires Valid() && Leads(Nil, goal) && nextRestartNum < 8
      modifies lastDcVal, writer
      ensures Valid() && Last() == Zero(layout)
      ensures !gather ==> goal.bits.Bits? && goal.fine && PaddedBytes(goal.bits.written, d) && writer.written == []
      ensures !gather ==> writer.earlier == old(writer.earlier) + Stuff(d) + [0xFF, (RST0 + nextRestartNum) as byte]
      ensures gather ==> |goal.counts| == NUM_HUFF_TBLS && forall t | 0 <= t < NUM_HUFF_TBLS :: Counts(counts[t][..]) == goal.counts[t]
    {
      hide PhuffWriter.Valid, Stuff, PaddedBytes, Leads;
      d := EndSegment(goal);
      if !gather { writer.EmitMarker((RST0 + nextRestartNum) as byte); }
      ResetDc();
    }

    /** The predictions are 0 again. */
    method ResetDc()
      requires Fixed()
      modifies lastDcVal
      ensures Last() == Zero(layout)
    {
      for ci := 0 to |layout.tables|
        invariant forall c | 0 <= c < ci :: lastDcVal[c] == 0
      {
        lastDcVal[ci] := 0;
      }
    }

    /** The counters behind an MCU. */
    method CountMcu()
      modifies this`restartsToGo, this`nextRestartNum
      ensures restartsToGo == (if restartInterval == 0 then old(restartsToGo)
                               else (if old(restartsToGo) == 0 then restartInterval else old(restartsToGo)) - 1)
      ensures nextRestartNum == if restartInterval != 0 && old(restartsToGo) == 0 then (old(nextRestartNum) + 1) % 8
                                else old(nextRestartNum)
    {
      if restartInterval != 0 {
        if restartsToGo == 0 {
          restartsToGo := restartInterval;
          nextRestartNum := (nextRestartNum + 1) % 8;
        }
        restartsToGo := restartsToGo - 1;
      }
    }

    /** `emit_symbol`. */
    method EmitSymbol(c: nat, s: byte, ghost rest: Events, ghost goal: Goal) returns (ok: bool)
      requires Valid() && !refining && c < |layout.tables| && Leads(Cons(Symbol(layout.tables[c], s), rest), goal)
      modifies counts, writer`putBuffer, writer`putBits, writer`output, writer`data, writer`written
      ensures Valid()
      ensures if ok then Leads(rest, goal) else !gather && !goal.fine
    {
      hide PhuffWriter.Valid, AllCodable, EmitAll, BitsOf, Only;
      var tbl := layout.tables[c];
      if gather {
        ghost var before := seq(NUM_HUFF_TBLS, t requires 0 <= t < NUM_HUFF_TBLS reads counts => counts[t][..]);
        forall t | 0 <= t < NUM_HUFF_TBLS { CountsHead(t, Counts(counts[t][..]), Symbol(tbl, s), rest); }
        counts[tbl][s] := counts[tbl][s] + 1;
        assert forall t | 0 <= t < NUM_HUFF_TBLS && t != tbl :: counts[t][..] == before[t];
        assert counts[tbl][..] == before[tbl][s as int := before[tbl][s] + 1];
        ok := true;
      } else {
        WritesHead(books, Bits(writer.written), Symbol(tbl, s), rest);
        SymbolSize(books[tbl], s);
        ok := writer.EmitBits(codes[tbl].ehufco[s], codes[tbl].ehufsi[s]);
      }
    }

    /** `emit_bits`, for bits that are always there. */
    method EmitRaw(code: nat, n: nat, ghost v: nat, ghost rest: Events, ghost goal: Goal)
      requires Valid() && 0 < n <= 16 && v == LowBits(code, n) && Leads(Cons(Raw(v, n), rest), goal)
      modifies writer`putBuffer, writer`putBits, writer`output, writer`data, writer`written
      ensures Valid() && Leads(rest, goal)
    {
      hide PhuffWriter.Valid, AllCodable, EmitAll, BitsOf, Only;
      if gather {
        forall t | 0 <= t < NUM_HUFF_TBLS { CountsHead(t, Counts(counts[t][..]), Raw(v, n), rest); }
      } else {
        WritesHead(books, Bits(writer.written), Raw(v, n), rest);
        var ok := writer.EmitBits(code, n);
      }
    }

    /** The difference from the previous value of the component. */
    method EmitDifference(c: nat, diff: int, ghost rest: Events, ghost goal: Goal) returns (ok: bool)
      requires Valid() && !refining && c < |layout.tables| && Leads(Difference(layout.tables[c], diff, rest), goal)
      modifies counts, writer`putBuffer, writer`putBits, writer`output, writer`data, writer`written
      ensures Valid()
      ensures if ok then Abs(diff) < Shl(1, MAX_COEF_BITS + 1) && Leads(rest, goal)
              else Abs(diff) >= Shl(1, MAX_COEF_BITS + 1) || (!gather && !goal.fine)
    {
      hide Leads, Fixed, PhuffWriter.Valid, Shl, LowBits, SignedBits, Log2;
      var negative, temp := diff < 0, if diff < 0 then -diff else diff;
      var nbits := CountBits(temp);
      DifferenceIs(layout.tables[c], diff, nbits, rest);
      if nbits > MAX_COEF_BITS + 1 {
        return false;
      }
      ghost var bits := if nbits > 0 then Cons(Raw(SignedBits(negative, temp, nbits), nbits), rest) else rest;
      ok := EmitSymbol(c, nbits as byte, bits, goal);
      if !ok { return; }
      if nbits != 0 {
        var temp2 := if negative then 0xFFFF_FFFF - temp else temp;
        BitsSent(negative, temp, nbits);
        EmitRaw(temp2, nbits, SignedBits(negative, temp, nbits), rest, goal);
      }
    }

    /** Block `j` of MCU `i` of a first scan. */
    method EncodeFirstBlock(j: nat, value: int, ghost mcus: seq<seq<int>>, ghost i: nat, ghost goal: Goal, ghost all: bool)
      returns (ok: bool)
      requires Valid() && !refining && Laid(layout, mcus) && i < |mcus| && j < |layout.members| && value == mcus[i][j]
      requires Leads(DcPlan(layout, mcus, i, j, Last()), goal) && all == InRange(layout, mcus, i, j, Last())
      modifies counts, lastDcVal, writer`putBuffer, writer`putBits, writer`output, writer`data, writer`written
      ensures Valid()
      ensures if ok then Leads(DcPlan(layout, mcus, i, j + 1, Last()), goal) && all == InRange(layout, mcus, i, j + 1, Last())
              else !all || (!gather && !goal.fine)
    {
      hide Leads, PhuffWriter.Valid, Difference, DcPlan, InRange, Shl, ShrInt;
      ghost var last := Last();
      PlanBlock(layout, mcus, i, j, last);
      var c := layout.members[j];
      var temp2 := ShrInt(value, layout.al);
      var temp := temp2 - lastDcVal[c];
      lastDcVal[c] := temp2;
      assert Last() == last[c := temp2];
      ok := EmitDifference(c, temp, DcPlan(layout, mcus, i, j + 1, Last()), goal);
    }

    /** `encode_mcu_DC_first`.  False when a symbol has no code or a difference is out of
        range. */
    method EncodeFirstMcu(values: seq<int>, ghost mcus: seq<seq<int>>, ghost i: nat, ghost goal: Goal, ghost all: bool)
      returns (ok: bool)
      requires Valid() && !refining && Laid(layout, mcus) && i < |mcus| && values == mcus[i]
      requires Leads(DcPlan(layout, mcus, i, 0, Last()), goal) && all == InRange(layout, mcus, i, 0, Last())
      modifies counts, lastDcVal, writer`putBuffer, writer`putBits, writer`output, writer`data, writer`written
      ensures Valid()
      ensures if ok then Leads(DcPlan(layout, mcus, i + 1, 0, Last()), goal) && all == InRange(layout, mcus, i + 1, 0, Last())
              else !all || (!gather && !goal.fine)
    {
      hide Leads, PhuffWriter.Valid, DcPlan, InRange;
      ok := true;
      for blkn := 0 to |layout.members|
        invariant Valid()
        invariant Leads(DcPlan(layout, mcus, i, blkn, Last()), goal) && all == InRange(layout, mcus, i, blkn, Last())
      {
        ok := EncodeFirstBlock(blkn, values[blkn], mcus, i, goal, all);
        if !ok { return; }
      }
      PlanMcu(layout, mcus, i, Last());
    }

    /** `encode_mcu_DC_refine`: the bit at `al` of each DC coefficient. */
    method EncodeRefineMcu(values: seq<int>, ghost rest: Events, ghost goal: Goal)
      requires Valid() && Leads(Append(BitPlan(layout.al, values, 0), rest), goal)
      modifies writer`putBuffer, writer`putBits, writer`output, writer`data, writer`written
      ensures Valid() && Leads(rest, goal)
    {
      hide Leads, PhuffWriter.Valid, LowBits;
      for blkn := 0 to |values|
        invariant Valid() && Leads(Append(BitPlan(layout.al, values, blkn), rest), goal)
      {
        var temp := ShrInt(values[blkn], layout.al) % 0x1_0000_0000;
        LowestBit(values[blkn], layout.al);
        EmitRaw(temp, 1, if BitSet(values[blkn], layout.al) then 1 else 0, Append(BitPlan(layout.al, values, blkn + 1), rest), goal);
      }
    }
  }

  lemma LowestBit(v: int, al: nat)
    ensures LowBits(ShrInt(v, al) % 0x1_0000_0000, 1) == if BitSet(v, al) then 1 else 0
  {
    hide ShrInt, LowBits;
    WordParity(ShrInt(v, al));
    BitOfWord(ShrInt(v, al) % 0x1_0000_0000);
  }

  lemma WordParity(s: int)
    ensures s % 0x1_0000_0000 % 2 == s % 2
  {
    assert s == 2 * (0x8000_0000 * (s / 0x1_0000_0000)) + s % 0x1_0000_0000;
  }

  lemma BitOfWord(w: nat)
    ensures LowBits(w, 1) == w % 2
  {
    assert LowBits(w, 1) == 2 * LowBits(w / 2, 0) + w % 2;
  }

  lemma DifferenceIs(tbl: nat, diff: int, n: nat, rest: Events)
    requires n == if diff == 0 then 0 else BitLength(Abs(diff))
    ensures n <= MAX_COEF_BITS + 1 <==> Abs(diff) < Shl(1, MAX_COEF_BITS + 1)
    ensures n < 256 ==>
              Difference(tbl, diff, rest)
              == Cons(Symbol(tbl, n as byte),
                      if n > 0 then Cons(Raw(SignedBits(diff < 0, Abs(diff), n), n), rest) else rest)
  {
    hide Shl, Log2, SignedBits;
    if diff != 0 { BitsAtMost(Abs(diff), MAX_COEF_BITS + 1); } else { ShlPositive(MAX_COEF_BITS + 1); }
  }
}
