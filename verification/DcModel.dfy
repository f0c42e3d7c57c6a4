/** The symbols and bits that stand for the DC coefficients of a progressive scan (section
  G.1.2.1 of ITU-T T.81). */
module DcModel {
  import opened JpegLimits
  import opened Shifts
  import opened CodeEvents
  import opened PointTransform
  import opened AcRefineModel
  import opened AcFirstModel
  import opened EventTables
  import opened Wrappers

  // ------------------------------------------------------- the point transform

  function ShlInt(v: int, k: nat): int {
    if k == 0 then v else 2 * ShlInt(v, k - 1)
  }

  /** A DC coefficient without its `al` lowest bits: an arithmetic shift. */
  function DcPoint(v: int, al: nat): int {
    ShlInt(ShrInt(v, al), al)
  }

  /** `c |= 1 << k` in two's complement. */
  function SetBit(c: int, k: nat): int {
    if BitSet(c, k) then c else c + Shl(1, k)
  }

  lemma {:induction false} ShlIntShifts(m: int, k: nat)
    ensures ShrInt(ShlInt(m, k), k) == m
    decreases k
  {
    if k > 0 {
      ShlIntShifts(m, k - 1);
      ShrDouble(ShlInt(m, k - 1), k - 1);
    }
  }

  lemma {:induction false} ShrDouble(v: int, k: nat)
    ensures ShrInt(2 * v, k + 1) == ShrInt(v, k)
    decreases k
  {
    if k > 0 { ShrDouble(v, k - 1); }
  }

  lemma {:induction false} ShlIntAdds(m: int, k: nat)
    ensures ShlInt(m + 1, k) == ShlInt(m, k) + Shl(1, k)
    ensures ShlInt(2 * m, k) == ShlInt(m, k + 1)
    decreases k
  {
    if k > 0 { ShlIntAdds(m, k - 1); }
  }

  /** One bit more, for either sign: setting the bit when it is 1 gives the next
      approximation, however often it is done. */
  lemma DcPointRefines(v: int, al: nat)
    ensures var one, coarse, fine := BitSet(v, al), DcPoint(v, al + 1), DcPoint(v, al);
            && (if one then SetBit(coarse, al) else coarse) == fine
            && (if one then SetBit(fine, al) else fine) == fine
  {
    var h := ShrInt(v, al);
    var m := h / 2;
    assert ShrInt(v, al + 1) == m;
    ShlIntAdds(m, al);
    ShlIntAdds(2 * m, al);
    ShlIntShifts(2 * m, al);
    ShlIntShifts(h, al);
  }

  lemma DcPointAll(v: int)
    ensures DcPoint(v, 0) == v && Point(v, 0) == v
  {
  }

  // ------------------------------------------------------------ the first scan

  /** The blocks of an MCU: the component that each belongs to, and the table of each
      component. */
  datatype Layout = Layout(members: seq<nat>, tables: seq<nat>, al: nat) {
    predicate Valid() {
      && 1 <= |members| <= MAX_BLOCKS_IN_MCU && 1 <= |tables| <= MAX_COMPS_IN_SCAN
      && (forall j | 0 <= j < |members| :: members[j] < |tables|)
      && (forall c | 0 <= c < |tables| :: tables[c] < NUM_HUFF_TBLS)
    }
  }

  /** The DC coefficients of the MCUs, which all have the same layout. */
  predicate Laid(l: Layout, mcus: seq<seq<int>>) {
    l.Valid() && forall i | 0 <= i < |mcus| :: |mcus[i]| == |l.members|
  }

  /** How a difference is sent. */
  function Difference(tbl: nat, diff: int, rest: Events): Events {
    if diff == 0 then Cons(Symbol(tbl, 0), rest)
    else
      var n := BitLength(Abs(diff));
      Cons(Symbol(tbl, (n % 256) as byte), Cons(Raw(SignedBits(diff < 0, Abs(diff), n), n), rest))
  }

  /** What stands for the blocks from block `j` of MCU `i` on; `last` holds the previous
      value of each component. */
  function DcPlan(l: Layout, mcus: seq<seq<int>>, i: nat, j: nat, last: seq<int>): Events
    requires Laid(l, mcus) && i <= |mcus| && j <= |l.members| && |last| == |l.tables|
    decreases |mcus| - i, |l.members| - j
  {
    if i == |mcus| then Nil
    else if j == |l.members| then DcPlan(l, mcus, i + 1, 0, last)
    else
      var c, v := l.members[j], ShrInt(mcus[i][j], l.al);
      Difference(l.tables[c], v - last[c], DcPlan(l, mcus, i, j + 1, last[c := v]))
  }

  /** No difference from there on has more than 11 bits. */
  predicate InRange(l: Layout, mcus: seq<seq<int>>, i: nat, j: nat, last: seq<int>)
    requires Laid(l, mcus) && i <= |mcus| && j <= |l.members| && |last| == |l.tables|
    decreases |mcus| - i, |l.members| - j
  {
    if i == |mcus| then true
    else if j == |l.members| then InRange(l, mcus, i + 1, 0, last)
    else
      var c, v := l.members[j], ShrInt(mcus[i][j], l.al);
      Abs(v - last[c]) < Shl(1, MAX_COEF_BITS + 1) && InRange(l, mcus, i, j + 1, last[c := v])
  }

  function Zero(l: Layout): (last: seq<int>)
    ensures |last| == |l.tables|
  {
    seq(|l.tables|, _ => 0)
  }

  function DcEvents(l: Layout, mcus: seq<seq<int>>): Events
    requires Laid(l, mcus)
  {
    DcPlan(l, mcus, 0, 0, Zero(l))
  }

  predicate DcInRange(l: Layout, mcus: seq<seq<int>>)
    requires Laid(l, mcus)
  {
    InRange(l, mcus, 0, 0, Zero(l))
  }

  lemma PlanBlock(l: Layout, mcus: seq<seq<int>>, i: nat, j: nat, last: seq<int>)
    requires Laid(l, mcus) && i < |mcus| && j < |l.members| && |last| == |l.tables|
    ensures var c, v := l.members[j], ShrInt(mcus[i][j], l.al);
            && DcPlan(l, mcus, i, j, last) == Difference(l.tables[c], v - last[c], DcPlan(l, mcus, i, j + 1, last[c := v]))
            && (InRange(l, mcus, i, j, last)
                <==> Abs(v - last[c]) < Shl(1, MAX_COEF_BITS + 1) && InRange(l, mcus, i, j + 1, last[c := v]))
  {
    hide Difference, Shl, ShrInt;
  }

  lemma PlanMcu(l: Layout, mcus: seq<seq<int>>, i: nat, last: seq<int>)
    requires Laid(l, mcus) && i < |mcus| && |last| == |l.tables|
    ensures DcPlan(l, mcus, i, |l.members|, last) == DcPlan(l, mcus, i + 1, 0, last)
    ensures InRange(l, mcus, i, |l.members|, last) <==> InRange(l, mcus, i + 1, 0, last)
  {
    hide Difference, Shl, ShrInt;
  }

  lemma PlanDone(l: Layout, mcus: seq<seq<int>>, last: seq<int>)
    requires Laid(l, mcus) && |last| == |l.tables|
    ensures DcPlan(l, mcus, |mcus|, 0, last) == Nil && InRange(l, mcus, |mcus|, 0, last)
  {
  }

  // ------------------------------------------------------- the refinement scans

  /** One bit for each block. */
  function BitPlan(al: nat, values: seq<int>, j: nat): Events
    requires j <= |values|
    decreases |values| - j
  {
    if j == |values| then Nil
    else Cons(Raw(if BitSet(values[j], al) then 1 else 0, 1), BitPlan(al, values, j + 1))
  }

  // -------------------------------------------------------- events by table

  /** Symbols of these tables, for at most 11 bits, and bits that fit. */
  ghost predicate Plain(events: Events, tables: nat) {
    match events
    case Nil => true
    case Cons(Symbol(tbl, s), rest) => tbl < tables && s <= 11 && Plain(rest, tables)
    case Cons(Raw(v, n), rest) => 0 < n <= 16 && v < Shl(1, n) && Plain(rest, tables)
  }

  lemma {:induction false} OnlyShaped(t: nat, events: Events)
    requires Plain(events, NUM_HUFF_TBLS)
    ensures Shaped(Only(t, events), 11)
    ensures forall s: byte | Occurs(s, Only(t, events)) :: s <= 11
    decreases events
  {
    hide Shl;
    if events.Cons? { OnlyShaped(t, events.tail); }
  }

  lemma {:induction false} PlainTabled(events: Events, n: nat)
    requires Plain(events, n)
    ensures Tabled(events, n)
    decreases events
  {
    hide Shl;
    if events.Cons? { PlainTabled(events.tail, n); }
  }

  lemma DifferencePlain(tbl: nat, diff: int, rest: Events)
    requires tbl < NUM_HUFF_TBLS && Abs(diff) < Shl(1, MAX_COEF_BITS + 1) && Plain(rest, NUM_HUFF_TBLS)
    ensures Plain(Difference(tbl, diff, rest), NUM_HUFF_TBLS)
  {
    if diff != 0 {
      var n := BitLength(Abs(diff));
      hide Shl, Log2;
      ExponentOrder(n - 1, MAX_COEF_BITS + 1);
    }
  }

  lemma {:induction false} PlanPlain(l: Layout, mcus: seq<seq<int>>, i: nat, j: nat, last: seq<int>)
    requires Laid(l, mcus) && i <= |mcus| && j <= |l.members| && |last| == |l.tables| && InRange(l, mcus, i, j, last)
    ensures Plain(DcPlan(l, mcus, i, j, last), NUM_HUFF_TBLS)
    decreases |mcus| - i, |l.members| - j
  {
    hide Difference, Plain, Shl, ShrInt, DcPlan, InRange;
    if i == |mcus| {
      PlanNothing(l, mcus, j, last);
    } else if j == |l.members| {
      PlanMcu(l, mcus, i, last);
      PlanPlain(l, mcus, i + 1, 0, last);
    } else {
      var c, v := l.members[j], ShrInt(mcus[i][j], l.al);
      PlanBlock(l, mcus, i, j, last);
      PlanPlain(l, mcus, i, j + 1, last[c := v]);
      DifferencePlain(l.tables[c], v - last[c], DcPlan(l, mcus, i, j + 1, last[c := v]));
    }
  }

  lemma PlanNothing(l: Layout, mcus: seq<seq<int>>, j: nat, last: seq<int>)
    requires Laid(l, mcus) && j <= |l.members| && |last| == |l.tables|
    ensures Plain(DcPlan(l, mcus, |mcus|, j, last), NUM_HUFF_TBLS)
  {
  }

  /** In a scan with at least one MCU, the table of every block of the layout is used. */
  lemma {:induction false} TableUsed(l: Layout, mcus: seq<seq<int>>, i: nat, j: nat, last: seq<int>, k: nat)
    requires Laid(l, mcus) && i < |mcus| && j <= k < |l.members| && |last| == |l.tables|
    ensures Appears(l.tables[l.members[k]], DcPlan(l, mcus, i, j, last))
    decreases k - j
  {
    hide ShrInt, DcPlan;
    var c, v := l.members[j], ShrInt(mcus[i][j], l.al);
    PlanBlock(l, mcus, i, j, last);
    if j < k { TableUsed(l, mcus, i, j + 1, last[c := v], k); }
  }

  lemma {:induction false} OnlyUsed(l: Layout, mcus: seq<seq<int>>, i: nat, j: nat, last: seq<int>, t: nat)
    requires Laid(l, mcus) && i <= |mcus| && j <= |l.members| && |last| == |l.tables|
    requires Appears(t, DcPlan(l, mcus, i, j, last))
    ensures exists k | 0 <= k < |l.members| :: l.tables[l.members[k]] == t
    decreases |mcus| - i, |l.members| - j
  {
    hide ShrInt, DcPlan;
    if i == |mcus| {
      assert DcPlan(l, mcus, i, j, last) == Nil by { PlanEmpty(l, mcus, j, last); }
    } else if j == |l.members| {
      PlanMcu(l, mcus, i, last);
      OnlyUsed(l, mcus, i + 1, 0, last, t);
    } else {
      var c, v := l.members[j], ShrInt(mcus[i][j], l.al);
      PlanBlock(l, mcus, i, j, last);
      if l.tables[c] != t { OnlyUsed(l, mcus, i, j + 1, last[c := v], t); }
    }
  }

  lemma PlanEmpty(l: Layout, mcus: seq<seq<int>>, j: nat, last: seq<int>)
    requires Laid(l, mcus) && j <= |l.members| && |last| == |l.tables|
    ensures DcPlan(l, mcus, |mcus|, j, last) == Nil
  {
  }
}
