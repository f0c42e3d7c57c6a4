/** The context-row controller, `process_data_context_main` of jdmainct.c: every row group is
  delivered once, in order, with the right neighbours. */
module ContextRows {
  import opened ContextPointers

  datatype Phase = PrepareForImcu | ProcessImcu | PostponedRow

  // ------------------------------------------------------------- what is right

  /** The image row at row `r` of a component: rows outside the image are copies of the first
      or the last. */
  function ImageRow(d: Dim, r: int): int {
    if r < 0 then 0 else if r < d.height then r else d.height - 1
  }

  /** The row that a list shows there: the same.  Only in a row group shown before the last iMCU
      row has been looked at (`early`) are rows behind the last taken as they come. */
  function Visible(d: Dim, early: bool, r: int): int {
    if early && r >= d.height then r else ImageRow(d, r)
  }

  /** A row group with one row group above and below, the first row being number `r`. */
  function Expected(d: Dim, early: bool, r: int): seq<int>
  {
    seq(3 * d.rgroup, i => Visible(d, early, r + i))
  }

  /** What a list shows around place `x`. */
  function View(d: Dim, s: State, w: nat, x: int): seq<int>
    requires WellFormed(d, s) && 0 <= x <= d.imcu + d.rgroup
  {
    seq(3 * d.rgroup, i requires 0 <= i < 3 * d.rgroup => Shows(d, s, w, x - d.rgroup + i))
  }

  /** A row group of an iMCU row that is not the last. */
  lemma ViewMiddle(d: Dim, s: State, w: nat, k: nat, first: int, x: nat)
    requires w <= 1 && WellFormed(d, s) && Listed(d, s, k) && Loaded(d, s, w, first, d.imcu) && x + 2 * d.rgroup <= d.imcu
    requires if k == 0 then w == 0 && first == 0 else first >= d.imcu && Kept(d, s, w, first)
    requires first + d.imcu <= d.height
    ensures View(d, s, w, x) == Expected(d, false, first + x - d.rgroup)
  {
    hide Shows, Listed, Loaded, Kept;
    var view, goal := View(d, s, w, x), Expected(d, false, first + x - d.rgroup);
    forall i | 0 <= i < 3 * d.rgroup ensures view[i] == goal[i]
    {
      assert view[i] == Shows(d, s, w, x - d.rgroup + i);
      assert goal[i] == Visible(d, false, first + x - d.rgroup + i);
      if k == 0 { ShowsTop(d, s, x - d.rgroup + i); } else { ShowsNormal(d, s, w, k, first, x - d.rgroup + i); }
    }
  }

  /** The row group that was postponed until the next iMCU row had been read. */
  lemma ViewPostponed(d: Dim, s: State, w: nat, k: nat, first: int, last: bool)
    requires w <= 1 && k > 0 && WellFormed(d, s) && Listed(d, s, k) && Loaded(d, s, w, first, d.imcu) && Kept(d, s, w, first)
    requires first >= d.imcu && (if last then first < d.height else first + d.imcu <= d.height)
    ensures View(d, s, w, d.imcu + d.rgroup) == Expected(d, last, first - 2 * d.rgroup)
  {
    hide Shows, Listed, Loaded, Kept;
    var view, goal := View(d, s, w, d.imcu + d.rgroup), Expected(d, last, first - 2 * d.rgroup);
    forall i | 0 <= i < 3 * d.rgroup ensures view[i] == goal[i]
    {
      assert view[i] == Shows(d, s, w, d.imcu + i);
      assert goal[i] == Visible(d, last, first - 2 * d.rgroup + i);
      ShowsNormal(d, s, w, k, first, d.imcu + i);
    }
  }

  /** A row group of the last iMCU row, once the list has been changed for the bottom. */
  lemma ViewLast(d: Dim, was: State, s: State, w: nat, k: nat, first: int, x: nat)
    requires w <= 1 && WellFormed(d, was) && WellFormed(d, s) && Listed(d, was, k) && Loaded(d, was, w, first, d.imcu)
    requires if k == 0 then w == 0 && first == 0 else first >= d.imcu && Kept(d, was, w, first)
    requires d.Valid() && first + RowsLeft(d) == d.height && Repeated(d, was, s, w, RowsLeft(d)) && x < RowsLeft(d)
    ensures View(d, s, w, x) == Expected(d, false, first + x - d.rgroup)
  {
    hide Shows, Listed, Loaded, Kept, Repeated, RowsLeft;
    var left := RowsLeft(d);
    var view, goal := View(d, s, w, x), Expected(d, false, first + x - d.rgroup);
    forall i | 0 <= i < 3 * d.rgroup ensures view[i] == goal[i]
    {
      var y := x - d.rgroup + i;
      assert view[i] == Shows(d, s, w, y);
      assert goal[i] == Visible(d, false, first + y);
      ShowsBottom(d, was, s, w, left, y);
      var z := if y < left then y else left - 1;
      if k == 0 { ShowsTop(d, was, z); } else { ShowsNormal(d, was, w, k, first, z); }
    }
  }

  // ------------------------------------------------------------ the controller

  /** The sizes fit together: every iMCU row but the last is full, and the components agree on
      the number of row groups in the last. */
  ghost predicate Sized(d: Dim, m: nat, total: nat, lastGroups: nat) {
    && d.Valid() && m >= 2 && total >= 1 && 1 <= lastGroups <= m && d.imcu == m * d.rgroup
    && d.height == (total - 1) * d.imcu + RowsLeft(d)
    && (lastGroups - 1) * d.rgroup < RowsLeft(d) <= lastGroups * d.rgroup
  }

  /** What happens outside in one call: whether the iMCU row could be decoded, or how many
      rows of it before the input ran out; how many row groups the postprocessor takes each
      time it is called, and whether that fills the output buffer. */
  datatype Pace = Pace(decoded: bool, partly: nat, first: nat, filled: bool, second: nat)

  ghost predicate Apart(a: ComponentRows, b: ComponentRows) {
    {a.buffer as object, a.xbuffer0, a.xbuffer1} !! {b.buffer as object, b.xbuffer0, b.xbuffer1}
  }

  /** iMCU row `k` has been read, through list `w`. */
  ghost predicate Ready(d: Dim, s: State, w: nat, k: nat) {
    Listed(d, s, k) && Loaded(d, s, w, k * d.imcu, d.imcu) && (k > 0 ==> Kept(d, s, w, k * d.imcu))
  }

  /** Between two iMCU rows: row `k` is to be read through list `w`. */
  ghost predicate Between(d: Dim, s: State, w: nat, k: nat) {
    Listed(d, s, k) && (k > 0 ==> Kept(d, s, w, k * d.imcu))
  }

  /** The list at row group `g` shows what row group `n` of the image needs. */
  ghost predicate Right(d: Dim, s: State, w: nat, g: nat, early: bool, n: nat) {
    && WellFormed(d, s) && g * d.rgroup <= d.imcu + d.rgroup
    && View(d, s, w, g * d.rgroup) == Expected(d, early, n * d.rgroup - d.rgroup)
  }

  lemma GroupRows(k: nat, m: nat, g: nat, d: Dim)
    requires d.imcu == m * d.rgroup
    ensures (k * m + g) * d.rgroup == k * d.imcu + g * d.rgroup
  {
    assert (k * m) * d.rgroup == k * (m * d.rgroup);
  }

  lemma Monotone(a: int, b: int, c: nat)
    requires a <= b
    ensures a * c <= b * c
  {
  }

  lemma MiddleSizes(d: Dim, m: nat, total: nat, lastGroups: nat, k: nat, g: nat)
    requires Sized(d, m, total, lastGroups) && k + 1 < total && g + 1 < m
    ensures g * d.rgroup + 2 * d.rgroup <= d.imcu && k * d.imcu + d.imcu <= d.height
    ensures k > 0 ==> k * d.imcu >= d.imcu
    ensures (k * m + g) * d.rgroup == k * d.imcu + g * d.rgroup
  {
    hide RowsLeft;
    GroupRows(k, m, g, d);
    Monotone(g + 2, m, d.rgroup);
    assert (g + 2) * d.rgroup == g * d.rgroup + 2 * d.rgroup;
    Monotone(k + 1, total - 1, d.imcu);
    assert (k + 1) * d.imcu == k * d.imcu + d.imcu;
    if k > 0 { Monotone(1, k, d.imcu); }
    LeftBounds(d);
  }

  lemma RightMiddle(d: Dim, s: State, m: nat, total: nat, lastGroups: nat, k: nat, g: nat)
    requires Sized(d, m, total, lastGroups) && k + 1 < total && g + 1 < m && Ready(d, s, k % 2, k)
    ensures Right(d, s, k % 2, g, false, k * m + g)
  {
    MiddleSizes(d, m, total, lastGroups, k, g);
    var first, x := k * d.imcu, g * d.rgroup;
    ReadyShape(d, s, k % 2, k);
    hide View, Expected, Listed, Loaded, Kept, RowsLeft, Sized;
    ViewMiddle(d, s, k % 2, k, first, x);
  }

  lemma ReadyShape(d: Dim, s: State, w: nat, k: nat)
    requires Ready(d, s, w, k)
    ensures WellFormed(d, s)
  {
  }

  lemma PostponedSizes(d: Dim, m: nat, total: nat, lastGroups: nat, k: nat)
    requires Sized(d, m, total, lastGroups) && 0 < k < total
    ensures k * m >= 1 && k * d.imcu >= d.imcu && (m + 1) * d.rgroup == d.imcu + d.rgroup
    ensures if k + 1 == total then k * d.imcu < d.height else k * d.imcu + d.imcu <= d.height
    ensures (k * m - 1) * d.rgroup == k * d.imcu - d.rgroup
  {
    hide RowsLeft;
    Monotone(1, k, m);
    Monotone(1, k, d.imcu);
    if k + 1 < total { Monotone(k + 1, total - 1, d.imcu); }
    GroupRows(k - 1, m, m - 1, d);
    assert (k - 1) * m + (m - 1) == k * m - 1;
    assert (m - 1) * d.rgroup == d.imcu - d.rgroup && (k - 1) * d.imcu == k * d.imcu - d.imcu;
    LeftBounds(d);
  }

  lemma RightPostponed(d: Dim, s: State, m: nat, total: nat, lastGroups: nat, k: nat)
    requires Sized(d, m, total, lastGroups) && 0 < k < total && Ready(d, s, k % 2, k)
    ensures k * m >= 1 && Right(d, s, k % 2, m + 1, k + 1 == total, k * m - 1)
  {
    PostponedSizes(d, m, total, lastGroups, k);
    ReadyShape(d, s, k % 2, k);
    hide View, Expected, Listed, Loaded, Kept, RowsLeft, Sized;
    ViewPostponed(d, s, k % 2, k, k * d.imcu, k + 1 == total);
  }

  lemma LeftBounds(d: Dim)
    requires d.Valid()
    ensures 1 <= RowsLeft(d) <= d.imcu
  {
  }

  lemma LastSizes(d: Dim, m: nat, total: nat, lastGroups: nat, g: nat)
    requires Sized(d, m, total, lastGroups) && g < lastGroups
    ensures g * d.rgroup < RowsLeft(d) && (total - 1) * d.imcu + RowsLeft(d) == d.height
    ensures total > 1 ==> (total - 1) * d.imcu >= d.imcu
    ensures (total - 1) * d.imcu >= 0
    ensures ((total - 1) * m + g) * d.rgroup == (total - 1) * d.imcu + g * d.rgroup && (total - 1) * m + g >= 0
  {
    hide RowsLeft;
    GroupRows(total - 1, m, g, d);
    Monotone(g, lastGroups - 1, d.rgroup);
    Monotone(0, total - 1, d.imcu);
    Monotone(0, total - 1, m);
    if total > 1 { Monotone(1, total - 1, d.imcu); }
  }

  lemma RightLast(d: Dim, was: State, s: State, m: nat, total: nat, lastGroups: nat, g: nat, w: nat, k: nat, n: nat)
    requires Sized(d, m, total, lastGroups) && g < lastGroups && k + 1 == total && w == k % 2 && n == k * m + g
    requires Ready(d, was, w, k) && Repeated(d, was, s, w, RowsLeft(d))
    ensures Right(d, s, w, g, false, n)
  {
    LastSizes(d, m, total, lastGroups, g);
    ReadyShape(d, was, w, k);
    RepeatedShape(d, was, s, w);
    LeftBounds(d);
    hide View, Expected, Listed, Loaded, Kept, RowsLeft, Sized, Repeated;
    ViewLast(d, was, s, w, k, k * d.imcu, g * d.rgroup);
  }

  lemma RepeatedShape(d: Dim, was: State, s: State, w: nat)
    requires d.Valid() && Repeated(d, was, s, w, RowsLeft(d))
    ensures WellFormed(d, s)
  {
  }

  /** The number of row groups counted from the rows of a component. */
  lemma LastGroups(d: Dim, m: nat, total: nat, lastGroups: nat)
    requires Sized(d, m, total, lastGroups)
    ensures (RowsLeft(d) - 1) / d.rgroup + 1 == lastGroups
  {
    hide RowsLeft;
    DivUnique(RowsLeft(d) - 1, d.rgroup, lastGroups - 1);
  }

  lemma DivUnique(a: nat, b: nat, q: nat)
    requires b > 0 && q * b <= a < q * b + b
    ensures a / b == q
  {
    var e := a / b;
    assert a == e * b + a % b;
    if e < q { Monotone(e + 1, q, b); } else if q < e { Monotone(q + 1, e, b); }
  }

  class ContextController {
    const m: nat                    // row groups in an iMCU row
    const totalImcuRows: nat
    const components: seq<ComponentRows>
    ghost const lastGroups: nat     // row groups in the last iMCU row
    var bufferFull: bool
    var rowgroupCtr: nat
    var whichptr: nat
    var contextState: Phase
    var rowgroupsAvail: nat
    var imcuRowCtr: nat
    ghost var delivered: seq<seq<seq<int>>>   // for each row group, what each component showed
    ghost var before: seq<State>              // the state before the change for the bottom

    ghost function Arrays(): set<object> {
      (set c | c in components :: c.buffer as object) + (set c | c in components :: c.xbuffer0 as object)
      + (set c | c in components :: c.xbuffer1 as object)
    }

    ghost predicate Fixed() {
      && |components| >= 1
      && (forall j | 0 <= j < |components| ::
            components[j].Allocated() && Sized(components[j].dim, m, totalImcuRows, lastGroups))
      && forall i, j | 0 <= i < j < |components| :: Apart(components[i], components[j])
    }

    constructor (rowGroups: nat, total: nat, comps: seq<ComponentRows>, ghost groups: nat)
      requires |comps| >= 1
      requires forall j | 0 <= j < |comps| ::
                 comps[j].Allocated() && WellFormed(comps[j].dim, comps[j].Now()) && Sized(comps[j].dim, rowGroups, total, groups)
      requires forall i, j | 0 <= i < j < |comps| :: Apart(comps[i], comps[j])
      ensures Fixed() && m == rowGroups && totalImcuRows == total && components == comps && lastGroups == groups
      ensures forall j: nat | j < |components| :: WellFormed(components[j].dim, StateOf(j))
      ensures AtStart() && delivered == []
    {
      m, totalImcuRows, components, lastGroups := rowGroups, total, comps, groups;
      bufferFull, rowgroupCtr, whichptr, contextState, rowgroupsAvail, imcuRowCtr := false, 0, 0, PrepareForImcu, 0, 0;
      delivered, before := [], [];
    }

    /** Nothing has been read. */
    ghost predicate AtStart()
      reads this`bufferFull, this`rowgroupCtr, this`whichptr, this`contextState, this`rowgroupsAvail, this`imcuRowCtr
    {
      !bufferFull && rowgroupCtr == whichptr == rowgroupsAvail == imcuRowCtr == 0 && contextState == PrepareForImcu
    }

    /** `start_pass_main`. */
    method StartPass()
      requires Fixed() && forall j: nat | j < |components| :: WellFormed(components[j].dim, StateOf(j))
      modifies this, Arrays()
      ensures Valid() && !Done() && delivered == [] && !bufferFull && rowgroupCtr == whichptr == imcuRowCtr == 0
      ensures contextState == PrepareForImcu
    {
      hide Fixed, Listed, WellFormed;
      NotArray();
      SomeSize();
      MakeFunnyPointers();
      whichptr, contextState, imcuRowCtr := 0, PrepareForImcu, 0;
      bufferFull, rowgroupCtr := false, 0;
      delivered := [];
      forall j: nat | j < |components| ensures Between(components[j].dim, StateOf(j), whichptr, 0) {
        assert Listed(components[j].dim, StateOf(j), 0);
      }
    }

    lemma NotArray()
      ensures this as object !in Arrays()
    {
    }

    lemma Others(ci: nat)
      requires Fixed() && ci < |components|
      ensures forall j | 0 <= j < |components| && j != ci :: Apart(components[j], components[ci])
    {
      forall j | 0 <= j < |components| && j != ci ensures Apart(components[j], components[ci]) {
        if j < ci { assert Apart(components[j], components[ci]); } else { assert Apart(components[ci], components[j]); }
      }
    }

    ghost function StateOf(j: nat): State
      requires j < |components|
      reads components[j].buffer, components[j].xbuffer0, components[j].xbuffer1
    {
      components[j].Now()
    }

    /** `make_funny_pointers`. */
    method MakeFunnyPointers()
      requires Fixed() && forall j: nat | j < |components| :: WellFormed(components[j].dim, StateOf(j))
      modifies Arrays()
      ensures forall j: nat | j < |components| :: Listed(components[j].dim, StateOf(j), 0)
    {
      hide WellFormed, Listed, Sized;
      for ci := 0 to |components|
        invariant forall j: nat | j < ci :: Listed(components[j].dim, StateOf(j), 0)
        invariant forall j: nat | ci <= j < |components| :: WellFormed(components[j].dim, StateOf(j))
      {
        Others(ci);
        assert components[ci] in components;
        assert WellFormed(components[ci].dim, StateOf(ci));
        components[ci].MakePointers();
      }
    }

    /** `set_wraparound_pointers`. */
    method SetWraparoundPointers()
      requires Fixed() && forall j: nat | j < |components| :: WellFormed(components[j].dim, StateOf(j))
      modifies Arrays()
      ensures forall j: nat | j < |components| :: WrapsAround(components[j].dim, old(StateOf(j)), StateOf(j))
    {
      hide WellFormed, WrapsAround, Sized;
      for ci := 0 to |components|
        invariant forall j: nat | j < ci :: WrapsAround(components[j].dim, old(StateOf(j)), StateOf(j))
        invariant forall j: nat | ci <= j < |components| :: StateOf(j) == old(StateOf(j))
      {
        Others(ci);
        assert components[ci] in components;
        assert StateOf(ci) == old(StateOf(ci));
        components[ci].SetWraparound();
      }
    }

    /** `set_bottom_pointers`. */
    method SetBottomPointers()
      requires Fixed() && whichptr <= 1 && forall j: nat | j < |components| :: WellFormed(components[j].dim, StateOf(j))
      modifies Arrays(), this`rowgroupsAvail
      ensures forall j: nat | j < |components| ::
                Repeated(components[j].dim, old(StateOf(j)), StateOf(j), whichptr, RowsLeft(components[j].dim))
      ensures rowgroupsAvail == lastGroups
    {
      hide WellFormed, Repeated, RowsLeft;
      for ci := 0 to |components|
        invariant forall j: nat | j < ci ::
                    Repeated(components[j].dim, old(StateOf(j)), StateOf(j), whichptr, RowsLeft(components[j].dim))
        invariant forall j: nat | ci <= j < |components| :: StateOf(j) == old(StateOf(j))
        invariant ci > 0 ==> rowgroupsAvail == lastGroups
      {
        Others(ci);
        assert components[ci] in components;
        assert StateOf(ci) == old(StateOf(ci));
        LastGroups(components[ci].dim, m, totalImcuRows, lastGroups);
        var rowgroups := components[ci].SetBottom(whichptr);
        if ci == 0 { rowgroupsAvail := rowgroups; }
      }
    }

    /** `decompress_data`: the next iMCU row is read through the current list; when it is not
        complete, only some of its rows are. */
    method Decompress(pace: Pace) returns (ok: bool)
      requires Fixed() && whichptr <= 1
      requires forall j: nat | j < |components| ::
                 WellFormed(components[j].dim, StateOf(j)) && Pointers(components[j].dim, StateOf(j).List(whichptr), whichptr)
      modifies Arrays()
      ensures ok == pace.decoded
      ensures forall j: nat | j < |components| ::
                var d := components[j].dim;
                Filled(d, old(StateOf(j)), StateOf(j), whichptr, imcuRowCtr * d.imcu,
                       if ok then d.imcu else if pace.partly < d.imcu then pace.partly else d.imcu)
    {
      hide WellFormed, Filled, Pointers, Sized;
      ok := pace.decoded;
      for ci := 0 to |components|
        invariant forall j: nat | j < ci ::
                    var d := components[j].dim;
                    Filled(d, old(StateOf(j)), StateOf(j), whichptr, imcuRowCtr * d.imcu,
                           if ok then d.imcu else if pace.partly < d.imcu then pace.partly else d.imcu)
        invariant forall j: nat | ci <= j < |components| :: StateOf(j) == old(StateOf(j))
      {
        Others(ci);
        assert components[ci] in components;
        assert StateOf(ci) == old(StateOf(ci));
        var d := components[ci].dim;
        components[ci].Fill(whichptr, imcuRowCtr * d.imcu,
                            if ok then d.imcu else if pace.partly < d.imcu then pace.partly else d.imcu);
      }
    }

    /** What component `j` shows at row group `g` of the current list. */
    ghost function Seen(j: nat, g: nat): seq<int>
      requires j < |components|
      reads this`whichptr, components[j].buffer, components[j].xbuffer0, components[j].xbuffer1
    {
      var d, s := components[j].dim, StateOf(j);
      if WellFormed(d, s) && g * d.rgroup <= d.imcu + d.rgroup then View(d, s, whichptr, g * d.rgroup) else []
    }

    ghost function Views(g: nat): (views: seq<seq<int>>)
      reads this, Arrays()
      ensures |views| == |components| && forall j: nat | j < |components| :: views[j] == Seen(j, g)
    {
      seq(|components|, j requires 0 <= j < |components| reads this, Arrays() =>
        assert components[j] in components; Seen(j, g))
    }

    /** Row group `n` of the image is shown before the last iMCU row has been looked at. */
    ghost predicate Early(n: nat) {
      totalImcuRows > 1 && n + 1 == (totalImcuRows - 1) * m
    }

    ghost predicate Delivers(n: nat, views: seq<seq<int>>) {
      && |views| == |components|
      && forall j: nat | j < |components| ::
           views[j] == Expected(components[j].dim, Early(n), n * components[j].dim.rgroup - components[j].dim.rgroup)
    }

    /** All row groups delivered so far were right, and none was left out. */
    ghost predicate AllDelivered()
      reads this`delivered
    {
      forall n: nat | n < |delivered| :: Delivers(n, delivered[n])
    }

    /** Row group `g` of the current list is what is due as row group `n` of the image. */
    ghost predicate Due(g: nat, n: nat)
      reads this`whichptr, Arrays()
    {
      forall j: nat | j < |components| ::
        assert components[j] in components;
        Right(components[j].dim, StateOf(j), whichptr, g, Early(n), n)
    }

    lemma DueDelivers(g: nat, n: nat)
      requires Due(g, n)
      ensures Delivers(n, Views(g))
    {
      hide WellFormed, View, Expected;
      forall j: nat | j < |components| ensures Views(g)[j] == Expected(components[j].dim, Early(n), n * components[j].dim.rgroup - components[j].dim.rgroup) {
        assert Right(components[j].dim, StateOf(j), whichptr, g, Early(n), n);
      }
    }

    /** `post_process_data`: the postprocessor takes as many row groups as it wants. */
    method PostProcess(take: nat)
      requires rowgroupCtr <= rowgroupsAvail && AllDelivered()
      requires forall g: nat, n: nat | rowgroupCtr <= g < rowgroupsAvail && n - g == |delivered| - rowgroupCtr :: Due(g, n)
      modifies this`delivered, this`rowgroupCtr
      ensures AllDelivered()
      ensures rowgroupCtr == if take < rowgroupsAvail - old(rowgroupCtr) then old(rowgroupCtr) + take else rowgroupsAvail
      ensures |delivered| - rowgroupCtr == old(|delivered| - rowgroupCtr) && old(delivered) <= delivered
    {
      hide Due, Delivers;
      var n := if take < rowgroupsAvail - rowgroupCtr then take else rowgroupsAvail - rowgroupCtr;
      ghost var start, had := rowgroupCtr, |delivered|;
      NotArray();
      for t := 0 to n
        invariant rowgroupCtr == start + t && |delivered| == had + t && AllDelivered() && old(delivered) <= delivered
        invariant forall g: nat, n: nat | start <= g < rowgroupsAvail && n - g == had - start :: Due(g, n)
      {
        DueDelivers(rowgroupCtr, |delivered|);
        delivered := delivered + [Views(rowgroupCtr)];
        rowgroupCtr := rowgroupCtr + 1;
      }
    }

    // ------------------------------------------------------- the state machine

    ghost function TotalGroups(): nat
      requires totalImcuRows >= 1
    {
      (totalImcuRows - 1) * m + lastGroups
    }

    ghost predicate AllReady(k: nat)
      reads this`whichptr, Arrays()
    {
      forall j: nat | j < |components| ::
        assert components[j] in components; Ready(components[j].dim, StateOf(j), whichptr, k)
    }

    ghost predicate AllBetween(k: nat)
      reads this`whichptr, Arrays()
    {
      forall j: nat | j < |components| ::
        assert components[j] in components; Between(components[j].dim, StateOf(j), whichptr, k)
    }

    /** The last iMCU row, with the list changed for the bottom. */
    ghost predicate AtBottom()
      requires totalImcuRows >= 1
      reads this`whichptr, this`before, Arrays()
    {
      && |before| == |components|
      && forall j: nat | j < |components| ::
           assert components[j] in components;
           var d := components[j].dim;
           && d.Valid() && Ready(d, before[j], whichptr, totalImcuRows - 1)
           && Repeated(d, before[j], StateOf(j), whichptr, RowsLeft(d))
    }

    /** iMCU row `k` is being fed to the postprocessor. */
    ghost predicate Processing(k: nat)
      requires totalImcuRows >= 1 && m >= 2
      reads this, Arrays()
    {
      && k < totalImcuRows && whichptr == k % 2
      && if k + 1 < totalImcuRows then rowgroupsAvail == m - 1 && AllReady(k) else rowgroupsAvail == lastGroups && AtBottom()
    }

    ghost predicate Postponed(k: nat)
      requires m >= 2
      reads this, Arrays()
    {
      0 < k < totalImcuRows && whichptr == k % 2 && rowgroupsAvail == m + 2
      && rowgroupCtr == m + 1 && |delivered| == k * m - 1
    }

    ghost predicate Done()
      requires totalImcuRows >= 1
      reads this
    {
      contextState == PostponedRow && !bufferFull && imcuRowCtr == totalImcuRows && |delivered| == TotalGroups()
    }

    ghost predicate Valid()
      reads this, Arrays()
    {
      && Fixed() && Counts() && whichptr <= 1 && AllDelivered()
      && (contextState == PrepareForImcu && !bufferFull ==>
            imcuRowCtr == 0 && whichptr == 0 && |delivered| == 0 && AllBetween(0))
      && (contextState == PrepareForImcu && bufferFull ==>
            var k := imcuRowCtr - 1; 0 < k < totalImcuRows && whichptr == k % 2 && |delivered| == k * m && AllReady(k))
      && (contextState == ProcessImcu ==>
            bufferFull && imcuRowCtr > 0
            && var k := imcuRowCtr - 1; Processing(k) && rowgroupCtr < rowgroupsAvail && |delivered| == k * m + rowgroupCtr)
      && (contextState == PostponedRow && !bufferFull ==> Done() || (Postponed(imcuRowCtr) && AllBetween(imcuRowCtr)))
      && (contextState == PostponedRow && bufferFull ==>
            imcuRowCtr > 0 && Postponed(imcuRowCtr - 1) && AllReady(imcuRowCtr - 1))
    }

    ghost predicate Counts() {
      m >= 2 && totalImcuRows >= 1 && 1 <= lastGroups <= m
    }

    /** There is an iMCU row in the buffer. */
    ghost predicate AtSwitch(k: nat)
      reads this, Arrays()
    {
      && Fixed() && Counts() && whichptr <= 1 && AllDelivered() && bufferFull && imcuRowCtr == k + 1 <= totalImcuRows
      && (contextState == PrepareForImcu ==> whichptr == k % 2 && |delivered| == k * m && AllReady(k))
      && (contextState == ProcessImcu ==>
            Processing(k) && rowgroupCtr < rowgroupsAvail && |delivered| == k * m + rowgroupCtr)
      && (contextState == PostponedRow ==> Postponed(k) && AllReady(k))
    }

    lemma SomeSize()
      requires Fixed()
      ensures Counts()
    {
      hide RowsLeft;
      assert Sized(components[0].dim, m, totalImcuRows, lastGroups);
    }

    lemma BetweenPointers(k: nat)
      requires AllBetween(k) && whichptr <= 1
      ensures forall j: nat | j < |components| ::
                WellFormed(components[j].dim, StateOf(j)) && Pointers(components[j].dim, StateOf(j).List(whichptr), whichptr)
    {
      hide WellFormed, Pointers, Wrapped, Top, Kept;
      forall j: nat | j < |components|
        ensures WellFormed(components[j].dim, StateOf(j)) && Pointers(components[j].dim, StateOf(j).List(whichptr), whichptr)
      {
        assert Between(components[j].dim, StateOf(j), whichptr, k);
      }
    }

    /** Row `k` is read through the current list, unless the input runs out. */
    method ReadRow(pace: Pace, ghost k: nat) returns (ok: bool)
      requires Fixed() && AllBetween(k) && whichptr <= 1 && imcuRowCtr == k
      modifies Arrays()
      ensures ok == pace.decoded && AllBetween(k) && (ok ==> AllReady(k))
    {
      BetweenPointers(k);
      NotArray();
      ok := Decompress(pace);
      hide Fixed, Filled, Listed, Kept, Loaded, WellFormed, Ready, Between;
      forall j: nat | j < |components|
        ensures Between(components[j].dim, StateOf(j), whichptr, k)
        ensures ok ==> Ready(components[j].dim, StateOf(j), whichptr, k)
      {
        assert components[j] in components;
        assert old(Between(components[j].dim, StateOf(j), whichptr, k));
        LoadedOne(components[j].dim, old(StateOf(j)), StateOf(j), whichptr, k,
                  if ok then components[j].dim.imcu
                  else if pace.partly < components[j].dim.imcu then pace.partly else components[j].dim.imcu);
      }
    }

    /** Reads the next iMCU row if the buffer is empty. */
    method LoadRow(pace: Pace) returns (ok: bool)
      requires Valid() && !Done()
      modifies this`bufferFull, this`imcuRowCtr, Arrays()
      ensures ok == (old(bufferFull) || pace.decoded) && bufferFull == ok
      ensures !ok ==> Valid() && !Done()
      ensures ok ==> imcuRowCtr > 0 && AtSwitch(imcuRowCtr - 1)
    {
      hide Fixed, AllDelivered, AllBetween, AllReady, AtBottom;
      ok := true;
      if bufferFull { return; }
      NotArray();
      ok := ReadRow(pace, imcuRowCtr);
      if !ok { return; }
      bufferFull := true;
      imcuRowCtr := imcuRowCtr + 1;
    }

    lemma EarlyOnly(k: nat, g: nat)
      requires Counts() && k < totalImcuRows && g < m && (k + 1 < totalImcuRows ==> g + 1 < m)
      ensures k * m + g >= 0 && !Early(k * m + g)
    {
      if k + 1 < totalImcuRows { Monotone(k + 1, totalImcuRows - 1, m); }
      assert (k + 1) * m == k * m + m;
      Monotone(0, k, m);
    }

    lemma EarlyLast(k: nat)
      requires Counts() && 0 < k < totalImcuRows
      ensures k * m >= 1 && (Early(k * m - 1) <==> k + 1 == totalImcuRows)
    {
      Monotone(1, k, m);
      if k + 1 < totalImcuRows {
        Monotone(k + 1, totalImcuRows - 1, m);
        assert (k + 1) * m == k * m + m;
      }
    }

    lemma DueProcessing(k: nat, g: nat)
      requires Fixed() && Counts() && Processing(k) && g < rowgroupsAvail
      ensures k * m + g >= 0 && Due(g, k * m + g)
    {
      hide Ready, Right, Repeated, Sized, RowsLeft;
      EarlyOnly(k, g);
      forall j: nat | j < |components| ensures Right(components[j].dim, StateOf(j), whichptr, g, false, k * m + g) {
        assert components[j] in components;
        assert Sized(components[j].dim, m, totalImcuRows, lastGroups);
        if k + 1 < totalImcuRows {
          RightMiddle(components[j].dim, StateOf(j), m, totalImcuRows, lastGroups, k, g);
        } else {
          RightLast(components[j].dim, before[j], StateOf(j), m, totalImcuRows, lastGroups, g, whichptr, k, k * m + g);
        }
      }
    }

    lemma DuePostponed(k: nat)
      requires Fixed() && Counts() && Postponed(k) && AllReady(k)
      ensures k * m >= 1 && Due(m + 1, k * m - 1)
    {
      hide Ready, Right, Sized, RowsLeft;
      EarlyLast(k);
      forall j: nat | j < |components| ensures Right(components[j].dim, StateOf(j), whichptr, m + 1, k + 1 == totalImcuRows, k * m - 1) {
        assert components[j] in components;
        assert Sized(components[j].dim, m, totalImcuRows, lastGroups);
        RightPostponed(components[j].dim, StateOf(j), m, totalImcuRows, lastGroups, k);
      }
    }

    /** The postponed row group of the previous iMCU row. */
    method FeedPostponed(take: nat, ghost k: nat)
      requires Fixed() && Counts() && AllDelivered() && Postponed(k) && AllReady(k)
      modifies this`delivered, this`rowgroupCtr
      ensures AllDelivered() && AllReady(k) && old(delivered) <= delivered
      ensures if take == 0 then Postponed(k) && delivered == old(delivered)
              else rowgroupCtr == rowgroupsAvail && |delivered| == k * m == |old(delivered)| + 1
    {
      hide Fixed, AllDelivered, AllReady, Due;
      DuePostponed(k);
      NotArray();
      PostProcess(take);
    }

    /** The row groups of an iMCU row but for the last, or all that there are at the bottom. */
    method FeedImcu(take: nat, ghost k: nat)
      requires Fixed() && Counts() && AllDelivered() && Processing(k)
      requires rowgroupCtr < rowgroupsAvail && |delivered| == k * m + rowgroupCtr
      modifies this`delivered, this`rowgroupCtr
      ensures AllDelivered() && Processing(k) && old(delivered) <= delivered
      ensures old(rowgroupCtr) <= rowgroupCtr <= rowgroupsAvail && |delivered| == k * m + rowgroupCtr
      ensures take > 0 ==> rowgroupCtr > old(rowgroupCtr)
    {
      hide Fixed, AllDelivered, AllReady, AtBottom, Due;
      forall g: nat, n: nat | rowgroupCtr <= g < rowgroupsAvail && n - g == |delivered| - rowgroupCtr ensures Due(g, n) {
        DueProcessing(k, g);
      }
      NotArray();
      PostProcess(take);
    }

    lemma ReadyShapes(k: nat)
      requires AllReady(k)
      ensures forall j: nat | j < |components| :: WellFormed(components[j].dim, StateOf(j))
    {
      hide WellFormed, Ready;
      forall j: nat | j < |components| ensures WellFormed(components[j].dim, StateOf(j)) {
        assert Ready(components[j].dim, StateOf(j), whichptr, k);
        ReadyShape(components[j].dim, StateOf(j), whichptr, k);
      }
    }

    /** `CTX_PREPARE_FOR_IMCU`. */
    method Prepare(ghost k: nat)
      requires Fixed() && Counts() && AllDelivered() && k < totalImcuRows && imcuRowCtr == k + 1
      requires whichptr == k % 2 && AllReady(k) && |delivered| == k * m
      modifies this`rowgroupCtr, this`rowgroupsAvail, this`contextState, this`before, Arrays()
      ensures contextState == ProcessImcu && rowgroupCtr == 0 < rowgroupsAvail && AllDelivered() && Processing(k)
    {
      hide Fixed, AllDelivered, Ready, Repeated, RowsLeft, WellFormed;
      NotArray();
      rowgroupCtr := 0;
      rowgroupsAvail := m - 1;
      ReadyShapes(k);
      before := seq(|components|, j requires 0 <= j < |components| reads this, Arrays() =>
        assert components[j] in components; StateOf(j));
      label Before:
      assert forall j: nat | j < |components| :: Ready(components[j].dim, before[j], whichptr, k) && before[j] == StateOf(j);
      if imcuRowCtr == totalImcuRows {
        SetBottomPointers();
        forall j: nat | j < |components|
          ensures components[j].dim.Valid() && Repeated(components[j].dim, before[j], StateOf(j), whichptr, RowsLeft(components[j].dim))
        {
          assert old@Before(StateOf(j)) == before[j];
          DimsValid(j);
        }
      }
      contextState := ProcessImcu;
    }

    lemma DimsValid(j: nat)
      requires Fixed() && j < |components|
      ensures components[j].dim.Valid()
    {
      hide RowsLeft;
      assert Sized(components[j].dim, m, totalImcuRows, lastGroups);
    }

    /** The iMCU row has been used up but for its last row group, which is postponed. */
    method Finish(ghost k: nat)
      requires Fixed() && Counts() && AllDelivered() && Processing(k) && imcuRowCtr == k + 1
      requires rowgroupCtr == rowgroupsAvail && |delivered| == k * m + rowgroupCtr
      modifies this`whichptr, this`bufferFull, this`rowgroupCtr, this`rowgroupsAvail, this`contextState, Arrays()
      ensures AllDelivered() && whichptr <= 1 && contextState == PostponedRow && !bufferFull
      ensures if k + 1 == totalImcuRows then Done() else Postponed(k + 1) && AllBetween(k + 1)
    {
      hide Fixed, AllDelivered, Ready, Repeated, RowsLeft, WellFormed, WrapsAround, Between;
      NotArray();
      ProcessingShapes(k);
      ghost var w := whichptr;
      if imcuRowCtr == 1 {
        SetWraparoundPointers();
      }
      if k + 1 < totalImcuRows {
        forall j: nat | j < |components| ensures Between(components[j].dim, StateOf(j), 1 - w, k + 1) {
          assert components[j] in components;
          assert old(Ready(components[j].dim, StateOf(j), whichptr, k));
          TurnsOver(components[j].dim, old(StateOf(j)), StateOf(j), w, k);
        }
      }
      whichptr := 1 - whichptr;
      bufferFull := false;
      rowgroupCtr := m + 1;
      rowgroupsAvail := m + 2;
      contextState := PostponedRow;
    }

    /** The cases from `CTX_PREPARE_FOR_IMCU` on. */
    method Feed(take: nat, ghost k: nat)
      requires AtSwitch(k) && contextState != PostponedRow
      modifies this, Arrays()
      ensures Valid() && old(delivered) <= delivered && (take > 0 ==> |delivered| > |old(delivered)|)
    {
      hide Fixed, AllDelivered, AllReady, AllBetween, AtBottom;
      NotArray();
      if contextState == PrepareForImcu {
        Prepare(k);
      }
      FeedImcu(take, k);
      if rowgroupCtr < rowgroupsAvail { return; }
      Finish(k);
    }

    /** The case `CTX_POSTPONED_ROW`. */
    method TakePostponed(take: nat, ghost k: nat) returns (more: bool)
      requires AtSwitch(k) && contextState == PostponedRow
      modifies this`delivered, this`rowgroupCtr, this`contextState
      ensures AtSwitch(k) && old(delivered) <= delivered && more == (contextState == PrepareForImcu)
      ensures !more ==> contextState == PostponedRow
      ensures take > 0 ==> more && |delivered| > |old(delivered)|
    {
      hide Fixed, AllDelivered, AllReady, Processing;
      NotArray();
      FeedPostponed(take, k);
      more := rowgroupCtr >= rowgroupsAvail;
      if more { contextState := PrepareForImcu; }
    }

    lemma SwitchValid(k: nat)
      requires AtSwitch(k) && (contextState == PrepareForImcu ==> k > 0)
      ensures Valid()
    {
      hide Fixed, AllDelivered, AllReady, Processing, AllBetween;
    }

    /** `process_data_context_main`: at whatever pace, what is delivered is always right, and
        each row group comes in its turn; with input and room for output there is progress. */
    method ProcessData(pace: Pace)
      requires Valid() && !Done()
      modifies this, Arrays()
      ensures Valid() && old(delivered) <= delivered
      ensures (old(bufferFull) || pace.decoded) && pace.first > 0 && pace.second > 0 ==> |delivered| > |old(delivered)|
    {
      hide Fixed, AllDelivered, AllReady, AllBetween, AtBottom, Processing, Valid, AtSwitch;
      NotArray();
      var ok := LoadRow(pace);
      if !ok { return; }
      ghost var k := imcuRowCtr - 1;
      if contextState == PostponedRow {
        PostponedLater(k);
        var more := TakePostponed(pace.first, k);
        if !more || pace.filled {
          SwitchValid(k);
          return;
        }
      }
      Feed(pace.second, k);
    }

    lemma PostponedLater(k: nat)
      requires AtSwitch(k) && contextState == PostponedRow
      ensures k > 0
    {
    }

    /** A whole pass over the image, at any pace: all that has been delivered is right, in
        order and without a gap; when the pass ends, it is the whole image. */
    method ProcessImage(paces: seq<Pace>)
      requires Fixed() && forall j: nat | j < |components| :: WellFormed(components[j].dim, StateOf(j))
      modifies this, Arrays()
      ensures Valid() && AllDelivered()
      ensures Finished() ==> |delivered| == TotalGroups()
      ensures Done() || |delivered| >= Steady(paces, |paces|)
    {
      hide Fixed, WellFormed, AllDelivered;
      NotArray();
      StartPass();
      for i := 0 to |paces|
        invariant Valid()
        invariant Done() || |delivered| >= Steady(paces, i)
      {
        if !Finished() {
          ProcessData(paces[i]);
        }
      }
    }

    /** The caller stops once the whole image has been output. */
    predicate Finished()
      requires totalImcuRows >= 1
      reads this
      ensures Valid() && Finished() ==> Done()
    {
      contextState == PostponedRow && !bufferFull && imcuRowCtr == totalImcuRows
    }

    // ------------------------------------------------- what the image should show

    /** In row `i` of what component `j` showed of row group `n`, with the row groups above and
        below it, stands the row that the image has there. */
    ghost predicate RowRight(n: nat, j: nat, i: nat)
      reads this`delivered
    {
      && n < |delivered| && j < |components| && j < |delivered[n]| && i < |delivered[n][j]|
      && delivered[n][j][i] == ImageRow(components[j].dim, (n - 1) * components[j].dim.rgroup + i)
    }

    /** All of it is so, everywhere. */
    ghost predicate AllRight()
      reads this`delivered
    {
      forall n: nat, j: nat, i: nat | n < |delivered| && j < |components| && i < 3 * components[j].dim.rgroup :: RowRight(n, j, i)
    }

    /** What has been delivered is right, except exactly the rows behind the image around the
        row group before the last iMCU row; one row below, it always is. */
    lemma ContextRight(n: nat, j: nat, i: nat)
      requires Fixed() && AllDelivered() && n < |delivered| && j < |components| && i < 3 * components[j].dim.rgroup
      ensures var d := components[j].dim;
              && |delivered[n]| == |components| && |delivered[n][j]| == 3 * d.rgroup
              && (RowRight(n, j, i) <==> !(Early(n) && (n - 1) * d.rgroup + i >= d.height))
              && (i <= 2 * d.rgroup ==> RowRight(n, j, i))
    {
      hide RowsLeft;
      var d := components[j].dim;
      assert Delivers(n, delivered[n]);
      assert (n - 1) * d.rgroup == n * d.rgroup - d.rgroup;
      assert delivered[n][j][i] == Visible(d, Early(n), n * d.rgroup - d.rgroup + i);
      if Early(n) { EarlyInside(d, m, totalImcuRows, lastGroups, n); }
    }

    /** Of a whole image all rows are right if and only if it has one iMCU row only, or the
        first row group of the last iMCU row is full in all components. */
    lemma WholeImageRight()
      requires Fixed() && AllDelivered() && totalImcuRows >= 1 && |delivered| == TotalGroups()
      ensures AllRight() <==>
                totalImcuRows == 1 || forall j: nat | j < |components| :: RowsLeft(components[j].dim) >= components[j].dim.rgroup
    {
      hide RowsLeft, RowRight, AllDelivered, Sized;
      var n := (totalImcuRows - 1) * m - 1;
      forall n: nat, j: nat, i: nat | n < |delivered| && j < |components| && i < 3 * components[j].dim.rgroup
        ensures RowRight(n, j, i) <==> !(Early(n) && (n - 1) * components[j].dim.rgroup + i >= components[j].dim.height)
      {
        ContextRight(n, j, i);
      }
      if totalImcuRows > 1 {
        SomeSize();
        Monotone(1, totalImcuRows - 1, m);
        forall j: nat | j < |components|
          ensures var d := components[j].dim;
                  (n - 1) * d.rgroup + 3 * d.rgroup == d.height - RowsLeft(d) + d.rgroup && d.rgroup >= 1
        {
          BottomRows(components[j].dim, m, totalImcuRows, lastGroups);
        }
        if j: nat :| j < |components| && RowsLeft(components[j].dim) < components[j].dim.rgroup {
          assert !RowRight(n, j, 3 * components[j].dim.rgroup - 1);
        }
      }
    }

    lemma ProcessingShapes(k: nat)
      requires Counts() && Processing(k)
      ensures forall j: nat | j < |components| :: WellFormed(components[j].dim, StateOf(j))
    {
      hide WellFormed, Ready, Repeated, RowsLeft;
      if k + 1 < totalImcuRows {
        ReadyShapes(k);
      } else {
        forall j: nat | j < |components| ensures WellFormed(components[j].dim, StateOf(j)) {
          RepeatedShape(components[j].dim, before[j], StateOf(j), whichptr);
        }
      }
    }
  }

  /** The row group before the last iMCU row is well inside the image. */
  lemma EarlyInside(d: Dim, m: nat, total: nat, lastGroups: nat, n: nat)
    requires Sized(d, m, total, lastGroups) && total > 1 && n + 1 == (total - 1) * m
    ensures n * d.rgroup - d.rgroup >= 0 && n * d.rgroup + d.rgroup < d.height
  {
    hide RowsLeft;
    PostponedSizes(d, m, total, lastGroups, total - 1);
  }

  /** The last row that is shown around it. */
  lemma BottomRows(d: Dim, m: nat, total: nat, lastGroups: nat)
    requires Sized(d, m, total, lastGroups) && total > 1
    ensures var n := (total - 1) * m - 1;
            (n - 1) * d.rgroup + 3 * d.rgroup == d.height - RowsLeft(d) + d.rgroup && d.rgroup >= 1
  {
    hide RowsLeft;
    PostponedSizes(d, m, total, lastGroups, total - 1);
    var n := (total - 1) * m - 1;
    assert (n - 1) * d.rgroup == n * d.rgroup - d.rgroup;
  }

  /** An image of five rows with row groups of two and two row groups in an iMCU row: below the
      second row group the controller shows row 5, which there is not, in place of row 4. */
  method PaddingShown() returns (c: ContextController)
    ensures c.Fixed() && c.AllDelivered() && |c.components| == 1 && c.components[0].dim == Dim(2, 4, 5)
    ensures |c.delivered| >= 2 && |c.delivered[1]| == 1 && |c.delivered[1][0]| == 6
    ensures c.delivered[1][0][5] == 5 && ImageRow(Dim(2, 4, 5), 5) == 4 && !c.RowRight(1, 0, 5)
  {
    hide WellFormed, ContextController.Valid, ContextController.AllDelivered;
    var d := Dim(2, 4, 5);
    assert Sized(d, 2, 2, 1) by { assert 5 % 4 == 1 && RowsLeft(d) == 1; }
    var rows := new ComponentRows(d);
    c := new ContextController(2, 2, [rows], 1);
    var pace := Pace(true, 0, 1, false, 1);
    c.ProcessImage([pace, pace]);
    assert Steady([pace, pace], 2) == 2 by { assert Steady([pace, pace], 1) == 1; }
    SecondGroup(c);
  }

  lemma SecondGroup(c: ContextController)
    requires c.Fixed() && c.AllDelivered() && |c.components| == 1 && c.components[0].dim == Dim(2, 4, 5)
    requires c.m == 2 && c.totalImcuRows == 2 && |c.delivered| >= 2
    ensures |c.delivered[1]| == 1 && |c.delivered[1][0]| == 6 && c.delivered[1][0][5] == 5 && !c.RowRight(1, 0, 5)
  {
    var d := Dim(2, 4, 5);
    assert c.Delivers(1, c.delivered[1]) && c.Early(1);
    assert c.delivered[1][0] == Expected(d, true, 0);
    assert c.delivered[1][0][5] == Visible(d, true, 5);
  }

  /** How many of the first `n` calls had both input and room for output. */
  function Steady(paces: seq<Pace>, n: nat): nat
    requires n <= |paces|
  {
    if n == 0 then 0
    else Steady(paces, n - 1) + if paces[n - 1].decoded && paces[n - 1].first > 0 && paces[n - 1].second > 0 then 1 else 0
  }

  /** Behind iMCU row `k`: what the other list is to keep is there, and from the first row on
      the lists are wrapped around. */
  lemma TurnsOver(d: Dim, was: State, now: State, w: nat, k: nat)
    requires w == k % 2 && Ready(d, was, w, k) && if k == 0 then WrapsAround(d, was, now) else now == was
    ensures Between(d, now, 1 - w, k + 1)
  {
    hide Pointers, Wrapped, Top, Physical;
    ListedShape(d, was, k);
    KeptByOther(d, was, w, k * d.imcu);
    assert (k + 1) * d.imcu == k * d.imcu + d.imcu;
    if k == 0 {
      WrapsListed(d, was, now, 1);
      KeptRows(d, was, now, 1 - w, d.imcu);
    }
  }

  lemma ListedShape(d: Dim, s: State, k: nat)
    requires Listed(d, s, k)
    ensures WellFormed(d, s) && (k > 0 ==> Listed(d, s, k + 1)) && Pointers(d, s.list0, 0) && Pointers(d, s.list1, 1)
  {
  }

  lemma KeptRows(d: Dim, was: State, now: State, w: nat, first: int)
    requires WrapsAround(d, was, now) && Kept(d, was, w, first)
    ensures Kept(d, now, w, first)
  {
  }

  lemma LoadedOne(d: Dim, was: State, now: State, w: nat, k: nat, n: nat)
    requires w <= 1 && Between(d, was, w, k) && Filled(d, was, now, w, k * d.imcu, n)
    ensures Between(d, now, w, k) && (n == d.imcu ==> Ready(d, now, w, k))
  {
    hide Listed, Kept, Loaded;
    FilledKeeps(d, was, now, w, k * d.imcu, n, k);
    FilledLoads(d, was, now, w, k * d.imcu, n);
  }

  lemma FilledLoads(d: Dim, was: State, now: State, w: nat, first: int, n: nat)
    requires Filled(d, was, now, w, first, n)
    ensures Loaded(d, now, w, first, n)
  {
  }

  // ------------------------------------------------------------------ the sizes

  /** `jdiv_round_up`. */
  function RoundUp(a: nat, b: nat): (q: nat)
    requires b > 0
  {
    (a + b - 1) / b
  }

  lemma RoundUpBounds(a: nat, b: nat)
    requires b > 0 && a > 0
    ensures RoundUp(a, b) >= 1 && (RoundUp(a, b) - 1) * b < a <= RoundUp(a, b) * b
  {
    var q := RoundUp(a, b);
    var r := (a + b - 1) % b;
    assert a + b - 1 == q * b + r;
    assert (q - 1) * b == q * b - b;
    if q < 1 { Monotone(q, 0, b); }
  }

  lemma RoundUpIs(a: nat, b: nat, lower: nat, upper: nat)
    requires b > 0 && lower * b < a <= upper * b
    ensures lower < RoundUp(a, b) <= upper
  {
    Monotone(0, lower, b);
    RoundUpBounds(a, b);
    var q := RoundUp(a, b);
    if q <= lower { Monotone(q, lower, b); }
    if upper < q { Monotone(upper, q - 1, b); }
  }

  lemma ScaledBounds(a: nat, x: nat, c: nat, k: nat)
    requires c > 0
    ensures x * c < a ==> (x * k) * c <= a * k && (k > 0 ==> (x * k) * c < a * k)
    ensures a <= x * c ==> a * k <= (x * k) * c
  {
    assert (x * k) * c == (x * c) * k;
    if x * c < a {
      Monotone(x * c + 1, a, k);
      assert (x * c + 1) * k == (x * c) * k + k;
    }
    if a <= x * c { Monotone(a, x * c, k); }
  }

  lemma RoundUpScaled(a: nat, c: nat, k: nat)
    requires a > 0 && c > 0 && k > 0
    ensures RoundUp(a, c) >= 1
    ensures (RoundUp(a, c) - 1) * k < RoundUp(a * k, c) <= RoundUp(a, c) * k
  {
    hide RoundUp;
    var q := RoundUp(a, c);
    RoundUpBounds(a, c);
    ScaledBounds(a, q - 1, c, k);
    ScaledBounds(a, q, c, k);
    RoundUpIs(a * k, c, (q - 1) * k, q * k);
  }

  lemma Grouped(a: nat, m: nat, k: nat)
    requires a > 0 && m > 0
    ensures (a * m) * k == a * (m * k) && a * m > 0
  {
    Monotone(1, a, m);
  }

  /** The sizes that the decompressor computes fit together, for every image height and for
      components of any row-group height. */
  lemma SizesFit(imageHeight: nat, maxV: nat, m: nat, rgroup: nat)
    requires imageHeight > 0 && maxV > 0 && m >= 2 && rgroup > 0
    ensures var c := maxV * 8;
            var total := RoundUp(imageHeight, c);
            var groups := RoundUp(imageHeight * m, c);
            var d := Dim(rgroup, m * rgroup, RoundUp(imageHeight * (m * rgroup), c));
            groups - (total - 1) * m >= 0 && Sized(d, m, total, groups - (total - 1) * m)
  {
    var c, h := maxV * 8, m * rgroup;
    Monotone(2, m, rgroup);
    RoundUpScaled(imageHeight, c, m);
    RoundUpScaled(imageHeight, c, h);
    Grouped(imageHeight, m, rgroup);
    RoundUpScaled(imageHeight * m, c, rgroup);
    hide RoundUp, Sized;
    SizedBy(Dim(rgroup, h, RoundUp(imageHeight * h, c)), m, RoundUp(imageHeight, c), RoundUp(imageHeight * m, c));
  }

  lemma SizedBy(d: Dim, m: nat, total: nat, groups: nat)
    requires d.Valid() && m >= 2 && total >= 1 && d.imcu == m * d.rgroup
    requires (total - 1) * d.imcu < d.height <= total * d.imcu && (total - 1) * m < groups <= total * m
    requires (groups - 1) * d.rgroup < d.height <= groups * d.rgroup
    ensures groups - (total - 1) * m >= 0 && Sized(d, m, total, groups - (total - 1) * m)
  {
    var k := total - 1;
    var left, lastGroups := d.height - k * d.imcu, groups - k * m;
    assert total * d.imcu == k * d.imcu + d.imcu && total * m == k * m + m;
    GroupRows(k, m, lastGroups, d);
    GroupRows(k, m, lastGroups - 1, d);
    LeftIs(d, k, left);
  }

  lemma LeftIs(d: Dim, k: nat, left: nat)
    requires d.Valid() && d.height == k * d.imcu + left && 1 <= left <= d.imcu
    ensures RowsLeft(d) == left
  {
    if left == d.imcu {
      assert (k + 1) * d.imcu == d.height;
      DivUnique(d.height, d.imcu, k + 1);
    } else {
      DivUnique(d.height, d.imcu, k);
    }
    assert d.height == (d.height / d.imcu) * d.imcu + d.height % d.imcu;
  }
}
