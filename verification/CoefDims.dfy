/** The dimensions of components and scans: `initial_setup` and `per_scan_setup` of jcmaster.c. */
module CoefDims {
  import opened JpegLimits

  const DCTSIZE := 8
  const MAX_SAMP_FACTOR := 4

  /** `jdiv_round_up`. */
  function DivRoundUp(a: nat, b: nat): nat
    requires b > 0
  {
    (a + b - 1) / b
  }

  datatype Component = Component(h: nat, v: nat) {
    predicate Valid() {
      1 <= h <= MAX_SAMP_FACTOR && 1 <= v <= MAX_SAMP_FACTOR
    }
  }

  /** The largest sampling factor among the first `n` components. */
  function MaxFactor(factors: seq<nat>, n: nat): nat
    requires n <= |factors|
  {
    if n == 0 then 1
    else
      var m := MaxFactor(factors, n - 1);
      if factors[n - 1] > m then factors[n - 1] else m
  }

  lemma {:induction false} MaxFactorIs(factors: seq<nat>, n: nat)
    requires n <= |factors| && forall i | 0 <= i < |factors| :: 1 <= factors[i] <= MAX_SAMP_FACTOR
    ensures 1 <= MaxFactor(factors, n) <= MAX_SAMP_FACTOR && forall i | 0 <= i < n :: factors[i] <= MaxFactor(factors, n)
  {
    if n > 0 { MaxFactorIs(factors, n - 1); }
  }

  datatype Frame = Frame(width: nat, height: nat, comps: seq<Component>) {
    predicate Valid() {
      && width > 0 && height > 0 && 1 <= |comps| <= MAX_COMPONENTS
      && forall c | 0 <= c < |comps| :: comps[c].Valid()
    }

    function MaxH(): (m: nat)
      requires Valid()
      ensures 1 <= m <= MAX_SAMP_FACTOR && forall c | 0 <= c < |comps| :: comps[c].h <= m
    {
      var hs := seq(|comps|, c requires 0 <= c < |comps| => comps[c].h);
      MaxFactorIs(hs, |hs|);
      assert forall c | 0 <= c < |comps| :: hs[c] == comps[c].h;
      MaxFactor(hs, |hs|)
    }

    function MaxV(): (m: nat)
      requires Valid()
      ensures 1 <= m <= MAX_SAMP_FACTOR && forall c | 0 <= c < |comps| :: comps[c].v <= m
    {
      var vs := seq(|comps|, c requires 0 <= c < |comps| => comps[c].v);
      MaxFactorIs(vs, |vs|);
      assert forall c | 0 <= c < |comps| :: vs[c] == comps[c].v;
      MaxFactor(vs, |vs|)
    }

    function WidthInBlocks(c: nat): nat
      requires Valid() && c < |comps|
    {
      DivRoundUp(width * comps[c].h, MaxH() * DCTSIZE)
    }

    function HeightInBlocks(c: nat): nat
      requires Valid() && c < |comps|
    {
      DivRoundUp(height * comps[c].v, MaxV() * DCTSIZE)
    }

    /** How many interleaved MCUs there are across the image. */
    function Across(): nat
      requires Valid()
    {
      DivRoundUp(width, MaxH() * DCTSIZE)
    }

    function TotalIMcuRows(): nat
      requires Valid()
    {
      DivRoundUp(height, MaxV() * DCTSIZE)
    }
  }

  lemma {:induction false} MaxFactorUsed(factors: seq<nat>, n: nat)
    requires 0 < n <= |factors| && forall i | 0 <= i < |factors| :: 1 <= factors[i]
    ensures exists i :: 0 <= i < n && factors[i] == MaxFactor(factors, n)
  {
    if n > 1 { MaxFactorUsed(factors, n - 1); }
    assert factors[n - 1] == MaxFactor(factors, n) || MaxFactor(factors, n) == MaxFactor(factors, n - 1);
  }

  /** The largest factors are those of some component. */
  lemma LargestUsed(f: Frame)
    requires f.Valid()
    ensures exists c :: 0 <= c < |f.comps| && f.comps[c].h == f.MaxH()
    ensures exists c :: 0 <= c < |f.comps| && f.comps[c].v == f.MaxV()
  {
    var hs, vs := seq(|f.comps|, c requires 0 <= c < |f.comps| => f.comps[c].h), seq(|f.comps|, c requires 0 <= c < |f.comps| => f.comps[c].v);
    MaxFactorUsed(hs, |hs|);
    MaxFactorUsed(vs, |vs|);
    var i :| 0 <= i < |hs| && hs[i] == MaxFactor(hs, |hs|);
    var j :| 0 <= j < |vs| && vs[j] == MaxFactor(vs, |vs|);
    assert f.comps[i].h == f.MaxH() && f.comps[j].v == f.MaxV();
  }

  /** The blocks of a component, of 8 samples each, cover its share of the image, and none
      could be left out. */
  lemma BlocksCover(f: Frame, c: nat)
    requires f.Valid() && c < |f.comps|
    ensures f.width * f.comps[c].h <= 8 * (f.WidthInBlocks(c) * f.MaxH()) < f.width * f.comps[c].h + 8 * f.MaxH()
    ensures f.height * f.comps[c].v <= 8 * (f.HeightInBlocks(c) * f.MaxV()) < f.height * f.comps[c].v + 8 * f.MaxV()
  {
    RoundedUp(f.width * f.comps[c].h, f.MaxH());
    RoundedUp(f.height * f.comps[c].v, f.MaxV());
  }

  lemma RoundedUp(a: nat, m: nat)
    requires 1 <= m <= MAX_SAMP_FACTOR
    ensures var n := DivRoundUp(a, m * DCTSIZE); 8 * (n * m) < a + 8 * m && a <= 8 * (n * m)
  {
    if m == 1 { } else if m == 2 { } else if m == 3 { } else { }
  }

  /** What is left in the last group of `s`, all being full otherwise. */
  function LastOf(n: nat, s: nat): nat
    requires s > 0
  {
    if n % s == 0 then s else n % s
  }

  /** Rounding up twice is rounding up once: blocks in groups of `s` make as many groups as
      there are interleaved MCUs, and only the last may be incomplete. */
  lemma Nested(size: nat, s: nat, m: nat)
    requires size > 0 && 1 <= s <= m <= MAX_SAMP_FACTOR
    ensures var blocks, n := DivRoundUp(size * s, m * DCTSIZE), DivRoundUp(size, m * DCTSIZE);
            && n >= 1 && n == DivRoundUp(blocks, s) && (n - 1) * s < blocks <= n * s
            && LastOf(blocks, s) == blocks - (n - 1) * s
  {
    if s == 1 { OneInGroup(size, m); } else if s == 2 { TwoInGroup(size, m); }
    else if s == 3 { ThreeInGroup(size, m); } else { FourInGroup(size); }
  }

  lemma OneInGroup(size: nat, m: nat)
    requires size > 0 && 1 <= m <= 4
    ensures var blocks, n := DivRoundUp(size * 1, m * DCTSIZE), DivRoundUp(size, m * DCTSIZE);
            n >= 1 && n == DivRoundUp(blocks, 1) && n - 1 < blocks <= n && LastOf(blocks, 1) == blocks - (n - 1)
  {
    if m == 1 { } else if m == 2 { } else if m == 3 { } else { }
  }

  lemma TwoInGroup(size: nat, m: nat)
    requires size > 0 && 2 <= m <= 4
    ensures var blocks, n := DivRoundUp(size * 2, m * DCTSIZE), DivRoundUp(size, m * DCTSIZE);
            n >= 1 && n == DivRoundUp(blocks, 2) && (n - 1) * 2 < blocks <= n * 2 && LastOf(blocks, 2) == blocks - (n - 1) * 2
  {
    if m == 2 { } else if m == 3 { } else { }
  }

  lemma ThreeInGroup(size: nat, m: nat)
    requires size > 0 && 3 <= m <= 4
    ensures var blocks, n := DivRoundUp(size * 3, m * DCTSIZE), DivRoundUp(size, m * DCTSIZE);
            n >= 1 && n == DivRoundUp(blocks, 3) && (n - 1) * 3 < blocks <= n * 3 && LastOf(blocks, 3) == blocks - (n - 1) * 3
  {
    if m == 3 { } else { }
  }

  lemma FourInGroup(size: nat)
    requires size > 0
    ensures var blocks, n := DivRoundUp(size * 4, 4 * DCTSIZE), DivRoundUp(size, 4 * DCTSIZE);
            n >= 1 && n == DivRoundUp(blocks, 4) && (n - 1) * 4 < blocks <= n * 4 && LastOf(blocks, 4) == blocks - (n - 1) * 4
  {
  }

  /** Groups of `s`, `k` of which lie before the one that is looked at. */
  lemma GroupEnds(s: nat, k: nat, n: nat)
    requires 1 <= s <= MAX_SAMP_FACTOR && k < n
    ensures k * s + s <= n * s && (k + 1) * s == k * s + s && k * s <= (n - 1) * s && (k == n - 1 || k * s + s <= (n - 1) * s)
  {
    if s == 1 { } else if s == 2 { } else if s == 3 { } else { }
  }

  /** The start of the group that a place lies in. */
  lemma GroupStart(s: nat, k: nat, i: nat)
    requires 1 <= s <= MAX_SAMP_FACTOR && i < s
    ensures (k * s + i) / s * s == k * s
  {
    if s == 1 { } else if s == 2 { } else if s == 3 { } else { }
  }

  // ------------------------------------------------------------------------ scans

  /** A scan of the components `cur`. */
  datatype Scan = Scan(f: Frame, cur: seq<nat>) {
    predicate Valid() {
      && f.Valid() && 1 <= |cur| <= MAX_COMPS_IN_SCAN && (forall i | 0 <= i < |cur| :: cur[i] < |f.comps|)
      && BlocksBefore(|cur|) <= MAX_BLOCKS_IN_MCU
    }

    /** Blocks of an MCU before those of component `n`. */
    function BlocksBefore(n: nat): nat
      requires f.Valid() && n <= |cur| && forall i | 0 <= i < |cur| :: cur[i] < |f.comps|
    {
      if n == 0 then 0 else BlocksBefore(n - 1) + Stacked(McuWidth(n - 1), McuHeight(n - 1))
    }

    predicate Interleaved() {
      |cur| > 1
    }

    function McuWidth(ci: nat): nat
      requires ci < |cur| && cur[ci] < |f.comps|
    {
      if Interleaved() then f.comps[cur[ci]].h else 1
    }

    function McuHeight(ci: nat): nat
      requires ci < |cur| && cur[ci] < |f.comps|
    {
      if Interleaved() then f.comps[cur[ci]].v else 1
    }

    function McusPerRow(): nat
      requires Valid()
    {
      if Interleaved() then f.Across() else f.WidthInBlocks(cur[0])
    }

    function LastColWidth(ci: nat): nat
      requires Valid() && ci < |cur|
    {
      if Interleaved() then LastOf(f.WidthInBlocks(cur[ci]), McuWidth(ci)) else 1
    }

    function LastRowHeight(ci: nat): nat
      requires Valid() && ci < |cur|
    {
      LastOf(f.HeightInBlocks(cur[ci]), f.comps[cur[ci]].v)
    }

    /** `MCU_rows_per_iMCU_row`, as `start_iMCU_row` sets it. */
    function McuRows(r: nat): nat
      requires Valid()
    {
      if Interleaved() then 1
      else if r < f.TotalIMcuRows() - 1 then f.comps[cur[0]].v else LastRowHeight(0)
    }

    /** Where MCU row `y` of iMCU row `r` begins, in blocks. */
    function Top(ci: nat, r: nat, y: nat): nat
      requires Valid() && ci < |cur|
    {
      r * f.comps[cur[ci]].v + y
    }

    function Left(ci: nat, x: nat): nat
      requires Valid() && ci < |cur|
    {
      x * McuWidth(ci)
    }

    /** The blocks of an MCU that lie within the width of the image. */
    function BlockCount(ci: nat, x: nat): nat
      requires Valid() && ci < |cur|
    {
      if x < McusPerRow() - 1 then McuWidth(ci) else LastColWidth(ci)
    }
  }

  /** `h` rows of `w` blocks. */
  function Stacked(w: nat, h: nat): nat {
    if h == 0 then 0 else Stacked(w, h - 1) + w
  }

  lemma {:induction false} StackedGrows(w: nat, m: nat, n: nat)
    requires m <= n
    ensures Stacked(w, m) <= Stacked(w, n)
    decreases n
  {
    if m < n { StackedGrows(w, m, n - 1); }
  }

  lemma {:induction false} BeforeGrows(s: Scan, m: nat, n: nat)
    requires s.Valid() && m <= n <= |s.cur|
    ensures s.BlocksBefore(m) <= s.BlocksBefore(n)
    decreases n
  {
    if m < n { BeforeGrows(s, m, n - 1); }
  }

  /** A row of blocks fits behind those that are in the MCU already. */
  lemma RowFits(s: Scan, ci: nat, yi: nat)
    requires s.Valid() && ci < |s.cur| && yi < s.McuHeight(ci)
    ensures s.BlocksBefore(ci) + Stacked(s.McuWidth(ci), yi) + s.McuWidth(ci) <= MAX_BLOCKS_IN_MCU
  {
    hide Scan.McuWidth, Scan.McuHeight;
    StackedGrows(s.McuWidth(ci), yi + 1, s.McuHeight(ci));
    BeforeGrows(s, ci + 1, |s.cur|);
  }

  /** Across: the blocks counted as inside are exactly those inside, at least one. */
  lemma Columns(s: Scan, ci: nat, x: nat)
    requires s.Valid() && ci < |s.cur| && x < s.McusPerRow()
    ensures 1 <= s.BlockCount(ci, x) <= s.McuWidth(ci)
    ensures s.Left(ci, x) + s.BlockCount(ci, x) <= s.f.WidthInBlocks(s.cur[ci])
    ensures s.BlockCount(ci, x) < s.McuWidth(ci) ==> s.Left(ci, x) + s.BlockCount(ci, x) == s.f.WidthInBlocks(s.cur[ci])
  {
    hide DivRoundUp, Frame.MaxH, LastOf;
    if s.Interleaved() {
      var h := s.f.comps[s.cur[ci]].h;
      Nested(s.f.width, h, s.f.MaxH());
      GroupEnds(h, x, s.f.Across());
      LastBound(s.f.WidthInBlocks(s.cur[ci]), h);
    }
  }

  /** Down: a row of an MCU is counted as inside if and only if it is; the first always is. */
  lemma Rows(s: Scan, ci: nat, r: nat, y: nat, yi: nat)
    requires s.Valid() && ci < |s.cur| && r < s.f.TotalIMcuRows() && y < s.McuRows(r) && yi < s.McuHeight(ci)
    ensures r < s.f.TotalIMcuRows() - 1 || y + yi < s.LastRowHeight(ci)
            <==> s.Top(ci, r, y) + yi < s.f.HeightInBlocks(s.cur[ci])
    ensures s.Top(ci, r, y) < s.f.HeightInBlocks(s.cur[ci])
    ensures s.Top(ci, r, y) + yi < (r + 1) * s.f.comps[s.cur[ci]].v <= s.f.TotalIMcuRows() * s.f.comps[s.cur[ci]].v
  {
    hide DivRoundUp, Frame.MaxV, LastOf;
    var v := s.f.comps[s.cur[ci]].v;
    Nested(s.f.height, v, s.f.MaxV());
    GroupEnds(v, r, s.f.TotalIMcuRows());
    LastBound(s.f.HeightInBlocks(s.cur[ci]), v);
  }

  lemma LastBound(n: nat, s: nat)
    requires s > 0
    ensures 1 <= LastOf(n, s) <= s
  {
  }
}
