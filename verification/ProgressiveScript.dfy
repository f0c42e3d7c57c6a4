/** Scan scripts: `validate_script` of jcmaster.c and `jpeg_simple_progression` of jcparam.c. */
module ProgressiveScript {
  import opened JpegLimits
  import opened Wrappers

  const MAX_AH_AL := 10

  datatype ScanInfo = ScanInfo(components: seq<int>, ss: int, se: int, ah: int, al: int)

  /** For each coefficient of each component the lowest bit that has been sent, or -1. */
  type Bitpos = seq<seq<int>>

  ghost predicate Shape(last: Bitpos, n: nat) {
    |last| == n && forall c | 0 <= c < n :: |last[c]| == DCTSIZE2
  }

  predicate ComponentsOk(s: ScanInfo, n: nat) {
    && 1 <= |s.components| <= MAX_COMPS_IN_SCAN
    && (forall i | 0 <= i < |s.components| :: 0 <= s.components[i] < n)
    && forall i | 0 < i < |s.components| :: s.components[i - 1] < s.components[i]
  }

  /** The parameters of a progressive scan; DC and AC do not mix, and AC scans are of one
      component. */
  predicate BandOk(s: ScanInfo) {
    && 0 <= s.ss <= s.se < DCTSIZE2 && 0 <= s.ah <= MAX_AH_AL && 0 <= s.al <= MAX_AH_AL
    && if s.ss == 0 then s.se == 0 else |s.components| == 1
  }

  /** The scan sends the next bit of component `c`, or the first bits of coefficients that
      have not been sent yet; AC only after DC. */
  predicate Continues(s: ScanInfo, last: seq<int>)
    requires BandOk(s) && |last| == DCTSIZE2
  {
    && (s.ss != 0 ==> last[0] >= 0)
    && forall k | s.ss <= k <= s.se :: if last[k] < 0 then s.ah == 0 else s.ah == last[k] && s.al == s.ah - 1
  }

  ghost predicate Follows(s: ScanInfo, last: Bitpos, n: nat)
    requires Shape(last, n)
  {
    ComponentsOk(s, n) && BandOk(s) && forall i | 0 <= i < |s.components| :: Continues(s, last[s.components[i]])
  }

  ghost predicate Sent(s: ScanInfo, c: int, k: int, upTo: nat)
    requires upTo <= |s.components|
  {
    s.ss <= k <= s.se && c in s.components[..upTo]
  }

  /** The bit positions after the scan. */
  ghost function After(s: ScanInfo, last: Bitpos, n: nat): (next: Bitpos)
    requires Shape(last, n)
    ensures Shape(next, n)
  {
    seq(n, c requires 0 <= c < n =>
      seq(DCTSIZE2, k requires 0 <= k < DCTSIZE2 => if Sent(s, c, k, |s.components|) then s.al else last[c][k]))
  }

  ghost function Nothing(n: nat): (last: Bitpos)
    ensures Shape(last, n)
  {
    seq(n, _ => seq(DCTSIZE2, _ => -1))
  }

  /** The bit positions after all the scans, if each of them follows what came before. */
  ghost function Run(script: seq<ScanInfo>, n: nat): (last: Option<Bitpos>)
    ensures last.Some? ==> Shape(last.value, n)
  {
    if script == [] then Some(Nothing(n))
    else
      var before := Run(script[..|script| - 1], n);
      if before.Some? && Follows(script[|script| - 1], before.value, n)
      then Some(After(script[|script| - 1], before.value, n))
      else None
  }

  /** A progressive script: every scan follows the ones before, and all DC is sent. */
  ghost predicate Progressive(script: seq<ScanInfo>, n: nat) {
    var last := Run(script, n);
    script != [] && last.Some? && forall c | 0 <= c < n :: last.value[c][0] >= 0
  }

  lemma RunNext(script: seq<ScanInfo>, s: ScanInfo, n: nat, last: Bitpos)
    requires Shape(last, n) && Run(script, n) == Some(last)
    ensures Run(script + [s], n) == if Follows(s, last, n) then Some(After(s, last, n)) else None
  {
    var more := script + [s];
    assert more[..|more| - 1] == script && more[|more| - 1] == s;
  }

  lemma {:induction false} RunBefore(script: seq<ScanInfo>, n: nat, k: nat)
    requires k <= |script| && Run(script, n).Some?
    ensures Run(script[..k], n).Some?
    decreases |script|
  {
    if k == |script| {
      assert script[..k] == script;
    } else {
      var before := script[..|script| - 1];
      RunBefore(before, n, k);
      assert before[..k] == script[..k];
    }
  }

  // ------------------------------------------------------------- the validation

  /** A sequential script: whole components, each of them once. */
  ghost predicate SequentialUpTo(script: seq<ScanInfo>, n: nat, m: nat)
    requires m <= |script|
  {
    && (forall i | 0 <= i < m :: ComponentsOk(script[i], n) && Whole(script[i]))
    && forall i, j, c | 0 <= i < j < m && c in script[i].components :: c !in script[j].components
  }

  predicate Whole(s: ScanInfo) {
    s.ss == 0 && s.se == DCTSIZE2 - 1 && s.ah == 0 && s.al == 0
  }

  ghost predicate Sends(script: seq<ScanInfo>, m: nat, c: int)
    requires m <= |script|
  {
    exists i | 0 <= i < m :: c in script[i].components
  }

  ghost predicate Sequential(script: seq<ScanInfo>, n: nat) {
    script != [] && SequentialUpTo(script, n, |script|) && forall c | 0 <= c < n :: Sends(script, |script|, c)
  }

  /** The matrix as a value. */
  ghost function Matrix(m: array2<int>): Bitpos
    reads m
  {
    seq(m.Length0, c requires 0 <= c < m.Length0 reads m =>
      seq(m.Length1, k requires 0 <= k < m.Length1 reads m => m[c, k]))
  }

  method CheckComponents(s: ScanInfo, n: nat) returns (ok: bool)
    ensures ok <==> ComponentsOk(s, n)
  {
    var ncomps := |s.components|;
    if ncomps <= 0 || ncomps > MAX_COMPS_IN_SCAN { return false; }
    for ci := 0 to ncomps
      invariant forall i | 0 <= i < ci :: 0 <= s.components[i] < n
      invariant forall i | 0 < i < ci :: s.components[i - 1] < s.components[i]
    {
      var thisi := s.components[ci];
      if thisi < 0 || thisi >= n { return false; }
      if ci > 0 && thisi <= s.components[ci - 1] { return false; }
    }
    ok := true;
  }

  /** The part of `After` that the first `m` components make up. */
  ghost predicate PartSent(s: ScanInfo, was: Bitpos, now: Bitpos, n: nat, m: nat)
  {
    && Shape(was, n) && Shape(now, n) && m <= |s.components|
    && forall c, k | 0 <= c < n && 0 <= k < DCTSIZE2 :: now[c][k] == if Sent(s, c, k, m) then s.al else was[c][k]
  }

  /** The loop over the coefficients of one component. */
  method CheckBand(s: ScanInfo, lastBitpos: array2<int>, c: nat, ghost last: seq<int>) returns (ok: bool)
    requires BandOk(s) && c < lastBitpos.Length0 && lastBitpos.Length1 == DCTSIZE2 == |last|
    requires forall k | 0 <= k < DCTSIZE2 :: lastBitpos[c, k] == last[k]
    modifies lastBitpos
    ensures ok <==> Continues(s, last)
    ensures ok ==> forall d, k | 0 <= d < lastBitpos.Length0 && 0 <= k < DCTSIZE2 ::
              lastBitpos[d, k] == if d == c && s.ss <= k <= s.se then s.al else old(lastBitpos[d, k])
  {
    if s.ss != 0 && lastBitpos[c, 0] < 0 { return false; }
    for coefi := s.ss to s.se + 1
      invariant forall d, k | 0 <= d < lastBitpos.Length0 && 0 <= k < DCTSIZE2 ::
                  lastBitpos[d, k] == if d == c && s.ss <= k < coefi then s.al else old(lastBitpos[d, k])
      invariant forall k | s.ss <= k < coefi :: if last[k] < 0 then s.ah == 0 else s.ah == last[k] && s.al == s.ah - 1
    {
      assert lastBitpos[c, coefi] == last[coefi];
      if lastBitpos[c, coefi] < 0 {
        if s.ah != 0 { return false; }
      } else {
        if s.ah != lastBitpos[c, coefi] || s.al != s.ah - 1 { return false; }
      }
      lastBitpos[c, coefi] := s.al;
    }
    ok := true;
  }

  lemma PartWhole(s: ScanInfo, was: Bitpos, now: Bitpos, n: nat)
    requires PartSent(s, was, now, n, |s.components|)
    ensures now == After(s, was, n)
  {
    forall c | 0 <= c < n ensures now[c] == After(s, was, n)[c] {
      assert forall k | 0 <= k < DCTSIZE2 :: now[c][k] == After(s, was, n)[c][k];
    }
  }

  /** One more component. */
  lemma PartMore(s: ScanInfo, was: Bitpos, mid: Bitpos, now: Bitpos, n: nat, m: nat)
    requires PartSent(s, was, mid, n, m) && m < |s.components| && Shape(now, n)
    requires forall c, k | 0 <= c < n && 0 <= k < DCTSIZE2 ::
               now[c][k] == if c == s.components[m] && s.ss <= k <= s.se then s.al else mid[c][k]
    ensures PartSent(s, was, now, n, m + 1)
  {
    assert s.components[..m + 1] == s.components[..m] + [s.components[m]];
  }

  /** One scan of a progressive script. */
  method CheckProgressive(s: ScanInfo, lastBitpos: array2<int>, n: nat, ghost last: Bitpos) returns (ok: bool)
    requires ComponentsOk(s, n) && lastBitpos.Length0 == n && lastBitpos.Length1 == DCTSIZE2
    requires Shape(last, n) && Matrix(lastBitpos) == last
    modifies lastBitpos
    ensures ok <==> Follows(s, last, n)
    ensures ok ==> Matrix(lastBitpos) == After(s, last, n)
  {
    hide Continues;
    if s.ss < 0 || s.ss >= DCTSIZE2 || s.se < s.ss || s.se >= DCTSIZE2 ||
       s.ah < 0 || s.ah > MAX_AH_AL || s.al < 0 || s.al > MAX_AH_AL { return false; }
    if s.ss == 0 {
      if s.se != 0 { return false; }
    } else {
      if |s.components| != 1 { return false; }
    }
    for ci := 0 to |s.components|
      invariant PartSent(s, last, Matrix(lastBitpos), n, ci)
      invariant forall i | 0 <= i < ci :: Continues(s, last[s.components[i]])
    {
      var c := s.components[ci];
      ghost var mid := Matrix(lastBitpos);
      RowSame(s, last, mid, n, ci);
      forall k | 0 <= k < DCTSIZE2 ensures lastBitpos[c, k] == last[c][k] { assert mid[c][k] == lastBitpos[c, k]; }
      ok := CheckBand(s, lastBitpos, c, last[c]);
      if !ok { return; }
      PartMore(s, last, mid, Matrix(lastBitpos), n, ci);
    }
    ok := true;
    PartWhole(s, last, Matrix(lastBitpos), n);
  }

  lemma RowSame(s: ScanInfo, was: Bitpos, now: Bitpos, n: nat, m: nat)
    requires PartSent(s, was, now, n, m) && m < |s.components| && ComponentsOk(s, n)
    ensures now[s.components[m]] == was[s.components[m]]
  {
    NotYet(s, n, m);
  }

  lemma {:induction false} Ascending(s: ScanInfo, n: nat, i: nat, j: nat)
    requires ComponentsOk(s, n) && i < j < |s.components|
    ensures s.components[i] < s.components[j]
    decreases j
  {
    if i < j - 1 { Ascending(s, n, i, j - 1); }
  }

  lemma NotYet(s: ScanInfo, n: nat, m: nat)
    requires ComponentsOk(s, n) && m < |s.components|
    ensures s.components[m] !in s.components[..m]
  {
    forall i | 0 <= i < m ensures s.components[i] != s.components[m] { Ascending(s, n, i, m); }
  }

  /** One scan of a sequential script. */
  method CheckSequential(s: ScanInfo, componentSent: array<bool>, n: nat, ghost script: seq<ScanInfo>, ghost m: nat)
    returns (ok: bool)
    requires m < |script| && s == script[m] && ComponentsOk(s, n) && componentSent.Length == n
    requires SequentialUpTo(script, n, m) && forall c | 0 <= c < n :: componentSent[c] <==> Sends(script, m, c)
    modifies componentSent
    ensures ok <==> SequentialUpTo(script, n, m + 1)
    ensures ok ==> forall c | 0 <= c < n :: componentSent[c] <==> Sends(script, m + 1, c)
  {
    if s.ss != 0 || s.se != DCTSIZE2 - 1 || s.ah != 0 || s.al != 0 { return false; }
    for ci := 0 to |s.components|
      invariant forall i | 0 <= i < ci :: !Sends(script, m, s.components[i])
      invariant forall c | 0 <= c < n :: componentSent[c] <==> Sends(script, m, c) || c in s.components[..ci]
    {
      var thisi := s.components[ci];
      NotYet(s, n, ci);
      if componentSent[thisi] {
        ghost var i :| 0 <= i < m && thisi in script[i].components;
        assert thisi in script[m].components;
        return false;
      }
      componentSent[thisi] := true;
    }
    ok := true;
    SentOnce(script, n, m);
  }

  lemma SentOnce(script: seq<ScanInfo>, n: nat, m: nat)
    requires m < |script| && ComponentsOk(script[m], n) && Whole(script[m]) && SequentialUpTo(script, n, m)
    requires forall i | 0 <= i < |script[m].components| :: !Sends(script, m, script[m].components[i])
    ensures SequentialUpTo(script, n, m + 1)
    ensures forall c :: Sends(script, m + 1, c) <==> Sends(script, m, c) || c in script[m].components
  {
    forall c ensures Sends(script, m + 1, c) <==> Sends(script, m, c) || c in script[m].components {
      if Sends(script, m, c) { var i :| 0 <= i < m && c in script[i].components; assert c in script[i].components; }
      if c in script[m].components { assert Sends(script, m + 1, c); }
    }
    forall i, c | 0 <= i < m && c in script[i].components ensures c !in script[m].components {
      assert Sends(script, m, c);
    }
  }

  /** `validate_script`, for `n` components. */
  method ValidateScript(script: seq<ScanInfo>, n: nat) returns (ok: bool, progressive: bool)
    requires n <= MAX_COMPONENTS
    ensures ok <==> if progressive then Progressive(script, n) else Sequential(script, n)
    ensures progressive <==> script != [] && (script[0].ss != 0 || script[0].se != DCTSIZE2 - 1)
  {
    hide After, Continues, ComponentsOk, Whole, BandOk, Follows;
    if |script| <= 0 { return false, false; }
    progressive := script[0].ss != 0 || script[0].se != DCTSIZE2 - 1;
    var lastBitpos := new int[n, DCTSIZE2]((c, k) => -1);
    var componentSent := new bool[n](_ => false);
    ghost var last := Nothing(n);
    assert forall c | 0 <= c < n :: Matrix(lastBitpos)[c] == last[c];
    for scanno := 0 to |script|
      invariant progressive ==> Shape(last, n) && Run(script[..scanno], n) == Some(last) && Matrix(lastBitpos) == last
      invariant !progressive ==> SequentialUpTo(script, n, scanno)
                                 && forall c | 0 <= c < n :: componentSent[c] <==> Sends(script, scanno, c)
    {
      var s := script[scanno];
      assert script[..scanno + 1] == script[..scanno] + [s];
      ok := CheckComponents(s, n);
      if progressive { RunStops(script, scanno, n, last); }
      if !ok { return; }
      if progressive {
        RunNext(script[..scanno], s, n, last);
        ok := CheckProgressive(s, lastBitpos, n, last);
        if !ok { return; }
        last := After(s, last, n);
      } else {
        ok := CheckSequential(s, componentSent, n, script, scanno);
        if !ok { return; }
      }
    }
    assert script[..|script|] == script;
    if progressive {
      ok := CheckAllDc(lastBitpos, n, last);
    } else {
      ok := CheckAllSent(componentSent, n, script);
    }
  }

  method CheckAllDc(lastBitpos: array2<int>, n: nat, ghost last: Bitpos) returns (ok: bool)
    requires lastBitpos.Length0 == n && lastBitpos.Length1 == DCTSIZE2 && Shape(last, n) && Matrix(lastBitpos) == last
    ensures ok <==> forall c | 0 <= c < n :: last[c][0] >= 0
  {
    for ci := 0 to n
      invariant forall c | 0 <= c < ci :: last[c][0] >= 0
    {
      assert last[ci][0] == lastBitpos[ci, 0];
      if lastBitpos[ci, 0] < 0 { return false; }
    }
    ok := true;
  }

  method CheckAllSent(componentSent: array<bool>, n: nat, ghost script: seq<ScanInfo>) returns (ok: bool)
    requires componentSent.Length == n && forall c | 0 <= c < n :: componentSent[c] <==> Sends(script, |script|, c)
    ensures ok <==> forall c | 0 <= c < n :: Sends(script, |script|, c)
  {
    for ci := 0 to n
      invariant forall c | 0 <= c < ci :: Sends(script, |script|, c)
    {
      if !componentSent[ci] { return false; }
    }
    ok := true;
  }

  /** A scan that does not follow spoils the whole script. */
  lemma RunStops(script: seq<ScanInfo>, k: nat, n: nat, last: Bitpos)
    requires k < |script| && Shape(last, n) && Run(script[..k], n) == Some(last)
    ensures Run(script, n).Some? ==> Follows(script[k], last, n)
  {
    assert script[..k + 1] == script[..k] + [script[k]];
    RunNext(script[..k], script[k], n, last);
    if Run(script, n).Some? { RunBefore(script, n, k + 1); }
  }

  // ------------------------------------------------------ the recommended script

  /** `fill_scans`: one scan for each component. */
  function Scans(n: nat, ss: int, se: int, ah: int, al: int): (scans: seq<ScanInfo>)
    ensures |scans| == n
  {
    seq(n, c => ScanInfo([c], ss, se, ah, al))
  }

  /** `fill_dc_scans`: an interleaved DC scan if possible. */
  function DcScans(n: nat, ah: int, al: int): seq<ScanInfo> {
    if n <= MAX_COMPS_IN_SCAN then [ScanInfo(seq(n, c => c), 0, 0, ah, al)] else Scans(n, 0, 0, ah, al)
  }

  /** A single AC scan. */
  function One(ci: int, ss: int, se: int, ah: int, al: int): (scans: seq<ScanInfo>)
    ensures |scans| == 1
  {
    [ScanInfo([ci], ss, se, ah, al)]
  }

  method FillAScan(scans: array<ScanInfo>, scanptr: nat, ci: int, ss: int, se: int, ah: int, al: int) returns (next: nat)
    requires scanptr < scans.Length
    modifies scans
    ensures next == scanptr + 1 && scans[..next] == old(scans[..scanptr]) + One(ci, ss, se, ah, al)
  {
    scans[scanptr] := ScanInfo([ci], ss, se, ah, al);
    next := scanptr + 1;
  }

  method FillScans(scans: array<ScanInfo>, scanptr: nat, n: nat, ss: int, se: int, ah: int, al: int) returns (next: nat)
    requires scanptr + n <= scans.Length
    modifies scans
    ensures next == scanptr + n && scans[..next] == old(scans[..scanptr]) + Scans(n, ss, se, ah, al)
  {
    for ci := 0 to n
      invariant scans[..scanptr + ci] == old(scans[..scanptr]) + Scans(n, ss, se, ah, al)[..ci]
    {
      scans[scanptr + ci] := ScanInfo([ci], ss, se, ah, al);
    }
    next := scanptr + n;
  }

  method FillDcScans(scans: array<ScanInfo>, scanptr: nat, n: nat, ah: int, al: int) returns (next: nat)
    requires scanptr + |DcScans(n, ah, al)| <= scans.Length
    modifies scans
    ensures next == scanptr + |DcScans(n, ah, al)| && scans[..next] == old(scans[..scanptr]) + DcScans(n, ah, al)
  {
    if n <= MAX_COMPS_IN_SCAN {
      scans[scanptr] := ScanInfo(seq(n, c => c), 0, 0, ah, al);
      next := scanptr + 1;
    } else {
      next := FillScans(scans, scanptr, n, 0, 0, ah, al);
    }
  }

  /** The script for colour images in YCbCr. */
  function ColorScript(): seq<ScanInfo> {
    DcScans(3, 0, 1) + One(0, 1, 5, 0, 2) + One(2, 1, 63, 0, 1) + One(1, 1, 63, 0, 1) + One(0, 6, 63, 0, 2)
    + One(0, 1, 63, 2, 1) + DcScans(3, 1, 0) + One(2, 1, 63, 1, 0) + One(1, 1, 63, 1, 0) + One(0, 1, 63, 1, 0)
  }

  /** The script for all others. */
  function PlainScript(n: nat): seq<ScanInfo> {
    DcScans(n, 0, 1) + Scans(n, 1, 5, 0, 2) + Scans(n, 6, 63, 0, 2) + Scans(n, 1, 63, 2, 1) + DcScans(n, 1, 0)
    + Scans(n, 1, 63, 1, 0)
  }

  /** The coefficients of a component in three groups: DC, the first five, and the rest. */
  function Levels(dc: int, low: int, high: int): (row: seq<int>)
    ensures |row| == DCTSIZE2
  {
    seq(DCTSIZE2, k => if k == 0 then dc else if k <= 5 then low else high)
  }

  /** All bits of everything have been sent. */
  ghost function AllSent(n: nat): (last: Bitpos)
    ensures Shape(last, n)
  {
    seq(n, _ => Levels(0, 0, 0))
  }

  /** What a scan of these coefficients does to the row of a component. */
  ghost predicate Moves(ss: int, se: int, al: int, row: seq<int>, next: seq<int>) {
    |row| == |next| == DCTSIZE2 && forall k | 0 <= k < DCTSIZE2 :: next[k] == if ss <= k <= se then al else row[k]
  }

  /** A scan of one component that continues it. */
  lemma OneRuns(script: seq<ScanInfo>, n: nat, last: Bitpos, c: nat, ss: int, se: int, ah: int, al: int, next: seq<int>)
    requires Shape(last, n) && Run(script, n) == Some(last) && c < n
    requires var s := ScanInfo([c], ss, se, ah, al); BandOk(s) && Continues(s, last[c])
    requires Moves(ss, se, al, last[c], next)
    ensures Run(script + One(c, ss, se, ah, al), n) == Some(last[c := next])
  {
    hide Run, Continues, After;
    var s := ScanInfo([c], ss, se, ah, al);
    RunNext(script, s, n, last);
    assert s.components[..1] == [c as int];
    assert Follows(s, last, n);
    PartWhole(s, last, last[c := next], n);
  }

  ghost function Same(n: nat, row: seq<int>): (last: Bitpos)
    requires |row| == DCTSIZE2
    ensures Shape(last, n)
  {
    seq(n, _ => row)
  }

  lemma {:induction false} ScansRun(script: seq<ScanInfo>, n: nat, m: nat, row: seq<int>, next: seq<int>,
                                    ss: int, se: int, ah: int, al: int)
    requires m <= n && |row| == |next| == DCTSIZE2 && Run(script, n) == Some(Same(n, row))
    requires var s := ScanInfo([0], ss, se, ah, al); BandOk(s) && Continues(s, row)
    requires Moves(ss, se, al, row, next)
    ensures Run(script + Scans(n, ss, se, ah, al)[..m], n) == Some(seq(n, c => if c < m then next else row))
  {
    hide Run, After;
    var scans := Scans(n, ss, se, ah, al);
    if m == 0 {
      assert script + scans[..0] == script;
      assert seq(n, c => if c < 0 then next else row) == Same(n, row);
    } else {
      ScansRun(script, n, m - 1, row, next, ss, se, ah, al);
      var last: Bitpos := seq(n, c => if c < m - 1 then next else row);
      assert last[m - 1] == row;
      OneRuns(script + scans[..m - 1], n, last, m - 1, ss, se, ah, al, next);
      assert script + scans[..m] == script + scans[..m - 1] + One(m - 1, ss, se, ah, al);
      assert last[m - 1 := next] == seq(n, c => if c < m then next else row);
    }
  }

  /** One scan for each component takes all of them on. */
  lemma AllScans(script: seq<ScanInfo>, n: nat, row: seq<int>, next: seq<int>, ss: int, se: int, ah: int, al: int)
    requires |row| == |next| == DCTSIZE2 && Run(script, n) == Some(Same(n, row))
    requires var s := ScanInfo([0], ss, se, ah, al); BandOk(s) && Continues(s, row)
    requires Moves(ss, se, al, row, next)
    ensures Run(script + Scans(n, ss, se, ah, al), n) == Some(Same(n, next))
  {
    hide Run, Moves, Continues, BandOk;
    ScansRun(script, n, n, row, next, ss, se, ah, al);
    assert Scans(n, ss, se, ah, al)[..n] == Scans(n, ss, se, ah, al);
    assert seq(n, c => if c < n then next else row) == Same(n, next);
  }

  /** So do the DC scans, interleaved or not. */
  lemma AllDcScans(script: seq<ScanInfo>, n: nat, row: seq<int>, next: seq<int>, ah: int, al: int)
    requires 1 <= n && |row| == |next| == DCTSIZE2 && Run(script, n) == Some(Same(n, row))
    requires 0 <= ah <= MAX_AH_AL && 0 <= al <= MAX_AH_AL
    requires if row[0] < 0 then ah == 0 else ah == row[0] && al == ah - 1
    requires Moves(0, 0, al, row, next)
    ensures Run(script + DcScans(n, ah, al), n) == Some(Same(n, next))
  {
    hide Run, After;
    if n <= MAX_COMPS_IN_SCAN {
      var s := ScanInfo(seq(n, c => c), 0, 0, ah, al);
      RunNext(script, s, n, Same(n, row));
      assert s.components[..n] == s.components;
      forall c: int | 0 <= c < n ensures c in s.components { assert s.components[c] == c; }
      PartWhole(s, Same(n, row), Same(n, next), n);
    } else {
      AllScans(script, n, row, next, 0, 0, ah, al);
    }
  }

  lemma StartSame(n: nat)
    ensures Run([], n) == Some(Same(n, Levels(-1, -1, -1)))
  {
    assert Levels(-1, -1, -1) == seq(DCTSIZE2, _ => -1);
    assert Nothing(n) == Same(n, Levels(-1, -1, -1));
  }

  /** The script for any number of components is accepted and sends everything. */
  lemma PlainAccepted(n: nat)
    requires 1 <= n
    ensures Progressive(PlainScript(n), n) && Run(PlainScript(n), n) == Some(AllSent(n))
    ensures |PlainScript(n)| == if n > MAX_COMPS_IN_SCAN then 6 * n else 2 + 4 * n
  {
    hide Run, Scans, DcScans;
    StartSame(n);
    var s0: seq<ScanInfo> := [];
    AllDcScans(s0, n, Levels(-1, -1, -1), Levels(1, -1, -1), 0, 1);
    var s1 := s0 + DcScans(n, 0, 1);
    AllScans(s1, n, Levels(1, -1, -1), Levels(1, 2, -1), 1, 5, 0, 2);
    var s2 := s1 + Scans(n, 1, 5, 0, 2);
    AllScans(s2, n, Levels(1, 2, -1), Levels(1, 2, 2), 6, 63, 0, 2);
    var s3 := s2 + Scans(n, 6, 63, 0, 2);
    AllScans(s3, n, Levels(1, 2, 2), Levels(1, 1, 1), 1, 63, 2, 1);
    var s4 := s3 + Scans(n, 1, 63, 2, 1);
    AllDcScans(s4, n, Levels(1, 1, 1), Levels(0, 1, 1), 1, 0);
    var s5 := s4 + DcScans(n, 1, 0);
    AllScans(s5, n, Levels(0, 1, 1), Levels(0, 0, 0), 1, 63, 1, 0);
    assert s0 + DcScans(n, 0, 1) == DcScans(n, 0, 1);
    assert s5 + Scans(n, 1, 63, 1, 0) == PlainScript(n);
    DcScansLength(n, 0, 1);
    DcScansLength(n, 1, 0);
    SameAllSent(n);
  }

  lemma DcScansLength(n: nat, ah: int, al: int)
    ensures |DcScans(n, ah, al)| == if n <= MAX_COMPS_IN_SCAN then 1 else n
  {
  }

  lemma SameAllSent(n: nat)
    ensures Same(n, Levels(0, 0, 0)) == AllSent(n)
  {
  }

  /** The state of three components. */
  ghost function Three(y: seq<int>, cb: seq<int>, cr: seq<int>): (last: Bitpos)
    requires |y| == |cb| == |cr| == DCTSIZE2
    ensures Shape(last, 3)
  {
    [y, cb, cr]
  }

  /** The script for colour images is accepted and sends everything. */
  lemma ColorAccepted()
    ensures Progressive(ColorScript(), 3) && Run(ColorScript(), 3) == Some(AllSent(3)) && |ColorScript()| == 10
  {
    hide Run, DcScans, One;
    StartSame(3);
    AllDcScans([], 3, Levels(-1, -1, -1), Levels(1, -1, -1), 0, 1);
    var s1 := DcScans(3, 0, 1);
    assert [] + s1 == s1;
    var d := Levels(1, -1, -1);
    var l1 := Three(d, d, d);
    assert Same(3, d) == l1;
    ColorFirst(s1);
    var s6 := s1 + One(0, 1, 5, 0, 2) + One(2, 1, 63, 0, 1) + One(1, 1, 63, 0, 1) + One(0, 6, 63, 0, 2) + One(0, 1, 63, 2, 1);
    var m := Levels(1, 1, 1);
    assert Same(3, m) == Three(m, m, m);
    AllDcScans(s6, 3, m, Levels(0, 1, 1), 1, 0);
    var s7 := s6 + DcScans(3, 1, 0);
    assert Same(3, Levels(0, 1, 1)) == Three(Levels(0, 1, 1), Levels(0, 1, 1), Levels(0, 1, 1));
    ColorLast(s7);
    assert ColorScript() == s7 + One(2, 1, 63, 1, 0) + One(1, 1, 63, 1, 0) + One(0, 1, 63, 1, 0);
    assert Three(Levels(0, 0, 0), Levels(0, 0, 0), Levels(0, 0, 0)) == AllSent(3);
    DcScansLength(3, 0, 1);
    DcScansLength(3, 1, 0);
  }

  lemma ColorFirst(s1: seq<ScanInfo>)
    requires Run(s1, 3) == Some(Three(Levels(1, -1, -1), Levels(1, -1, -1), Levels(1, -1, -1)))
    ensures Run(s1 + One(0, 1, 5, 0, 2) + One(2, 1, 63, 0, 1) + One(1, 1, 63, 0, 1) + One(0, 6, 63, 0, 2) + One(0, 1, 63, 2, 1), 3)
            == Some(Three(Levels(1, 1, 1), Levels(1, 1, 1), Levels(1, 1, 1)))
  {
    hide Run, One;
    var d, e, f, g := Levels(1, -1, -1), Levels(1, 2, -1), Levels(1, 1, 1), Levels(1, 2, 2);
    OneRuns(s1, 3, Three(d, d, d), 0, 1, 5, 0, 2, e);
    assert Three(d, d, d)[0 := e] == Three(e, d, d);
    var s2 := s1 + One(0, 1, 5, 0, 2);
    OneRuns(s2, 3, Three(e, d, d), 2, 1, 63, 0, 1, f);
    assert Three(e, d, d)[2 := f] == Three(e, d, f);
    var s3 := s2 + One(2, 1, 63, 0, 1);
    OneRuns(s3, 3, Three(e, d, f), 1, 1, 63, 0, 1, f);
    assert Three(e, d, f)[1 := f] == Three(e, f, f);
    var s4 := s3 + One(1, 1, 63, 0, 1);
    OneRuns(s4, 3, Three(e, f, f), 0, 6, 63, 0, 2, g);
    assert Three(e, f, f)[0 := g] == Three(g, f, f);
    var s5 := s4 + One(0, 6, 63, 0, 2);
    OneRuns(s5, 3, Three(g, f, f), 0, 1, 63, 2, 1, f);
    assert Three(g, f, f)[0 := f] == Three(f, f, f);
  }

  lemma ColorLast(s7: seq<ScanInfo>)
    requires Run(s7, 3) == Some(Three(Levels(0, 1, 1), Levels(0, 1, 1), Levels(0, 1, 1)))
    ensures Run(s7 + One(2, 1, 63, 1, 0) + One(1, 1, 63, 1, 0) + One(0, 1, 63, 1, 0), 3)
            == Some(Three(Levels(0, 0, 0), Levels(0, 0, 0), Levels(0, 0, 0)))
  {
    hide Run, One;
    var m, z := Levels(0, 1, 1), Levels(0, 0, 0);
    OneRuns(s7, 3, Three(m, m, m), 2, 1, 63, 1, 0, z);
    assert Three(m, m, m)[2 := z] == Three(m, m, z);
    var s8 := s7 + One(2, 1, 63, 1, 0);
    OneRuns(s8, 3, Three(m, m, z), 1, 1, 63, 1, 0, z);
    assert Three(m, m, z)[1 := z] == Three(m, z, z);
    var s9 := s8 + One(1, 1, 63, 1, 0);
    OneRuns(s9, 3, Three(m, z, z), 0, 1, 63, 1, 0, z);
    assert Three(m, z, z)[0 := z] == Three(z, z, z);
  }

  method FillColor(scans: array<ScanInfo>) returns (scanptr: nat)
    requires scans.Length == 10
    modifies scans
    ensures scanptr == 10 && scans[..] == ColorScript()
  {
    hide Scans, One, DcScans;
    DcScansLength(3, 0, 1);
    DcScansLength(3, 1, 0);
    scanptr := FillDcScans(scans, 0, 3, 0, 1);
    assert scans[..scanptr] == DcScans(3, 0, 1);
    scanptr := FillAScan(scans, scanptr, 0, 1, 5, 0, 2);
    scanptr := FillAScan(scans, scanptr, 2, 1, 63, 0, 1);
    scanptr := FillAScan(scans, scanptr, 1, 1, 63, 0, 1);
    scanptr := FillAScan(scans, scanptr, 0, 6, 63, 0, 2);
    scanptr := FillAScan(scans, scanptr, 0, 1, 63, 2, 1);
    ghost var first := DcScans(3, 0, 1) + One(0, 1, 5, 0, 2) + One(2, 1, 63, 0, 1) + One(1, 1, 63, 0, 1) + One(0, 6, 63, 0, 2)
                       + One(0, 1, 63, 2, 1);
    assert scans[..scanptr] == first;
    scanptr := FillDcScans(scans, scanptr, 3, 1, 0);
    scanptr := FillAScan(scans, scanptr, 2, 1, 63, 1, 0);
    scanptr := FillAScan(scans, scanptr, 1, 1, 63, 1, 0);
    scanptr := FillAScan(scans, scanptr, 0, 1, 63, 1, 0);
    assert scans[..scanptr] == first + DcScans(3, 1, 0) + One(2, 1, 63, 1, 0) + One(1, 1, 63, 1, 0) + One(0, 1, 63, 1, 0);
    assert scans[..scanptr] == scans[..];
  }

  method FillPlain(scans: array<ScanInfo>, n: nat) returns (scanptr: nat)
    requires scans.Length == if n > MAX_COMPS_IN_SCAN then 6 * n else 2 + 4 * n
    modifies scans
    ensures scanptr == scans.Length && scans[..] == PlainScript(n)
  {
    hide Scans, DcScans;
    DcScansLength(n, 0, 1);
    DcScansLength(n, 1, 0);
    scanptr := FillDcScans(scans, 0, n, 0, 1);
    scanptr := FillScans(scans, scanptr, n, 1, 5, 0, 2);
    scanptr := FillScans(scans, scanptr, n, 6, 63, 0, 2);
    scanptr := FillScans(scans, scanptr, n, 1, 63, 2, 1);
    scanptr := FillDcScans(scans, scanptr, n, 1, 0);
    scanptr := FillScans(scans, scanptr, n, 1, 63, 1, 0);
    assert scans[..0] + DcScans(n, 0, 1) == DcScans(n, 0, 1);
    assert scans[..scanptr] == PlainScript(n);
    assert scans[..scanptr] == scans[..];
  }

  function SimpleScript(n: nat, isYCbCr: bool): seq<ScanInfo> {
    if n == 3 && isYCbCr then ColorScript() else PlainScript(n)
  }

  /** `jpeg_simple_progression`: the space figured beforehand is exactly what is filled. */
  method SimpleProgression(n: nat, isYCbCr: bool) returns (script: seq<ScanInfo>)
    requires 1 <= n <= MAX_COMPONENTS
    ensures script == SimpleScript(n, isYCbCr) && Progressive(script, n) && Run(script, n) == Some(AllSent(n))
    ensures |script| == if n == 3 && isYCbCr then 10 else if n > MAX_COMPS_IN_SCAN then 6 * n else 2 + 4 * n
  {
    hide Run, Scans, Follows, PlainScript, ColorScript, Progressive;
    var nscans;
    if n == 3 && isYCbCr {
      nscans := 10;
    } else {
      if n > MAX_COMPS_IN_SCAN { nscans := 6 * n; } else { nscans := 2 + 4 * n; }
    }
    var scans := new ScanInfo[nscans](_ => ScanInfo([], 0, 0, 0, 0));
    var filled;
    if n == 3 && isYCbCr {
      filled := FillColor(scans);
      ColorAccepted();
    } else {
      filled := FillPlain(scans, n);
      PlainAccepted(n);
    }
    script := scans[..];
  }
}
