/** What AC refinement does with the bits of one block (figure G.7 of ITU-T T.81, seen from
  the decoder), and why it may be interrupted at any bit. */
module AcRefineRun {
  import opened Shifts
  import opened BitStrings
  import opened CanonicalCodes
  import opened Zigzag
  import opened PointTransform

  /** A code table and the bits of the segment. */
  datatype Source = Source(bits: seq<byte>, huffval: seq<byte>, stream: seq<bool>) {
    ghost predicate Valid() {
      |bits| == 17 && |huffval| == 256
    }
  }

  /** The spectral band and the bit position of a scan. */
  datatype Band = Band(ss: nat, se: nat, al: nat) {
    predicate Valid() {
      1 <= ss <= se <= 63
    }
  }

  /** Before a symbol; passing `r` zeros to place `s` if it is not 0; or behind the last
      new coefficient of the block, `eobrun` blocks from the end of the run. */
  datatype Phase = Symbols | Skipping(r: nat, s: int) | Rest(eobrun: nat)

  /** `newnz` lists the positions of the coefficients that are new in this block. */
  datatype State = State(phase: Phase, block: seq<int>, k: nat, at: nat, newnz: seq<nat>) {
    predicate Valid() {
      && |block| == 64 && k <= 65
      && (forall i | 0 <= i < |newnz| :: newnz[i] < 64)
      && (phase.Skipping? ==> k <= 64)
      && (phase.Rest? ==> phase.eobrun > 0)
    }

    function Rank(): nat {
      if phase.Symbols? then 1 else 0
    }
  }

  datatype Result = Finished(block: seq<int>, eobrun: nat, at: nat) | Stopped(block: seq<int>)

  /** Makes the listed positions zero again. */
  function Undo(block: seq<int>, newnz: seq<nat>, n: nat): (b: seq<int>)
    requires |block| == 64 && n <= |newnz| && forall i | 0 <= i < |newnz| :: newnz[i] < 64
    ensures |b| == 64
    decreases n
  {
    if n == 0 then block else Undo(block[newnz[n - 1] := 0], newnz, n - 1)
  }

  /** The value of a new coefficient. */
  function NewValue(bit: nat, al: nat): int {
    Signed(bit == 0, Shl(1, al))
  }

  /** The coefficient at zigzag index `k` corrected by the bit at `at`. */
  function Corrected(st: State, stream: seq<bool>, al: nat): (b: seq<int>)
    requires st.Valid() && st.k < 64
    ensures |b| == 64
  {
    st.block[Natural(st.k) := Correct(st.block[Natural(st.k)], BitAt(stream, st.at) == 1, al)]
  }

  function Placed(st: State): (next: State)
    requires st.Valid() && st.phase.Skipping?
    ensures next.Valid()
  {
    if st.phase.s == 0 then State(Symbols, st.block, st.k + 1, st.at, st.newnz)
    else
      State(Symbols, st.block[Natural(st.k) := st.phase.s], st.k + 1, st.at, st.newnz + [Natural(st.k)])
  }

  /** One step: `None` when it needs a bit behind `limit`. */
  datatype Step = Next(st: State) | Last(result: Result)

  function Stop(st: State): Step
    requires st.Valid()
  {
    Last(Stopped(Undo(st.block, st.newnz, |st.newnz|)))
  }

  function SymbolStep(src: Source, limit: nat, band: Band, st: State): (step: Step)
    requires src.Valid() && band.Valid() && st.Valid() && st.phase.Symbols?
    ensures step.Next? ==> step.st.Valid() && step.st.k == st.k <= 63 && !step.st.phase.Symbols?
  {
    if st.k > band.se then Last(Finished(st.block, 0, st.at))
    else
      var (symbol, next) := DecodeAt(src.bits, src.huffval, src.stream, st.at);
      var r, s := symbol / 16, symbol % 16;
      if next > limit then Stop(st)
      else if s != 0 then
        if next + 1 > limit then Stop(st)
        else Next(st.(phase := Skipping(r, NewValue(BitAt(src.stream, next), band.al)), at := next + 1))
      else if r == 15 then Next(st.(phase := Skipping(15, 0), at := next))
      else if next + r > limit then Stop(st)
      else Next(RunStarts(st, r, NumberAt(src.stream, next, r), next + r))
  }

  function RunStarts(st: State, r: nat, extra: nat, at: nat): (next: State)
    requires st.Valid()
    ensures next.Valid()
  {
    ShlPositive(r);
    st.(phase := Rest(Shl(1, r) + extra), at := at)
  }

  function CoefStep(src: Source, limit: nat, band: Band, st: State): (step: Step)
    requires src.Valid() && band.Valid() && st.Valid() && !st.phase.Symbols?
    ensures step.Next? ==> step.st.Valid() && step.st.k == st.k + 1
  {
    if st.k <= band.se && st.block[Natural(st.k)] != 0 then
      if st.at + 1 > limit then Stop(st)
      else Next(st.(block := Corrected(st, src.stream, band.al), k := st.k + 1, at := st.at + 1))
    else
      match st.phase
      case Skipping(r, s) =>
        if st.k <= band.se && r > 0 then Next(st.(phase := Skipping(r - 1, s), k := st.k + 1)) else Next(Placed(st))
      case Rest(e) =>
        if st.k <= band.se then Next(st.(k := st.k + 1)) else Last(Finished(st.block, e - 1, st.at))
  }

  function TakeStep(src: Source, limit: nat, band: Band, st: State): (step: Step)
    requires src.Valid() && band.Valid() && st.Valid()
    ensures step.Next? ==> step.st.Valid() && step.st.k + step.st.Rank() <= 66
    ensures step.Next? ==> st.k < step.st.k || (st.k == step.st.k && step.st.Rank() < st.Rank())
  {
    if st.phase.Symbols? then SymbolStep(src, limit, band, st) else CoefStep(src, limit, band, st)
  }

  /** The run from `st` on when only the bits before `limit` are there: it finishes the
      block, or stops at the first bit missing and undoes what it must. */
  function Run(src: Source, limit: nat, band: Band, st: State): Result
    requires src.Valid() && band.Valid() && st.Valid()
    decreases 65 - st.k, st.Rank()
  {
    match TakeStep(src, limit, band, st)
    case Next(next) => Run(src, limit, band, next)
    case Last(result) => result
  }

  function Start(band: Band, block: seq<int>, eobrun: nat, at: nat): (st: State)
    requires band.Valid() && |block| == 64
    ensures st.Valid()
  {
    State(if eobrun == 0 then Symbols else Rest(eobrun), block, band.ss, at, [])
  }

  // --------------------------------------------------------------- suspension

  /** Everything before zigzag index `k` stays as it is, but for undoing what is new. */
  ghost predicate KeepsBefore(st: State, block: seq<int>) {
    && |st.block| == |block| == 64
    && forall j | 0 <= j < st.k && j < 64 ::
         block[Natural(j)] == if Natural(j) in st.newnz then 0 else st.block[Natural(j)]
  }

  lemma {:induction false} UndoIs(block: seq<int>, newnz: seq<nat>, n: nat)
    requires |block| == 64 && n <= |newnz| && forall i | 0 <= i < |newnz| :: newnz[i] < 64
    ensures forall p | 0 <= p < 64 :: Undo(block, newnz, n)[p] == if p in newnz[..n] then 0 else block[p]
    decreases n
  {
    if n > 0 {
      UndoIs(block[newnz[n - 1] := 0], newnz, n - 1);
      assert newnz[..n] == newnz[..n - 1] + [newnz[n - 1]];
    }
  }

  /** The new coefficients are behind the run. */
  ghost predicate NewBefore(st: State) {
    forall i | 0 <= i < |st.newnz| :: st.newnz[i] < 64 && Inverse(st.newnz[i]) < st.k
  }

  lemma NotNew(st: State)
    requires NewBefore(st) && st.k < 64
    ensures Natural(st.k) !in st.newnz
  {
  }

  /** A step changes nothing before its coefficient. */
  lemma StepKeeps(src: Source, limit: nat, band: Band, st: State, block: seq<int>)
    requires src.Valid() && band.Valid() && st.Valid() && st.k <= band.se && NewBefore(st)
    requires TakeStep(src, limit, band, st).Next?
    ensures NewBefore(TakeStep(src, limit, band, st).st)
    ensures KeepsBefore(TakeStep(src, limit, band, st).st, block) ==> KeepsBefore(st, block)
  {
    hide DecodeAt, Correct, NumberAt, BitAt;
    var next := TakeStep(src, limit, band, st).st;
    forall j | 0 <= j < st.k && j < 64
      ensures KeepsBefore(next, block) ==>
                block[Natural(j)] == if Natural(j) in st.newnz then 0 else st.block[Natural(j)]
    {
      if Natural(j) == Natural(st.k) { NaturalInjective(j, st.k); }
    }
  }

  /** A stopped block, with the coefficients that are new in `st` put back. */
  ghost function Overlay(block: seq<int>, st: State): (again: State)
    requires |block| == 64 == |st.block|
  {
    st.(block := seq(64, p requires 0 <= p < 64 => if p in st.newnz then st.block[p] else block[p]))
  }

  /** The run that starts again takes the same step: correction bits already applied are
      applied once more without effect. */
  lemma SameStep(src: Source, limit: nat, band: Band, st: State, block: seq<int>)
    requires src.Valid() && band.Valid() && st.Valid() && st.k <= band.se && NewBefore(st) && |block| == 64
    requires TakeStep(src, limit, band, st).Next? && KeepsBefore(TakeStep(src, limit, band, st).st, block)
    ensures Overlay(block, st).Valid()
    ensures TakeStep(src, limit, band, Overlay(block, st)) == Next(Overlay(block, TakeStep(src, limit, band, st).st))
  {
    hide DecodeAt, Correct, NumberAt, BitAt;
    var next, again := TakeStep(src, limit, band, st).st, Overlay(block, st);
    var p := Natural(st.k);
    NotNew(st);
    assert !st.phase.Symbols? ==> next.k == st.k + 1 && block[p] == if p in next.newnz then 0 else next.block[p];
    if st.phase.Symbols? {
      assert again.block == Overlay(block, next).block;
    } else if st.block[p] != 0 {
      CorrectTwice(st.block[p], BitAt(src.stream, st.at) == 1, band.al);
      assert Corrected(again, src.stream, band.al) == again.block == Overlay(block, next).block;
    } else {
      var step := TakeStep(src, limit, band, again);
      assert step.Next? && step.st.block == Overlay(block, next).block;
    }
  }

  /** A run that stops does so inside the band. */
  lemma StopsInside(src: Source, limit: nat, band: Band, st: State)
    requires src.Valid() && band.Valid() && st.Valid()
    ensures st.k > band.se ==> Run(src, limit, band, st).Finished?
  {
    if st.k > band.se && st.phase.Skipping? {
      assert Run(src, limit, band, st) == Run(src, limit, band, Placed(st));
    }
  }

  lemma UndoneAll(st: State)
    requires st.Valid()
    ensures var block := Undo(st.block, st.newnz, |st.newnz|); KeepsBefore(st, block) && Overlay(block, st) == st
  {
    UndoIs(st.block, st.newnz, |st.newnz|);
    assert st.newnz[..|st.newnz|] == st.newnz;
    var block := Undo(st.block, st.newnz, |st.newnz|);
    assert Overlay(block, st).block == st.block;
  }

  /** With more bits than before, a step that could be taken is the same. */
  lemma MoreBits(src: Source, limit: nat, more: nat, band: Band, st: State)
    requires src.Valid() && band.Valid() && st.Valid() && limit <= more && TakeStep(src, limit, band, st).Next?
    ensures TakeStep(src, more, band, st) == TakeStep(src, limit, band, st)
  {
    hide DecodeAt, Correct, NumberAt, BitAt;
  }

  lemma {:induction false} RunsAgain(src: Source, limit: nat, more: nat, band: Band, st: State, block: seq<int>)
    requires src.Valid() && band.Valid() && st.Valid() && NewBefore(st) && limit <= more && |block| == 64
    requires Run(src, limit, band, st) == Stopped(block)
    ensures KeepsBefore(st, block) && Overlay(block, st).Valid()
    ensures Run(src, more, band, Overlay(block, st)) == Run(src, more, band, st)
    decreases 65 - st.k, st.Rank()
  {
    hide TakeStep, Undo, KeepsBefore, NewBefore;
    StopsInside(src, limit, band, st);
    match TakeStep(src, limit, band, st)
    case Next(next) =>
      MoreBits(src, limit, more, band, st);
      StepKeeps(src, limit, band, st, block);
      RunsAgain(src, limit, more, band, next, block);
      SameStep(src, limit, band, st, block);
      MoreBits(src, limit, more, band, Overlay(block, st));
    case Last(result) =>
      StoppedHere(src, limit, band, st);
      UndoneAll(st);
  }

  lemma StoppedHere(src: Source, limit: nat, band: Band, st: State)
    requires src.Valid() && band.Valid() && st.Valid() && TakeStep(src, limit, band, st).Last?
    requires TakeStep(src, limit, band, st).result.Stopped?
    ensures TakeStep(src, limit, band, st).result.block == Undo(st.block, st.newnz, |st.newnz|)
  {
  }

  /** Suspension is transparent.  When the bits before `limit` were not enough and the block
      was left as `block`, entering again with more bits gives the same as one
      uninterrupted call on the original block, on any bits and any coefficients. */
  lemma SuspensionTransparent(src: Source, limit: nat, more: nat, band: Band, original: seq<int>, eobrun: nat, at: nat,
                              block: seq<int>)
    requires src.Valid() && band.Valid() && |original| == 64 && limit <= more
    requires Run(src, limit, band, Start(band, original, eobrun, at)) == Stopped(block)
    ensures |block| == 64
    ensures Run(src, more, band, Start(band, block, eobrun, at)) == Run(src, more, band, Start(band, original, eobrun, at))
  {
    hide Run;
    var st := Start(band, original, eobrun, at);
    StoppedSize(src, limit, band, st);
    RunsAgain(src, limit, more, band, st, block);
    assert Overlay(block, st).block == block;
    assert Overlay(block, st) == Start(band, block, eobrun, at);
  }

  lemma {:induction false} StoppedSize(src: Source, limit: nat, band: Band, st: State)
    requires src.Valid() && band.Valid() && st.Valid()
    ensures |Run(src, limit, band, st).block| == 64
    decreases 65 - st.k, st.Rank()
  {
    if TakeStep(src, limit, band, st).Next? { StoppedSize(src, limit, band, TakeStep(src, limit, band, st).st); }
  }
}
