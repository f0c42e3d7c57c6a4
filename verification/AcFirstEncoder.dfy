/** `encode_mcu_AC_first` of jcphuff.c. */
module AcFirstEncoder {
  import opened Shifts
  import opened BitWriter
  import opened CodeEvents
  import opened Zigzag
  import opened PointTransform
  import opened AcRefineRun
  import opened AcRefineModel
  import opened AcRefinePending
  import opened AcRefineEncoder
  import opened AcFirstModel
  import opened Wrappers

  /** The current run, ended here, and then `rest`. */
  function Ended(run: nat, rest: Events): Events
    requires run <= MAX_EOBRUN
  {
    if run == 0 then rest else Eob(run, rest)
  }

  /** What is due before block `i`. */
  function FirstPend(band: Band, blocks: seq<Block>, run: nat, i: nat): Events
    requires band.Valid() && i <= |blocks| && run <= MAX_EOBRUN
  {
    if run == 0 then FirstBlocks(band, blocks, i, 0)
    else
      var n := EmptyRun(band, blocks, run, i);
      Eob(run + n, FirstBlocks(band, blocks, i, n))
  }

  /** What is due inside block `i`, when everything before `k0` has been emitted. */
  function FirstDue(band: Band, blocks: seq<Block>, run: nat, i: nat, k0: nat): Events
    requires band.Valid() && i < |blocks| && run <= MAX_EOBRUN && k0 <= 64
  {
    if Empty(band, blocks[i]) then FirstPend(band, blocks, run, i)
    else Ended(run, FirstPlan(band, blocks, i, k0))
  }

  lemma EndedIsFlush(run: nat, bits: seq<nat>, rest: Events)
    requires run <= MAX_EOBRUN
    ensures Flush(run, bits, 0, rest) == Ended(run, rest)
  {
  }

  /** At the start of a block. */
  lemma DueStarts(band: Band, blocks: seq<Block>, run: nat, i: nat)
    requires band.Valid() && i < |blocks| && run <= MAX_EOBRUN
    ensures FirstDue(band, blocks, run, i, band.ss) == FirstPend(band, blocks, run, i)
  {
    hide FirstPlan, Empty;
  }

  /** At the end of an empty block, which joins the run. */
  lemma EmptyJoins(band: Band, blocks: seq<Block>, run: nat, i: nat)
    requires band.Valid() && i < |blocks| && run < MAX_EOBRUN && Empty(band, blocks[i])
    ensures FirstPend(band, blocks, run + 1, i + 1) == FirstPend(band, blocks, run, i)
  {
    hide Eob;
    if run == 0 {
      FirstPlanIsEob(band, blocks, i, band.ss);
    }
  }

  /** At the end of a block that is not empty: its last zeros begin a run, if there are any. */
  lemma RestJoins(band: Band, blocks: seq<Block>, i: nat, k0: nat)
    requires band.Valid() && i < |blocks| && k0 <= band.se && FirstNonzero(band, blocks[i], k0) > band.se
    ensures FirstPend(band, blocks, 1, i + 1) == FirstPlan(band, blocks, i, k0)
  {
    FirstPlanIsEob(band, blocks, i, k0);
  }

  lemma FullEnds(band: Band, blocks: seq<Block>, run: nat, i: nat)
    requires band.Valid() && i <= |blocks| && run <= MAX_EOBRUN && (run == MAX_EOBRUN || i == |blocks|)
    ensures FirstPend(band, blocks, run, i) == Ended(run, FirstBlocks(band, blocks, i, 0))
    ensures FirstPend(band, blocks, 0, i) == FirstBlocks(band, blocks, i, 0)
  {
    hide FirstBlocks, Eob;
  }

  /** Between two blocks of a first scan. */
  ghost predicate FirstReady(encoder: PhuffEncoder)
    reads encoder, encoder.writer, encoder.bitBuffer
  {
    encoder.Valid() && OneBitEach(encoder.bitBuffer[..]) && encoder.be == 0 && encoder.eobrun < MAX_EOBRUN
  }

  /** The low bits of the complement of a magnitude, in 32 bits. */
  lemma ComplementBits(v: nat, n: nat)
    requires v < Shl(1, n) && n <= 16
    ensures Shl(1, n) <= 0x1_0000_0000 && LowBits(0xFFFF_FFFF - v, n) == Shl(1, n) - 1 - v
  {
    hide Shl;
    Powers();
    ShlBy8(1, 24);
    ShlShl(1, 32 - n, n);
    ShlPositive(32 - n);
    ShlAdd(Shl(1, 32 - n) - 1, 1, n);
    LowBitsAre(Shl(1, 32 - n) - 1, Shl(1, n) - 1 - v, n);
  }

  /** Everything before and including a coefficient that is not zero. */
  method EmitCoef(encoder: PhuffEncoder, ghost blocks: seq<Block>, ghost i: nat, k: nat, temp: nat, negative: bool,
                  zeros: nat, ghost goal: Sink, ghost fine: bool) returns (ok: bool)
    requires FirstReady(encoder) && i < |blocks| && zeros <= k <= encoder.band.se
    requires var b := blocks[i];
             && encoder.band.ss <= k - zeros && temp == Size(encoder.band, b, k) > 0
             && negative == (b[Natural(k)] < 0) && FirstNonzero(encoder.band, b, k - zeros) == k
             && !Empty(encoder.band, b)
    requires encoder.Leads(FirstDue(encoder.band, blocks, encoder.eobrun, i, k - zeros), goal, fine)
    modifies encoder`eobrun, encoder`be, encoder.counts
    modifies encoder.writer`putBuffer, encoder.writer`putBits, encoder.writer`output, encoder.writer`data, encoder.writer`written
    ensures if ok
            then FirstReady(encoder) && encoder.eobrun == 0 && temp < Shl(1, MAX_COEF_BITS)
                 && encoder.Leads(FirstPlan(encoder.band, blocks, i, k + 1), goal, fine)
            else !fine || temp >= Shl(1, MAX_COEF_BITS)
  {
    hide PhuffEncoder.Leads, PhuffWriter.Valid, FirstPlan, Empty, FirstNonzero, OneBitEach, Size, Natural;
    ghost var band, b := encoder.band, blocks[i];
    ghost var rest := FirstPlan(band, blocks, i, k - zeros);
    EndedIsFlush(encoder.eobrun, encoder.bitBuffer[..], rest);
    ok := encoder.EmitEobrun(rest, goal, fine);
    if !ok { return; }
    var r;
    ok, r := EmitZeros(encoder, blocks, i, k, zeros, goal, fine);
    if !ok { return; }
    FirstPlanIsCoef(band, blocks, i, k - r, k);
    ok := EmitValue(encoder, band, b, r, k, temp, negative, FirstPlan(band, blocks, i, k + 1), goal, fine);
  }

  /** The sixteen-zeros symbols before a coefficient. */
  method EmitZeros(encoder: PhuffEncoder, ghost blocks: seq<Block>, ghost i: nat, ghost k: nat, zeros: nat,
                   ghost goal: Sink, ghost fine: bool) returns (ok: bool, r: nat)
    requires encoder.Valid() && i < |blocks| && zeros <= k <= encoder.band.se
    requires FirstNonzero(encoder.band, blocks[i], k - zeros) == k
    requires encoder.Leads(FirstPlan(encoder.band, blocks, i, k - zeros), goal, fine)
    modifies encoder.counts
    modifies encoder.writer`putBuffer, encoder.writer`putBits, encoder.writer`output, encoder.writer`data, encoder.writer`written
    ensures encoder.Valid()
    ensures if ok
            then r <= zeros && r <= 15 && FirstNonzero(encoder.band, blocks[i], k - r) == k
                 && encoder.Leads(FirstPlan(encoder.band, blocks, i, k - r), goal, fine)
            else !fine
  {
    hide PhuffEncoder.Leads, PhuffWriter.Valid, FirstPlan, FirstNonzero;
    ok, r := true, zeros;
    while r > 15
      invariant r <= zeros && encoder.Valid()
      invariant k - r <= encoder.band.se && FirstNonzero(encoder.band, blocks[i], k - r) == k
      invariant encoder.Leads(FirstPlan(encoder.band, blocks, i, k - r), goal, fine)
    {
      FirstPlanIsZeros(encoder.band, blocks, i, k - r, k);
      SkipZeros(encoder.band, blocks[i], k - r, k - r + 16);
      ok := encoder.EmitSymbol(0xF0, FirstPlan(encoder.band, blocks, i, k - r + 16), goal, fine);
      if !ok { return; }
      r := r - 16;
    }
  }

  lemma CoefficientIs(band: Band, b: Block, r: nat, k: nat, v: nat, n: nat, rest: Events)
    requires r <= 15 && k < 64 && v == Size(band, b, k) > 0 && n == BitLength(v) <= MAX_COEF_BITS
    ensures Coefficient(band, b, r, k, rest)
            == Cons(Symbol(0, (16 * r + n) as byte), Cons(Raw(SignedBits(b[Natural(k)] < 0, v, n), n), rest))
  {
    hide Shl, Log2, Size, SignedBits, Natural;
  }

  /** The lowest bits of a magnitude, or of its complement, are those to be appended. */
  lemma BitsSent(negative: bool, v: nat, n: nat)
    requires v < Shl(1, n) && n <= 16
    ensures Shl(1, n) <= 0x1_0000_0000
    ensures LowBits(if negative then 0xFFFF_FFFF - v else v, n) == SignedBits(negative, v, n)
  {
    hide Shl, LowBits;
    ComplementBits(v, n);
    LowBitsAre(0, v, n);
    ShlZero(n);
  }

  /** The symbol for a run of zeros and a size, and the bits of the value. */
  method EmitValue(encoder: PhuffEncoder, ghost band: Band, ghost b: Block, r: nat, ghost k: nat, temp: nat, negative: bool,
                   ghost rest: Events, ghost goal: Sink, ghost fine: bool) returns (ok: bool)
    requires encoder.Valid() && r <= 15 && k < 64 && temp == Size(band, b, k) > 0 && negative == (b[Natural(k)] < 0)
    requires encoder.Leads(Coefficient(band, b, r, k, rest), goal, fine)
    modifies encoder.counts
    modifies encoder.writer`putBuffer, encoder.writer`putBits, encoder.writer`output, encoder.writer`data, encoder.writer`written
    ensures encoder.Valid()
    ensures if ok then temp < Shl(1, MAX_COEF_BITS) && encoder.Leads(rest, goal, fine)
            else !fine || temp >= Shl(1, MAX_COEF_BITS)
  {
    hide PhuffEncoder.Leads, PhuffWriter.Valid, Shl, Log2, Size, Coefficient, SignedBits, LowBits;
    var nbits := HighBit(temp);
    nbits := nbits + 1;
    assert nbits == BitLength(temp);
    if nbits > MAX_COEF_BITS {
      ExponentOrder(nbits - 1, MAX_COEF_BITS);
      return false;
    }
    ExponentOrder(nbits, MAX_COEF_BITS);
    var bits := SignedBits(negative, temp, nbits);
    CoefficientIs(band, b, r, k, temp, nbits, rest);
    ok := encoder.EmitSymbol((16 * r + nbits) as byte, Cons(Raw(bits, nbits), rest), goal, fine);
    if !ok { return; }
    var temp2 := if negative then 0xFFFF_FFFF - temp else temp;
    BitsSent(negative, temp, nbits);
    encoder.EmitRaw(temp2, nbits, bits, rest, goal, fine);
  }

  /** The state of the loop at zigzag index `k`, with `r` zeros before it. */
  ghost predicate Scanned(encoder: PhuffEncoder, blocks: seq<Block>, i: nat, run: nat, k: nat, r: nat)
    requires i < |blocks|
    reads encoder, encoder.writer, encoder.bitBuffer
  {
    var b, band := blocks[i], encoder.band;
    && FirstReady(encoder)
    && band.ss + r <= k <= band.se + 1 && (forall j | k - r <= j < k :: Size(band, b, j) == 0)
    && (forall j | band.ss <= j < k :: Size(band, b, j) < Shl(1, MAX_COEF_BITS))
    && (Empty(band, b) ==> encoder.eobrun == run && r == k - band.ss)
    && (band.ss < k - r ==> encoder.eobrun == 0 && !Empty(band, b))
  }

  lemma ScannedZero(encoder: PhuffEncoder, blocks: seq<Block>, i: nat, run: nat, k: nat, r: nat)
    requires i < |blocks| && Scanned(encoder, blocks, i, run, k, r) && k <= encoder.band.se
    requires Size(encoder.band, blocks[i], k) == 0
    ensures Scanned(encoder, blocks, i, run, k + 1, r + 1)
  {
    ShlPositive(MAX_COEF_BITS);
  }

  /** One coefficient; gives the number of zeros behind it. */
  method EncodeCoef(encoder: PhuffEncoder, k: nat, coef: int, zeros: nat, ghost blocks: seq<Block>, ghost i: nat,
                    ghost run: nat, ghost goal: Sink, ghost fine: bool) returns (ok: bool, r: nat)
    requires i < |blocks| && k <= encoder.band.se && Scanned(encoder, blocks, i, run, k, zeros)
    requires coef == blocks[i][Natural(k)]
    requires encoder.Leads(FirstDue(encoder.band, blocks, encoder.eobrun, i, k - zeros), goal, fine)
    modifies encoder`eobrun, encoder`be, encoder.counts
    modifies encoder.writer`putBuffer, encoder.writer`putBits, encoder.writer`output, encoder.writer`data, encoder.writer`written
    ensures if ok
            then Scanned(encoder, blocks, i, run, k + 1, r)
                 && encoder.Leads(FirstDue(encoder.band, blocks, encoder.eobrun, i, k + 1 - r), goal, fine)
            else !fine || !Small(encoder.band, blocks[i])
  {
    hide PhuffEncoder.Leads, PhuffWriter.Valid, FirstPlan, FirstPend, FirstDue, Shl, OneBitEach, Natural, Empty;
    ok := true;
    var temp := coef;
    var negative := temp < 0;
    if negative {
      temp := -temp;
    }
    temp := Shr(temp, encoder.band.al);
    if temp == 0 {
      ScannedZero(encoder, blocks, i, run, k, zeros);
      r := zeros + 1;
    } else {
      NonzeroIs(encoder.band, blocks[i], k - zeros, k);
      NotEmpty(encoder.band, blocks[i], k);
      ok := EmitCoef(encoder, blocks, i, k, temp, negative, zeros, goal, fine);
      DueAfter(encoder.band, blocks, i, k + 1);
      r := 0;
    }
  }

  /** The loop over the coefficients of the band; gives the number of zeros at its end. */
  method EncodeCoefs(encoder: PhuffEncoder, block: array<int>, ghost blocks: seq<Block>, ghost i: nat,
                     ghost goal: Sink, ghost fine: bool) returns (ok: bool, r: nat)
    requires FirstReady(encoder) && i < |blocks| && block.Length == 64 && block[..] == blocks[i]
    requires block as object != encoder.counts as object
    requires encoder.Leads(FirstPend(encoder.band, blocks, encoder.eobrun, i), goal, fine)
    modifies encoder`eobrun, encoder`be, encoder.counts
    modifies encoder.writer`putBuffer, encoder.writer`putBits, encoder.writer`output, encoder.writer`data, encoder.writer`written
    ensures if ok
            then Scanned(encoder, blocks, i, old(encoder.eobrun), encoder.band.se + 1, r)
                 && encoder.Leads(FirstDue(encoder.band, blocks, encoder.eobrun, i, encoder.band.se + 1 - r), goal, fine)
            else !fine || !Small(encoder.band, blocks[i])
  {
    hide *;
    ghost var b, run := blocks[i], encoder.eobrun;
    NothingScanned(encoder, blocks, i);
    DueStarts(encoder.band, blocks, encoder.eobrun, i);
    ok, r := true, 0;
    for k := encoder.band.ss to encoder.band.se + 1
      invariant r <= k - encoder.band.ss && Scanned(encoder, blocks, i, run, k, r) && block[..] == b
      invariant encoder.eobrun <= MAX_EOBRUN
      invariant encoder.Leads(FirstDue(encoder.band, blocks, encoder.eobrun, i, k - r), goal, fine)
    {
      ok, r := EncodeCoef(encoder, k, block[Natural(k)], r, blocks, i, run, goal, fine);
      if !ok { return; }
      ScannedBounds(encoder, blocks, i, run, k + 1, r);
    }
  }

  lemma NothingScanned(encoder: PhuffEncoder, blocks: seq<Block>, i: nat)
    requires FirstReady(encoder) && i < |blocks|
    ensures encoder.band.Valid() && encoder.band.se <= 63 && encoder.eobrun <= MAX_EOBRUN
    ensures encoder.band.ss <= encoder.band.se && Scanned(encoder, blocks, i, encoder.eobrun, encoder.band.ss, 0)
  {
  }

  lemma ScannedBounds(encoder: PhuffEncoder, blocks: seq<Block>, i: nat, run: nat, k: nat, r: nat)
    requires i < |blocks| && Scanned(encoder, blocks, i, run, k, r)
    ensures encoder.band.ss + r <= k && encoder.eobrun <= MAX_EOBRUN && encoder.band.Valid()
  {
  }

  lemma NotEmpty(band: Band, b: Block, k: nat)
    requires band.Valid() && band.ss <= k <= band.se && Size(band, b, k) > 0
    ensures !Empty(band, b)
  {
  }

  lemma DueAfter(band: Band, blocks: seq<Block>, i: nat, k0: nat)
    requires band.Valid() && i < |blocks| && k0 <= 64 && !Empty(band, blocks[i])
    ensures FirstDue(band, blocks, 0, i, k0) == FirstPlan(band, blocks, i, k0)
  {
    hide FirstPlan, Empty;
  }

  /** Encodes block `i`, or counts its symbols.  False when a symbol has no code, or when a
      coefficient is out of range. */
  method EncodeMcu(encoder: PhuffEncoder, block: array<int>, ghost blocks: seq<Block>, ghost i: nat,
                   ghost goal: Sink, ghost fine: bool) returns (ok: bool)
    requires FirstReady(encoder) && i < |blocks| && block.Length == 64 && block[..] == blocks[i]
    requires block as object != encoder.counts as object
    requires encoder.Leads(FirstPend(encoder.band, blocks, encoder.eobrun, i), goal, fine)
    modifies encoder`eobrun, encoder`be, encoder.counts
    modifies encoder.writer`putBuffer, encoder.writer`putBits, encoder.writer`output, encoder.writer`data, encoder.writer`written
    ensures if ok
            then FirstReady(encoder) && Small(encoder.band, blocks[i])
                 && encoder.Leads(FirstPend(encoder.band, blocks, encoder.eobrun, i + 1), goal, fine)
            else !fine || !Small(encoder.band, blocks[i])
  {
    hide PhuffEncoder.Leads, PhuffWriter.Valid, FirstPlan, FirstPend, FirstDue, FirstBlocks, Shl, OneBitEach, Empty;
    ghost var run := encoder.eobrun;
    var r;
    ok, r := EncodeCoefs(encoder, block, blocks, i, goal, fine);
    if !ok { return; }
    BlockEnds(encoder, blocks, i, run, r);
    if r > 0 {
      encoder.eobrun := encoder.eobrun + 1;
      if encoder.eobrun == MAX_EOBRUN {
        ghost var rest := FirstBlocks(encoder.band, blocks, i + 1, 0);
        FullEnds(encoder.band, blocks, encoder.eobrun, i + 1);
        EndedIsFlush(encoder.eobrun, encoder.bitBuffer[..], rest);
        ok := encoder.EmitEobrun(rest, goal, fine);
      }
    }
  }

  /** What is due at the end of the band is what is due after the block has been counted. */
  lemma BlockEnds(encoder: PhuffEncoder, blocks: seq<Block>, i: nat, run: nat, r: nat)
    requires i < |blocks| && run < MAX_EOBRUN && Scanned(encoder, blocks, i, run, encoder.band.se + 1, r)
    ensures Small(encoder.band, blocks[i]) && encoder.eobrun < MAX_EOBRUN
    ensures FirstDue(encoder.band, blocks, encoder.eobrun, i, encoder.band.se + 1 - r)
            == FirstPend(encoder.band, blocks, if r > 0 then encoder.eobrun + 1 else encoder.eobrun, i + 1)
  {
    var band, k0 := encoder.band, encoder.band.se + 1 - r;
    NonzeroIs(band, blocks[i], k0, band.se + 1);
    hide FirstPlan, FirstPend, Shl, OneBitEach, FirstBlocks;
    if Empty(band, blocks[i]) {
      EmptyJoins(band, blocks, run, i);
    } else {
      AfterNonzero(band, blocks[i], k0);
      if r > 0 { RestJoins(band, blocks, i, k0); } else { EndJoins(band, blocks, i); }
    }
  }

  lemma EndJoins(band: Band, blocks: seq<Block>, i: nat)
    requires band.Valid() && i < |blocks|
    ensures FirstPlan(band, blocks, i, band.se + 1) == FirstPend(band, blocks, 0, i + 1)
  {
    FirstPlanEnds(band, blocks, i, band.se + 1);
  }

  lemma AfterNonzero(band: Band, b: Block, k0: nat)
    requires band.Valid() && !Empty(band, b) && k0 <= band.se + 1 && FirstNonzero(band, b, k0) == band.se + 1
    ensures k0 != band.ss
  {
  }
}
