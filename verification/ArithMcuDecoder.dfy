/** `decode_mcu` of jdarith.c: sequential arithmetic decoding of MCUs.

  On any input the methods keep the coder usable or report an error.  On the output of
  the encoder, when the decisions pending are those of a certain value followed by
  `rest`, they return that value and leave exactly `rest` pending.
  */
module ArithMcuDecoder {
  import opened JpegLimits
  import opened Shifts
  import opened QmInterval
  import opened Wrappers
  import opened Zigzag
  import opened EntropySource
  import opened Resync
  import opened ArithModel
  import opened ArithDecoder

  /** `BadCode` is the warning about data no encoder can have written, `CantSuspend` the
      error exit at the end of the input. */
  datatype Outcome = Done | BadCode | CantSuspend

  /** The rest of the magnitude category; returns the last bin and the leading bit. */
  method DecodeCategory(coder: Decoder, first: Bin, ghost e0: nat, m0: nat, ghost v: nat, ghost rest: Plan)
    returns (o: Outcome, st: Bin, m: nat, ghost e: nat)
    requires coder.Valid() && m0 == Shl(1, e0) && e0 <= 14
    modifies coder
    ensures o.Done? ==> coder.Valid() && m == Shl(1, e) && e <= 14
    ensures coder.Met() == old(coder.Met()) && (o.CantSuspend? ==> coder.Met().Exhausted?)
    ensures old(coder.Expecting()) && old(coder.pending) == Unary(first, v, rest) && e0 + Log2(v) <= 14 ==>
              o.Done? && coder.Expecting() && coder.pending == rest
              && st == Plus(first, Log2(v)) && e == e0 + Log2(v)
  {
    hide Decoder.Met, Decoder.Valid, Decoder.Expecting, Decoder.State, Shl, Unary, Plus, Log2;
    ghost var sync := coder.Expecting() && coder.pending == Unary(first, v, rest) && e0 + Log2(v) <= 14;
    st, m, e := first, m0, e0;
    ghost var v2 := v;
    while true
      invariant coder.Valid() && coder.Met() == old(coder.Met())
      invariant m == Shl(1, e) && e <= 14
      invariant sync ==> coder.Expecting() && coder.pending == Unary(st, v2, rest)
      invariant sync ==> Plus(st, Log2(v2)) == Plus(first, Log2(v)) && e + Log2(v2) == e0 + Log2(v)
      decreases 15 - e
    {
      UnaryHead(st, v2, rest);
      var bit := coder.ArithDecode(st);
      if bit.None? {
        return CantSuspend, st, m, e;
      }
      if !bit.value {
        break;
      }
      Doubled(e);
      m := 2 * m;
      e := e + 1;
      if m == 0x8000 {
        return BadCode, st, m, e;
      }
      st := Plus(st, 1);
      v2 := v2 / 2;
    }
    o := Done;
  }

  lemma Doubled(e: nat)
    requires e <= 14
    ensures 2 * Shl(1, e) == Shl(1, e + 1)
    ensures Shl(1, e + 1) == 0x8000 <==> e == 14
  {
    Powers();
    if e < 14 { ShlExponent(e + 1, 15); }
  }

  /** The magnitude bit pattern below `m0`. */
  method DecodePattern(coder: Decoder, st: Bin, ghost e0: nat, m0: nat, ghost w: nat, ghost rest: Plan)
    returns (o: Outcome, v: nat)
    requires coder.Valid() && (m0 == 0 || m0 == Shl(1, e0))
    modifies coder
    ensures o.Done? ==> coder.Valid()
    ensures coder.Met() == old(coder.Met()) && (o.CantSuspend? ==> coder.Met().Exhausted?)
    ensures old(coder.Expecting()) && old(coder.pending) == Pattern(st, m0, w, rest) && m0 == Leading(w) ==>
              o.Done? && coder.Expecting() && coder.pending == rest && v == w
  {
    hide Decoder.Met, Decoder.Valid, Decoder.Expecting, Decoder.State, Cut, Leading;
    ghost var sync := coder.Expecting() && coder.pending == Pattern(st, m0, w, rest) && m0 == Leading(w);
    LeadingIsTop(w);
    if m0 == 0 {
      return Done, 0;
    }
    v := m0;
    var m := m0;
    ghost var e := e0;
    while m / 2 != 0
      invariant coder.Valid() && coder.Met() == old(coder.Met())
      invariant m == Shl(1, e)
      invariant sync ==> coder.Expecting() && coder.pending == Pattern(st, m, w, rest) && v == Cut(w, m)
    {
      e := e - 1;
      m := m / 2;
      CutHalf(w, m);
      var bit := coder.ArithDecode(st);
      if bit.None? {
        return CantSuspend, v;
      }
      if bit.value {
        v := v + m;  // bitwise or: the bit is still clear
      }
    }
    CutAll(w, e);
    o := Done;
  }

  lemma CutAll(w: nat, e: nat)
    requires Shl(1, e) / 2 == 0
    ensures Cut(w, Shl(1, e)) == w
  {
    ShlOrder(0, 1, e);
    ShlZero(e);
  }

  lemma {:induction false} LogBounds(w: nat)
    requires w > 0
    ensures Shl(1, Log2(w)) <= w < 2 * Shl(1, Log2(w))
  {
    if w / 2 != 0 { LogBounds(w / 2); }
  }

  lemma LeadingIsTop(w: nat)
    ensures w == 0 <==> Leading(w) == 0
    ensures Cut(w, Leading(w)) == Leading(w)
  {
    if w > 0 {
      LogBounds(w);
      Quotient(w, Leading(w), 1);
    }
  }

  /** A DC magnitude less one, and its leading bit. */
  method DecodeDcMagnitude(coder: Decoder, first: Bin, tbl: nat, ghost w: nat, ghost rest: Plan)
    returns (o: Outcome, m: nat, v: nat)
    requires coder.Valid()
    modifies coder
    ensures o.Done? ==> coder.Valid()
    ensures coder.Met() == old(coder.Met()) && (o.CantSuspend? ==> coder.Met().Exhausted?)
    ensures old(coder.Expecting()) && old(coder.pending) == DcMagnitude(first, tbl, w, rest) && w < 0x8000 ==>
              o.Done? && coder.Expecting() && coder.pending == rest && v == w && m == Leading(w)
  {
    hide Decoder.Met, Decoder.Valid, Decoder.Expecting, Decoder.State, Unary, Pattern;
    ghost var bits := Pattern(Dc(tbl, 34 + Log2(w)), Shl(1, Log2(w)), w, rest);
    var st := first;
    m, v := 0, 0;
    var bit := coder.ArithDecode(st);
    if bit.None? {
      return CantSuspend, m, v;
    }
    if bit.value {
      LogFits(w);
      ghost var e;
      o, st, m, e := DecodeCategory(coder, Dc(tbl, 20), 0, 1, w, bits);
      if !o.Done? {
        return;
      }
      o, v := DecodePattern(coder, Plus(st, 14), e, m, w, rest);
    } else {
      o := Done;
    }
  }

  lemma LogFits(w: nat)
    ensures w < 0x8000 ==> Log2(w) <= 14
  {
    if w < 0x8000 {
      FifteenBits(w);
      Log2Bound(w, 14);
    }
  }

  /** The conditioning category. */
  method Establish(cond: Conditioning, m: nat, negative: bool) returns (next: nat)
    ensures next == Category(cond, m, negative)
  {
    if m < Shl(1, cond.dcL) / 2 {
      next := 0;
    } else if m > Shl(1, cond.dcU) / 2 {
      next := 12 + if negative then 4 else 0;
    } else {
      next := 4 + if negative then 4 else 0;
    }
  }

  /** `Decode_DC_DIFF` (figure F.19); returns the difference and the next context. */
  method DecodeDc(coder: Decoder, tbl: nat, cond: Conditioning, context: nat, ghost diff: int, ghost rest: Plan)
    returns (o: Outcome, v: int, next: nat)
    requires coder.Valid()
    modifies coder
    ensures o.Done? ==> coder.Valid()
    ensures coder.Met() == old(coder.Met()) && (o.CantSuspend? ==> coder.Met().Exhausted?)
    ensures old(coder.Expecting()) && old(coder.pending) == DcDecisions(tbl, context, diff, rest)
            && Abs(diff) <= 0x8000 ==>
              o.Done? && coder.Expecting() && coder.pending == rest && v == diff && next == NextContext(cond, diff)
  {
    hide Decoder.Met, Decoder.Valid, Decoder.Expecting, Decoder.State, NonzeroDc, Leading, Category;
    v, next := 0, 0;
    var nonzero := coder.ArithDecode(Dc(tbl, context));
    if nonzero.None? {
      o := CantSuspend;
    } else if !nonzero.value {
      o := Done;
    } else {
      o, v, next := DecodeNonzeroDc(coder, tbl, cond, context, diff, rest);
    }
  }

  method DecodeNonzeroDc(coder: Decoder, tbl: nat, cond: Conditioning, context: nat, ghost diff: int,
                         ghost rest: Plan)
    returns (o: Outcome, v: int, next: nat)
    requires coder.Valid()
    modifies coder
    ensures o.Done? ==> coder.Valid()
    ensures coder.Met() == old(coder.Met()) && (o.CantSuspend? ==> coder.Met().Exhausted?)
    ensures old(coder.Expecting()) && diff != 0 && Abs(diff) <= 0x8000
            && old(coder.pending) == NonzeroDc(tbl, context, diff, rest) ==>
              o.Done? && coder.Expecting() && coder.pending == rest && v == diff && next == NextContext(cond, diff)
  {
    hide Decoder.Met, Decoder.Valid, Decoder.Expecting, Decoder.State, DcMagnitude, Leading, Category;
    ghost var w := if diff == 0 then 0 else Abs(diff) - 1;
    v, next := 0, 0;
    var sign := coder.ArithDecode(Dc(tbl, context + 1));
    if sign.None? {
      return CantSuspend, v, next;
    }
    var m;
    o, m, v := DecodeDcMagnitude(coder, Dc(tbl, context + if sign.value then 3 else 2), tbl, w, rest);
    next := Establish(cond, m, sign.value);
    v := if sign.value then -(v + 1) else v + 1;
  }

  /** An AC magnitude less one. */
  method DecodeAcMagnitude(coder: Decoder, first: Bin, high: Bin, ghost w: nat, ghost rest: Plan)
    returns (o: Outcome, v: nat)
    requires coder.Valid()
    modifies coder
    ensures o.Done? ==> coder.Valid()
    ensures coder.Met() == old(coder.Met()) && (o.CantSuspend? ==> coder.Met().Exhausted?)
    ensures old(coder.Expecting()) && old(coder.pending) == AcMagnitude(first, high, w, rest) && w < 0x8000 ==>
              o.Done? && coder.Expecting() && coder.pending == rest && v == w
  {
    hide Decoder.Met, Decoder.Valid, Decoder.Expecting, Decoder.State, HighMagnitude;
    v := 0;
    var bit := coder.ArithDecode(first);
    if bit.None? {
      return CantSuspend, v;
    }
    if !bit.value {
      return Done, 0;
    }
    bit := coder.ArithDecode(first);
    if bit.None? {
      return CantSuspend, v;
    }
    if !bit.value {
      return Done, 1;
    }
    o, v := DecodeHigh(coder, high, w, rest);
  }

  /** The shared categories. */
  method DecodeHigh(coder: Decoder, high: Bin, ghost w: nat, ghost rest: Plan) returns (o: Outcome, v: nat)
    requires coder.Valid()
    modifies coder
    ensures o.Done? ==> coder.Valid()
    ensures coder.Met() == old(coder.Met()) && (o.CantSuspend? ==> coder.Met().Exhausted?)
    ensures old(coder.Expecting()) && old(coder.pending) == HighMagnitude(high, w, rest) && 2 <= w < 0x8000 ==>
              o.Done? && coder.Expecting() && coder.pending == rest && v == w
  {
    hide Decoder.Met, Decoder.Valid, Decoder.Expecting, Decoder.State, Unary, Pattern;
    ghost var bits := Pattern(Plus(high, Log2(w / 2) + 14), Shl(2, Log2(w / 2)), w, rest);
    LogFits(w);
    ShlDouble(1, Log2(w / 2));
    ghost var e;
    var st, m;
    v := 0;
    o, st, m, e := DecodeCategory(coder, high, 1, 2, w / 2, bits);
    if o.Done? {
      o, v := DecodePattern(coder, Plus(st, 14), e, m, w, rest);
    }
  }

  /** The sign and magnitude of a nonzero AC coefficient. */
  method DecodeSignedAc(coder: Decoder, tbl: nat, cond: Conditioning, k: nat, ghost z: int, ghost rest: Plan)
    returns (o: Outcome, v: int)
    requires coder.Valid() && 1 <= k <= 63
    modifies coder
    ensures o.Done? ==> coder.Valid()
    ensures coder.Met() == old(coder.Met()) && (o.CantSuspend? ==> coder.Met().Exhausted?)
    ensures old(coder.Expecting()) && z != 0 && Abs(z) <= 0x8000
            && old(coder.pending) == SignedAc(tbl, cond, k, z, rest) ==>
              o.Done? && coder.Expecting() && coder.pending == rest && v == z
  {
    hide Decoder.Met, Decoder.Valid, Decoder.Expecting, Decoder.State, AcMagnitude;
    ghost var w := if z == 0 then 0 else Abs(z) - 1;
    v := 0;
    var sign := coder.ArithDecode(Fixed);
    if sign.None? {
      return CantSuspend, v;
    }
    o, v := DecodeAcMagnitude(coder, Ac(tbl, 3 * (k - 1) + 2), HighBin(tbl, cond, k), w, rest);
    v := if sign.value then -(v + 1) else v + 1;
  }

  /** Skips zero coefficients; `k` is then the index of a nonzero one. */
  method DecodeZeros(coder: Decoder, tbl: nat, cond: Conditioning, first: nat,
                     ghost z: seq<int>, ghost ke: nat, ghost rest: Plan)
    returns (o: Outcome, k: nat)
    requires coder.Valid() && 1 <= first <= 63 && |z| == 64 && ke < 64
    modifies coder
    ensures o.Done? ==> coder.Valid() && first <= k <= 63
    ensures coder.Met() == old(coder.Met()) && (o.CantSuspend? ==> coder.Met().Exhausted?)
    ensures old(coder.Expecting()) && first <= ke && z[ke] != 0
            && old(coder.pending) == AcRun(tbl, cond, z, ke, first, rest) ==>
              o.Done? && coder.Expecting() && k == RunEnd(z, first) && k <= ke
              && Cons(Decision(Ac(tbl, 3 * (k - 1) + 1), true), coder.pending) == AcRun(tbl, cond, z, ke, k, rest)
  {
    hide Decoder.Met, Decoder.Valid, Decoder.Expecting, Decoder.State, AcRun, RunEnd;
    ghost var sync := coder.Expecting() && first <= ke && z[ke] != 0
                      && coder.pending == AcRun(tbl, cond, z, ke, first, rest);
    k := first;
    while true
      invariant coder.Valid() && coder.Met() == old(coder.Met()) && first <= k <= 63
      invariant sync ==> k <= ke && RunEnd(z, k) == RunEnd(z, first)
      invariant sync ==> coder.Expecting() && coder.pending == AcRun(tbl, cond, z, ke, k, rest)
      decreases 64 - k
    {
      if sync {
        RunHead(tbl, cond, z, ke, k, rest);
      }
      var nonzero := coder.ArithDecode(Ac(tbl, 3 * (k - 1) + 1));
      if nonzero.None? {
        return CantSuspend, k;
      }
      if nonzero.value {
        return Done, k;
      }
      k := k + 1;
      if k > 63 {
        return BadCode, k;
      }
    }
  }

  /** Skips zeros and stores the next nonzero coefficient; `k` is its index. */
  method DecodeRun(coder: Decoder, tbl: nat, cond: Conditioning, first: nat, block: array<int>,
                   ghost z: seq<int>, ghost ke: nat, ghost rest: Plan)
    returns (o: Outcome, k: nat)
    requires coder.Valid() && 1 <= first <= 63 && block.Length == 64 && |z| == 64 && ke < 64
    modifies coder, block
    ensures o.Done? ==> coder.Valid() && first <= k <= 63
    ensures o.Done? ==> forall p | 0 <= p < 64 && p != Natural(k) :: block[p] == old(block[p])
    ensures coder.Met() == old(coder.Met()) && (o.CantSuspend? ==> coder.Met().Exhausted?)
    ensures old(coder.Expecting()) && first <= ke && z[ke] != 0 && SixteenBit(z)
            && old(coder.pending) == AcRun(tbl, cond, z, ke, first, rest) ==>
              o.Done? && coder.Expecting() && k <= ke
              && k == RunEnd(z, first) && block[Natural(k)] == z[k]
              && coder.pending == AcDecisions(tbl, cond, z, ke, k + 1, rest)
  {
    hide Decoder.Met, Decoder.Valid, Decoder.Expecting, Decoder.State, SignedAc, AcDecisions, Natural, RunEnd;
    o, k := DecodeZeros(coder, tbl, cond, first, z, ke, rest);
    if !o.Done? {
      return;
    }
    ghost var after := if k <= ke && z[ke] != 0 then AcDecisions(tbl, cond, z, ke, k + 1, rest) else rest;
    var v;
    o, v := DecodeSignedAc(coder, tbl, cond, k, z[k], after);
    block[Natural(k)] := v;
  }

  /** `Decode_AC_coefficients` (figure F.20), into a block that was cleared beforehand. */
  method DecodeAc(coder: Decoder, tbl: nat, cond: Conditioning, block: array<int>,
                  ghost z: seq<int>, ghost rest: Plan)
    returns (o: Outcome)
    requires coder.Valid() && block.Length == 64 && |z| == 64
    requires forall p | 1 <= p < 64 :: block[p] == 0
    modifies coder, block
    ensures o.Done? ==> coder.Valid()
    ensures coder.Met() == old(coder.Met()) && (o.CantSuspend? ==> coder.Met().Exhausted?)
    ensures old(coder.Expecting()) && SixteenBit(z)
            && old(coder.pending) == AcDecisions(tbl, cond, z, LastNonzero(z, 63), 1, rest) ==>
              o.Done? && coder.Expecting() && coder.pending == rest
              && block[0] == old(block[0]) && forall j | 1 <= j < 64 :: block[Natural(j)] == z[j]
  {
    hide Decoder.Met, Decoder.Valid, Decoder.Expecting, Decoder.State, AcRun, Natural, RunEnd, SixteenBit;
    ghost var ke := LastNonzero(z, 63);
    ghost var sync := coder.Expecting() && SixteenBit(z)
                      && coder.pending == AcDecisions(tbl, cond, z, ke, 1, rest);
    var k := 1;
    while k <= 63
      invariant 1 <= k <= 64 && coder.Valid() && coder.Met() == old(coder.Met())
      invariant sync ==> k <= ke + 1 && coder.Expecting()
                         && coder.pending == AcDecisions(tbl, cond, z, ke, k, rest)
      invariant block[0] == old(block[0])
      invariant forall j | k <= j < 64 :: block[Natural(j)] == 0
      invariant sync ==> forall j | 1 <= j < k :: block[Natural(j)] == z[j]
    {
      var eob := coder.ArithDecode(Ac(tbl, 3 * (k - 1)));
      if eob.None? {
        return CantSuspend;
      }
      if eob.value {
        break;
      }
      ZerosUpTo(z, k);
      label before:
      o, k := DecodeRun(coder, tbl, cond, k, block, z, ke, rest);
      if !o.Done? {
        return;
      }
      forall j | 0 <= j < 64 && j != k ensures block[Natural(j)] == old@before(block[Natural(j)]) {
        if Natural(j) == Natural(k) { NaturalInjective(j, k); }
      }
      k := k + 1;
    }
    o := Done;
  }

  class McuDecoder {
    const scan: Scan
    const coder: Decoder
    const restartInterval: nat
    var lastDcVal: seq<int>
    var dcContext: seq<nat>
    var restartsToGo: nat
    var nextRestartNum: nat

    ghost predicate Valid()
      reads this`lastDcVal, this`dcContext, coder
    {
      Fits(scan, Prediction()) && (coder.Valid() || coder.ct == -1)
    }

    ghost function Prediction(): Predictor
      reads this`lastDcVal, this`dcContext
    {
      Predictor(lastDcVal, dcContext)
    }

    /** `start_pass`. */
    constructor (scan: Scan, interval: nat, source: seq<byte>, ghost data: seq<byte>, ghost m: byte)
      requires scan.Valid()
      ensures Valid() && this.scan == scan && fresh(coder) && Prediction() == Start(scan)
      ensures coder.Valid() && coder.State() == START
      ensures restartInterval == restartsToGo == interval && nextRestartNum == 0
      ensures coder.input == source && coder.marker == m && coder.Met() == Ending(source, 0)
      ensures coder.segment == data && (m != 0 && Holds(source, 0, data, m) ==> coder.OnSegment())
    {
      this.scan := scan;
      coder := new Decoder(source, data, m);
      lastDcVal := seq(|scan.dcTbl|, _ => 0);
      dcContext := seq(|scan.dcTbl|, _ => 0);
      restartInterval, restartsToGo, nextRestartNum := interval, interval, 0;
    }

    /** How decoding goes on at a restart. */
    ghost function Recovery(): Recovery
      reads this`nextRestartNum, coder`pos, coder`unreadMarker
    {
      Recovered(coder.input, coder.Met(), nextRestartNum)
    }

    /** A restart marker should come before the next MCU. */
    ghost predicate RestartDue()
      reads this`restartsToGo
    {
      restartInterval != 0 && restartsToGo == 0
    }

    /** `process_restart` if a restart is due, whatever is found there; the next MCU is counted
        too. */
    method ProcessRestart(ghost d: seq<byte>, ghost m: byte) returns (ok: bool)
      requires Valid() && nextRestartNum < 8
      modifies this`lastDcVal, this`dcContext, this`restartsToGo, this`nextRestartNum, coder
      ensures ok <==> old(RestartDue()) ==> !old(Recovery()).Wait?
      ensures ok && old(RestartDue()) ==>
                && Valid() && Prediction() == Start(scan) && coder.Valid() && coder.State() == START && coder.segment == d && coder.marker == m
                && restartsToGo == restartInterval - 1 && nextRestartNum == (old(nextRestartNum) + 1) % 8
                && coder.Met() == NextEnding(coder.input, old(Recovery()))
      ensures old(RestartDue()) && old(Recovery()).GoOn? && m != 0 && Holds(coder.input, old(Recovery()).next, d, m) ==> coder.OnSegment()
      ensures !old(RestartDue()) ==>
                && Valid() && Prediction() == old(Prediction()) && unchanged(coder) && nextRestartNum == old(nextRestartNum)
                && restartsToGo == old(restartsToGo) - (if restartInterval != 0 then 1 else 0)
    {
      hide Decoder.Met, Decoder.Valid, Decoder.State, Decoder.OnSegment, Holds, Ending, Recovered;
      ok := true;
      if restartInterval != 0 {
        if restartsToGo == 0 {
          ok := coder.Restart(nextRestartNum, d, m);
          if !ok { return; }
          nextRestartNum := (nextRestartNum + 1) % 8;
          lastDcVal := seq(|scan.dcTbl|, _ => 0);
          dcContext := seq(|scan.dcTbl|, _ => 0);
          restartsToGo := restartInterval;
        }
        restartsToGo := restartsToGo - 1;
      }
    }

    /** One block of an MCU. */
    method DecodeBlock(blkn: nat, ghost expected: seq<int>, ghost rest: Plan)
      returns (o: Outcome, block: seq<int>)
      requires Fits(scan, Prediction()) && coder.Valid() && blkn < |scan.membership| && |expected| == 64
      modifies this`lastDcVal, this`dcContext, coder
      ensures Fits(scan, Prediction()) && (o.Done? ==> coder.Valid()) && |block| == 64
      ensures coder.Met() == old(coder.Met()) && (o.CantSuspend? ==> coder.Met().Exhausted?)
      ensures old(coder.Expecting()) && SixteenBit(expected)
              && Abs(expected[0] - old(lastDcVal)[scan.membership[blkn]]) <= 0x8000
              && old(coder.pending) == BlockDecisions(scan, old(Prediction()), blkn, expected, rest) ==>
                o.Done? && coder.Expecting() && coder.pending == rest && block == expected
                && Prediction() == Update(scan, old(Prediction()), blkn, expected[0])
    {
      hide Decoder.Met, Decoder.Valid, Decoder.Expecting, Decoder.State, AcDecisions, DcDecisions, NextContext, Natural;
      var ci := scan.membership[blkn];
      var dcTbl, acTbl := scan.dcTbl[ci], scan.acTbl[ci];
      ghost var z := Coefs(expected);
      var coefs := new int[64](_ => 0);
      var v, next;
      o, v, next := DecodeDc(coder, dcTbl, scan.cond[dcTbl], dcContext[ci], expected[0] - lastDcVal[ci],
                             AcDecisions(acTbl, scan.cond[acTbl], z, LastNonzero(z, 63), 1, rest));
      block := coefs[..];
      if !o.Done? {
        return;
      }
      dcContext := dcContext[ci := next];
      lastDcVal := lastDcVal[ci := lastDcVal[ci] + v];
      coefs[0] := lastDcVal[ci];
      o := DecodeAc(coder, acTbl, scan.cond[acTbl], coefs, z, rest);
      block := coefs[..];
      if block[0] == expected[0] && forall j | 1 <= j < 64 :: block[Natural(j)] == z[j] {
        SameBlock(block, expected);
      }
    }

    /** `decode_mcu`: false is the error exit, for an input that ends without a marker.  Once
        data have been found to be bad, in block `bad`, nothing more is stored until the next
        restart. */
    method DecodeMcu(ghost mcu: seq<seq<int>>, ghost rest: Plan)
      returns (ok: bool, blocks: seq<seq<int>>, ghost bad: nat)
      requires Valid() && Blocks(scan, mcu)
      modifies this`lastDcVal, this`dcContext, coder
      ensures ok ==> Valid()
      ensures Blocks(scan, blocks)
      ensures coder.Met() == old(coder.Met()) && (!ok ==> coder.Met().Exhausted?)
      ensures old(coder.ct) == -1 ==> ok && bad == 0 && blocks == Zeros(|scan.membership|) && unchanged(coder) && unchanged(this)
      ensures ok && coder.ct == -1 && old(coder.ct) != -1 ==>
                bad < |blocks| && forall b | bad < b < |blocks| :: blocks[b] == Zeros(|scan.membership|)[b]
      ensures old(coder.Expecting()) && Codable(scan, old(Prediction()), mcu, 0)
              && old(coder.pending) == McuDecisions(scan, old(Prediction()), mcu, 0, rest) ==>
                ok && coder.Expecting() && coder.pending == rest && blocks == mcu
                && Prediction() == McuPredictor(scan, old(Prediction()), mcu, 0)
    {
      hide Decoder.Met, Decoder.Expecting, Decoder.State, BlockDecisions, Update, SixteenBit;
      blocks, bad := Zeros(|scan.membership|), 0;
      if coder.ct == -1 {
        coder.NotExpecting();
        ok := true;
        return;
      }
      hide Decoder.Valid;
      ghost var last := McuPredictor(scan, Prediction(), mcu, 0);
      ghost var sync := coder.Expecting() && Codable(scan, Prediction(), mcu, 0)
                        && coder.pending == McuDecisions(scan, Prediction(), mcu, 0, rest);
      var blkn := 0;
      while blkn < |scan.membership|
        invariant 0 <= blkn <= |mcu| && Fits(scan, Prediction()) && coder.Valid()
        invariant Blocks(scan, blocks) && coder.Met() == old(coder.Met())
        invariant forall b | blkn <= b < |blocks| :: blocks[b] == Zeros(|scan.membership|)[b]
        invariant sync ==> coder.Expecting() && Codable(scan, Prediction(), mcu, blkn)
                           && coder.pending == McuDecisions(scan, Prediction(), mcu, blkn, rest)
        invariant sync ==> McuPredictor(scan, Prediction(), mcu, blkn) == last
        invariant sync ==> forall b | 0 <= b < blkn :: blocks[b] == mcu[b]
      {
        var o, block := DecodeBlock(blkn, mcu[blkn],
                                    McuDecisions(scan, Update(scan, Prediction(), blkn, mcu[blkn][0]), mcu, blkn + 1, rest));
        if o.CantSuspend? { return false, blocks, blkn; }
        blocks := blocks[blkn := block];
        if o.BadCode? {
          coder.ct := -1;
          return true, blocks, blkn;
        }
        blkn := blkn + 1;
      }
      ok, bad := true, blkn;
      NotBad(coder);
    }
  }

  /** The blocks of an MCU before it is decoded. */
  function Zeros(n: nat): (blocks: seq<seq<int>>)
    ensures |blocks| == n && forall b | 0 <= b < n :: |blocks[b]| == 64 && forall k | 0 <= k < 64 :: blocks[b][k] == 0
  {
    seq(n, _ => seq(64, _ => 0))
  }

  lemma NotBad(coder: Decoder)
    requires coder.Valid()
    ensures coder.ct != -1
  {
  }

  lemma SameBlock(a: seq<int>, b: seq<int>)
    requires |a| == |b| == 64 && a[0] == b[0]
    requires forall j | 1 <= j < 64 :: a[Natural(j)] == Coefs(b)[j]
    ensures a == b
  {
    assert Natural(0) == 0;
    forall j | 0 <= j < 64 ensures Coefs(a)[j] == Coefs(b)[j] {
      CoefsAt(a, j);
      CoefsAt(b, j);
    }
    CoefsDetermine(a, b);
  }
}
