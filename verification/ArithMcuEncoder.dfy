/** `encode_mcu` of jcarith.c: sequential arithmetic coding of MCUs.

  Every method takes as a ghost argument what is still to be coded after it (`rest`),
  and promises that coding `rest` now leads where coding its own decisions and then
  `rest` led before.
  */
module ArithMcuEncoder {
  import opened JpegLimits
  import opened EntropySource
  import opened Shifts
  import opened QmInterval
  import opened Wrappers
  import opened Zigzag
  import opened ArithModel
  import opened ArithEncoder

  /** The rest of the magnitude category: one decision for each doubling of `m`. */
  method EncodeCategory(coder: Encoder, first: Bin, m0: nat, v: nat, ghost rest: Plan) returns (st: Bin, m: nat)
    requires coder.Valid()
    modifies coder
    ensures coder.Valid() && coder.earlier == old(coder.earlier)
    ensures Run(coder.State(), rest) == Run(old(coder.State()), Unary(first, v, rest))
    ensures st == Plus(first, Log2(v)) && m == Shl(m0, Log2(v))
  {
    hide Encoder.Valid, Encoder.State, Step;
    st, m := first, m0;
    var v2 := v;
    while v2 / 2 != 0
      invariant coder.Valid() && coder.earlier == old(coder.earlier)
      invariant Run(coder.State(), Unary(st, v2, rest)) == Run(old(coder.State()), Unary(first, v, rest))
      invariant Plus(st, Log2(v2)) == Plus(first, Log2(v))
      invariant Shl(m, Log2(v2)) == Shl(m0, Log2(v))
      decreases v2
    {
      v2 := v2 / 2;
      coder.ArithEncode(st, true);
      ShlDouble(m, Log2(v2));
      m := 2 * m;
      st := Plus(st, 1);
    }
    coder.ArithEncode(st, false);
  }

  /** The magnitude bit pattern of `v` below `m0` (figure F.9). */
  method EncodePattern(coder: Encoder, st: Bin, m0: nat, v: nat, ghost rest: Plan)
    requires coder.Valid()
    modifies coder
    ensures coder.Valid() && coder.earlier == old(coder.earlier)
    ensures Run(coder.State(), rest) == Run(old(coder.State()), Pattern(st, m0, v, rest))
  {
    hide Encoder.Valid, Encoder.State, Step;
    var m := m0;
    while m / 2 != 0
      invariant coder.Valid() && coder.earlier == old(coder.earlier)
      invariant Run(coder.State(), Pattern(st, m, v, rest)) == Run(old(coder.State()), Pattern(st, m0, v, rest))
    {
      m := m / 2;
      coder.ArithEncode(st, v / m % 2 == 1);
    }
  }

  /** `Encode_DC_DIFF` (figure F.4) for the difference `diff`; returns the next context. */
  method EncodeDc(coder: Encoder, tbl: nat, cond: Conditioning, context: nat, diff: int, ghost rest: Plan)
    returns (next: nat)
    requires coder.Valid()
    modifies coder
    ensures coder.Valid() && coder.earlier == old(coder.earlier)
    ensures Run(coder.State(), rest) == Run(old(coder.State()), DcDecisions(tbl, context, diff, rest))
    ensures next == NextContext(cond, diff)
  {
    hide Encoder.Valid, Encoder.State, Step;
    var st := Dc(tbl, context);
    var v := diff;
    if v == 0 {
      coder.ArithEncode(st, false);
      return 0;
    }
    coder.ArithEncode(st, true);
    if v > 0 {
      coder.ArithEncode(Plus(st, 1), false);
      st := Plus(st, 2);
      next := 4;
    } else {
      v := -v;
      coder.ArithEncode(Plus(st, 1), true);
      st := Plus(st, 3);
      next := 8;
    }
    v := v - 1;
    var m := EncodeDcMagnitude(coder, st, tbl, v, rest);
    if m < Shl(1, cond.dcL) / 2 {
      next := 0;
    } else if m > Shl(1, cond.dcU) / 2 {
      next := next + 8;
    }
  }

  /** A DC magnitude less one; returns its leading bit. */
  method EncodeDcMagnitude(coder: Encoder, first: Bin, tbl: nat, v: nat, ghost rest: Plan) returns (m: nat)
    requires coder.Valid()
    modifies coder
    ensures coder.Valid() && coder.earlier == old(coder.earlier)
    ensures Run(coder.State(), rest) == Run(old(coder.State()), DcMagnitude(first, tbl, v, rest))
    ensures m == Leading(v)
  {
    hide Encoder.Valid, Encoder.State, Step;
    m := 0;
    if v != 0 {
      coder.ArithEncode(first, true);
      ghost var bits := Pattern(Dc(tbl, 34 + Log2(v)), Shl(1, Log2(v)), v, rest);
      var st;
      st, m := EncodeCategory(coder, Dc(tbl, 20), 1, v, bits);
      EncodePattern(coder, Plus(st, 14), m, v, rest);
    } else {
      coder.ArithEncode(first, false);
    }
  }

  /** An AC magnitude less one. */
  method EncodeAcMagnitude(coder: Encoder, first: Bin, high: Bin, v: nat, ghost rest: Plan)
    requires coder.Valid()
    modifies coder
    ensures coder.Valid() && coder.earlier == old(coder.earlier)
    ensures Run(coder.State(), rest) == Run(old(coder.State()), AcMagnitude(first, high, v, rest))
  {
    hide Encoder.Valid, Encoder.State, Step, Pattern, Unary, Log2;
    var st, m := first, 0;
    if v != 0 {
      coder.ArithEncode(st, true);
      m := 1;
      if v / 2 != 0 {
        coder.ArithEncode(st, true);
        ghost var bits := Pattern(Plus(high, Log2(v / 2) + 14), Shl(2, Log2(v / 2)), v, rest);
        st, m := EncodeCategory(coder, high, 2, v / 2, bits);
        EncodePattern(coder, Plus(st, 14), m, v, rest);
        return;
      }
    }
    coder.ArithEncode(st, false);
  }

  method EncodeNonzeroAc(coder: Encoder, tbl: nat, cond: Conditioning, k: nat, v: int, ghost rest: Plan)
    requires coder.Valid() && 1 <= k <= 63 && v != 0
    modifies coder
    ensures coder.Valid() && coder.earlier == old(coder.earlier)
    ensures Run(coder.State(), rest) == Run(old(coder.State()), NonzeroAc(tbl, cond, k, v, rest))
  {
    hide Encoder.Valid, Encoder.State, Step, AcMagnitude;
    coder.ArithEncode(Ac(tbl, 3 * (k - 1) + 1), true);
    if v > 0 {
      coder.ArithEncode(Fixed, false);
    } else {
      coder.ArithEncode(Fixed, true);
    }
    EncodeAcMagnitude(coder, Ac(tbl, 3 * (k - 1) + 2), HighBin(tbl, cond, k), Abs(v) - 1, rest);
  }

  /** The end-of-block index. */
  method FindLast(block: seq<int>) returns (ke: nat)
    requires |block| == 64
    ensures ke == LastNonzero(Coefs(block), 63)
  {
    ke := 63;
    while ke > 0
      invariant ke <= 63 && LastNonzero(Coefs(block), 63) == LastNonzero(Coefs(block), ke)
    {
      if block[Natural(ke)] != 0 {
        break;
      }
      ke := ke - 1;
    }
  }

  /** Zeros up to the next nonzero coefficient, and that coefficient. */
  method EncodeRun(coder: Encoder, tbl: nat, cond: Conditioning, block: seq<int>, ke: nat, first: nat,
                   ghost rest: Plan)
    returns (k: nat)
    requires coder.Valid() && |block| == 64 && ke < 64 && 1 <= first <= ke && Coefs(block)[ke] != 0
    modifies coder
    ensures coder.Valid() && coder.earlier == old(coder.earlier) && first <= k <= ke
    ensures var z := Coefs(block);
            Run(coder.State(), AcDecisions(tbl, cond, z, ke, k + 1, rest))
            == Run(old(coder.State()), AcRun(tbl, cond, z, ke, first, rest))
  {
    hide Encoder.Valid, Encoder.State, Step, Natural, Coefs, NonzeroAc, AcDecisions;
    ghost var z := Coefs(block);
    ghost var goal := Run(coder.State(), AcRun(tbl, cond, z, ke, first, rest));
    k := first;
    CoefsAt(block, k);
    while block[Natural(k)] == 0
      invariant first <= k <= ke && z[k] == block[Natural(k)]
      invariant coder.Valid() && coder.earlier == old(coder.earlier)
      invariant Run(coder.State(), AcRun(tbl, cond, z, ke, k, rest)) == goal
      decreases ke - k
    {
      coder.ArithEncode(Ac(tbl, 3 * (k - 1) + 1), false);
      k := k + 1;
      CoefsAt(block, k);
    }
    EncodeNonzeroAc(coder, tbl, cond, k, block[Natural(k)], AcDecisions(tbl, cond, z, ke, k + 1, rest));
  }

  /** `Encode_AC_Coefficients` (figure F.5). */
  method EncodeAc(coder: Encoder, tbl: nat, cond: Conditioning, block: seq<int>, ghost rest: Plan)
    requires coder.Valid() && |block| == 64
    modifies coder
    ensures coder.Valid() && coder.earlier == old(coder.earlier)
    ensures var z := Coefs(block);
            Run(coder.State(), rest)
            == Run(old(coder.State()), AcDecisions(tbl, cond, z, LastNonzero(z, 63), 1, rest))
  {
    hide Encoder.Valid, Encoder.State, Step, Coefs, AcRun, AcDecisions;
    var ke := FindLast(block);
    ghost var z := Coefs(block);
    var k := 1;
    while k <= ke
      invariant 1 <= k <= ke + 1
      invariant coder.Valid() && coder.earlier == old(coder.earlier)
      invariant Run(coder.State(), AcDecisions(tbl, cond, z, ke, k, rest))
             == Run(old(coder.State()), AcDecisions(tbl, cond, z, ke, 1, rest))
    {
      AcHead(tbl, cond, z, ke, k, rest);
      coder.ArithEncode(Ac(tbl, 3 * (k - 1)), false);
      k := EncodeRun(coder, tbl, cond, block, ke, k, rest);
      k := k + 1;
    }
    AcHead(tbl, cond, z, ke, k, rest);
    if k <= 63 {
      coder.ArithEncode(Ac(tbl, 3 * (k - 1)), true);
    }
  }

  class McuEncoder {
    const scan: Scan
    const coder: Encoder
    const restartInterval: nat
    var lastDcVal: seq<int>
    var dcContext: seq<nat>
    var restartsToGo: nat
    var nextRestartNum: nat

    ghost predicate Valid()
      reads this`lastDcVal, this`dcContext, coder
    {
      coder.Valid() && Fits(scan, Predictor(lastDcVal, dcContext))
    }

    ghost function Prediction(): Predictor
      reads this`lastDcVal, this`dcContext
    {
      Predictor(lastDcVal, dcContext)
    }

    /** `start_pass`. */
    constructor (scan: Scan, interval: nat)
      requires scan.Valid()
      ensures Valid() && this.scan == scan && fresh(coder)
      ensures restartInterval == restartsToGo == interval && nextRestartNum == 0
      ensures coder.State() == START && coder.earlier == [] && Prediction() == Start(scan)
    {
      this.scan := scan;
      coder := new Encoder();
      lastDcVal := seq(|scan.dcTbl|, _ => 0);
      dcContext := seq(|scan.dcTbl|, _ => 0);
      restartInterval, restartsToGo, nextRestartNum := interval, interval, 0;
    }

    /** `emit_restart`, with the counters, if one is due; they count the next MCU too. */
    method Restart() returns (ghost d: seq<byte>, ghost k: nat)
      requires Valid() && nextRestartNum < 8
      modifies this, coder
      ensures Valid()
      ensures if restartInterval != 0 && old(restartsToGo) == 0
              then && Prediction() == Start(scan) && coder.State() == START && EndsAt(d, old(coder.State()).iv, k)
                   && coder.earlier == old(coder.earlier) + Stuff(d) + [0xFF, (RST0 + old(nextRestartNum)) as byte]
                   && restartsToGo == restartInterval - 1 && nextRestartNum == (old(nextRestartNum) + 1) % 8
              else && Prediction() == old(Prediction()) && coder.State() == old(coder.State()) && coder.earlier == old(coder.earlier)
                   && restartsToGo == old(restartsToGo) - (if restartInterval != 0 then 1 else 0)
                   && nextRestartNum == old(nextRestartNum)
    {
      hide Encoder.Valid, Encoder.State, EndsAt, Stuff;
      d, k := [], 0;
      if restartInterval != 0 {
        if restartsToGo == 0 {
          d, k := coder.EmitRestart(nextRestartNum);
          lastDcVal := seq(|scan.dcTbl|, _ => 0);
          dcContext := seq(|scan.dcTbl|, _ => 0);
          restartsToGo := restartInterval;
          nextRestartNum := (nextRestartNum + 1) % 8;
        }
        restartsToGo := restartsToGo - 1;
      }
    }

    /** `encode_mcu`: codes the blocks of one MCU. */
    method EncodeMcu(mcu: seq<seq<int>>, ghost rest: Plan)
      requires Valid() && Blocks(scan, mcu)
      modifies this`lastDcVal, this`dcContext, coder
      ensures Valid() && coder.earlier == old(coder.earlier)
      ensures Prediction() == McuPredictor(scan, old(Prediction()), mcu, 0)
      ensures Run(coder.State(), rest)
           == Run(old(coder.State()), McuDecisions(scan, old(Prediction()), mcu, 0, rest))
    {
      hide Encoder.Valid, Encoder.State, Step, Coefs, AcDecisions, DcDecisions, NextContext;
      ghost var goal := Run(coder.State(), McuDecisions(scan, Prediction(), mcu, 0, rest));
      ghost var last := McuPredictor(scan, Prediction(), mcu, 0);
      var blkn := 0;
      while blkn < |scan.membership|
        invariant 0 <= blkn <= |mcu| && Valid() && coder.earlier == old(coder.earlier)
        invariant McuPredictor(scan, Prediction(), mcu, blkn) == last
        invariant Run(coder.State(), McuDecisions(scan, Prediction(), mcu, blkn, rest)) == goal
      {
        var block, ci := mcu[blkn], scan.membership[blkn];
        var dcTbl, acTbl := scan.dcTbl[ci], scan.acTbl[ci];
        ghost var z, p := Coefs(block), Prediction();
        ghost var after := McuDecisions(scan, Update(scan, p, blkn, block[0]), mcu, blkn + 1, rest);
        var next := EncodeDc(coder, dcTbl, scan.cond[dcTbl], dcContext[ci], block[0] - lastDcVal[ci],
                             AcDecisions(acTbl, scan.cond[acTbl], z, LastNonzero(z, 63), 1, after));
        lastDcVal := lastDcVal[ci := block[0]];
        dcContext := dcContext[ci := next];
        EncodeAc(coder, acTbl, scan.cond[acTbl], block, after);
        blkn := blkn + 1;
      }
    }
  }
}
