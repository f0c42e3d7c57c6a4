/** The binary decisions that stand for a coefficient (section F.1.4 of ITU-T T.81), in
  the order in which jcarith.c codes them, each with its statistics bin. */
module ArithModel {
  import opened Shifts
  import opened QmInterval
  import opened Wrappers
  import opened Zigzag

  function Plus(st: Bin, n: nat): Bin {
    match st
    case Dc(tbl, offset) => Dc(tbl, offset + n)
    case Ac(tbl, offset) => Ac(tbl, offset + n)
    case Fixed => Fixed
  }

  function Abs(v: int): nat {
    if v < 0 then -v else v
  }

  /** The position of the highest one bit. */
  function Log2(v: nat): nat {
    if v / 2 == 0 then 0 else 1 + Log2(v / 2)
  }

  /** A magnitude category in unary, moving to the next bin at each step.  This and all
      functions below put the decisions in front of those that follow, `rest`. */
  function Unary(st: Bin, v: nat, rest: Plan): Plan
    decreases v
  {
    if v / 2 == 0 then Cons(Decision(st, false), rest)
    else Cons(Decision(st, true), Unary(Plus(st, 1), v / 2, rest))
  }

  lemma UnaryHead(st: Bin, v: nat, rest: Plan)
    ensures var unary := Unary(st, v, rest);
            && unary.Cons? && unary.head == Decision(st, v / 2 != 0)
            && unary.tail == (if v / 2 != 0 then Unary(Plus(st, 1), v / 2, rest) else rest)
    ensures v / 2 != 0 ==> Plus(st, Log2(v)) == Plus(Plus(st, 1), Log2(v / 2)) && Log2(v) == 1 + Log2(v / 2)
    ensures v / 2 == 0 ==> Plus(st, Log2(v)) == st && Log2(v) == 0
  {
  }

  /** The bits of `v` below the bit `m`, highest first, all in one bin. */
  function Pattern(st: Bin, m: nat, v: nat, rest: Plan): Plan
    decreases m
  {
    if m / 2 == 0 then rest
    else Cons(Decision(st, v / (m / 2) % 2 == 1), Pattern(st, m / 2, v, rest))
  }

  /** A DC magnitude less one (figures F.8 and F.9). */
  function DcMagnitude(st: Bin, tbl: nat, v: nat, rest: Plan): Plan {
    if v == 0 then Cons(Decision(st, false), rest)
    else
      Cons(Decision(st, true), Unary(Dc(tbl, 20), v, Pattern(Dc(tbl, 34 + Log2(v)), Shl(1, Log2(v)), v, rest)))
  }

  /** A DC difference (figure F.4), coded in context `context`. */
  function DcDecisions(tbl: nat, context: nat, v: int, rest: Plan): Plan {
    if v == 0 then Cons(Decision(Dc(tbl, context), false), rest)
    else Cons(Decision(Dc(tbl, context), true), NonzeroDc(tbl, context, v, rest))
  }

  /** The sign and the magnitude of a nonzero difference. */
  function NonzeroDc(tbl: nat, context: nat, v: int, rest: Plan): Plan
    requires v != 0
  {
    Cons(Decision(Dc(tbl, context + 1), v < 0),
         DcMagnitude(Dc(tbl, context + if v < 0 then 3 else 2), tbl, Abs(v) - 1, rest))
  }

  /** The leading bit of a DC magnitude less one. */
  function Leading(v: nat): nat {
    if v == 0 then 0 else Shl(1, Log2(v))
  }

  /** Conditioning bounds of a DC table and of an AC table. */
  datatype Conditioning = Conditioning(dcL: nat, dcU: nat, acK: nat)

  /** The context for the next difference (section F.1.4.4.1.2): zero, small positive,
      small negative, large positive, large negative. */
  function NextContext(cond: Conditioning, v: int): (context: nat)
    ensures context <= 16
  {
    if v == 0 then 0 else Category(cond, Leading(Abs(v) - 1), v < 0)
  }

  function Category(cond: Conditioning, m: nat, negative: bool): (context: nat)
    ensures context <= 16
  {
    if m < Shl(1, cond.dcL) / 2 then 0
    else if m > Shl(1, cond.dcU) / 2 then (if negative then 16 else 12)
    else if negative then 8 else 4
  }

  /** The classes of a difference in numbers: zero up to half of 2^L, small up to 2^U, and
      large above that, each with its sign. */
  lemma ContextClasses(cond: Conditioning, v: int)
    ensures NextContext(cond, v) == if Abs(v) <= Shl(1, cond.dcL) / 2 then 0
                                    else if Abs(v) <= Shl(1, cond.dcU) then (if v < 0 then 8 else 4)
                                    else if v < 0 then 16 else 12
  {
    if v != 0 {
      LeadingBelow(Abs(v) - 1, cond.dcL);
      LeadingAbove(Abs(v) - 1, cond.dcU);
    }
  }

  /** The leading bit tells how a number compares with a power of two. */
  lemma LeadingBelow(w: nat, n: nat)
    ensures Leading(w) < Shl(1, n) / 2 <==> w < Shl(1, n) / 2
  {
    hide Log2;
    if n > 0 {
      assert Shl(1, n) / 2 == Shl(1, n - 1);
      if w > 0 { LeadingOrder(w, n - 1); }
    }
  }

  lemma LeadingAbove(w: nat, n: nat)
    ensures Leading(w) > Shl(1, n) / 2 <==> w >= Shl(1, n)
  {
    ShlPositive(n);
    if w > 0 {
      LeadingOrder(w, n);
      ShlPositive(Log2(w));
      if n > 0 {
        assert Shl(1, n) / 2 == Shl(1, n - 1);
        hide Shl, Log2;
        ExponentOrder(n, Log2(w));
        ExponentOrder(Log2(w), n - 1);
        ExponentOrder(n - 1, n);
        ShlDouble(1, n - 1);
      }
    }
  }

  /** The leading bit is below a power of two exactly if the number is. */
  lemma LeadingOrder(w: nat, n: nat)
    requires w > 0
    ensures Shl(1, Log2(w)) < Shl(1, n) <==> w < Shl(1, n)
  {
    LeadingBit(w);
    hide Shl, Log2;
    ExponentOrder(Log2(w) + 1, n);
    ExponentOrder(n, Log2(w));
  }

  lemma {:induction false} LeadingBit(w: nat)
    requires w > 0
    ensures Shl(1, Log2(w)) <= w < Shl(1, Log2(w) + 1)
  {
    if w / 2 != 0 { LeadingBit(w / 2); }
  }

  /** An AC magnitude less one; from the third category on the bins are shared. */
  function AcMagnitude(st: Bin, high: Bin, v: nat, rest: Plan): Plan {
    if v == 0 then Cons(Decision(st, false), rest)
    else if v / 2 == 0 then Cons(Decision(st, true), Cons(Decision(st, false), rest))
    else Cons(Decision(st, true), Cons(Decision(st, true), HighMagnitude(high, v, rest)))
  }

  function HighMagnitude(high: Bin, v: nat, rest: Plan): Plan {
    Unary(high, v / 2, Pattern(Plus(high, Log2(v / 2) + 14), Shl(2, Log2(v / 2)), v, rest))
  }

  function HighBin(tbl: nat, cond: Conditioning, k: nat): Bin {
    Ac(tbl, if k <= cond.acK then 189 else 217)
  }

  /** Two coefficients share the bins of large magnitudes exactly if both or none of them are
      at or below Kx; the bins of the one side are not those of the other, nor those below. */
  lemma ConditionedByKx(tbl: nat, cond: Conditioning, j: nat, k: nat)
    ensures HighBin(tbl, cond, j) == HighBin(tbl, cond, k) <==> (j <= cond.acK <==> k <= cond.acK)
    ensures HighBin(tbl, cond, j) != HighBin(tbl, cond, k) ==>
              forall m, n | 0 <= m < 28 && 0 <= n < 28 :: Plus(HighBin(tbl, cond, j), m) != Plus(HighBin(tbl, cond, k), n)
    ensures forall m | 0 <= m < 28 :: Plus(HighBin(tbl, cond, j), m).Ac? && 3 * 62 + 2 < Plus(HighBin(tbl, cond, j), m).offset < 245
  {
  }

  /** The index of the last nonzero AC coefficient, or 0. */
  function LastNonzero(z: seq<int>, ke: nat): (e: nat)
    requires |z| == 64 && ke < 64
    ensures e <= ke && (e > 0 ==> z[e] != 0)
    ensures forall k | e < k <= ke :: z[k] == 0
  {
    if ke == 0 || z[ke] != 0 then ke else LastNonzero(z, ke - 1)
  }

  /** The AC coefficients from zigzag index `k` on (figure F.5). */
  function AcDecisions(tbl: nat, cond: Conditioning, z: seq<int>, ke: nat, k: nat, rest: Plan): Plan
    requires |z| == 64 && ke < 64 && 1 <= k <= ke + 1 && (ke > 0 ==> z[ke] != 0)
    decreases 64 - k, 1
  {
    if k <= ke then Cons(Decision(Ac(tbl, 3 * (k - 1)), false), AcRun(tbl, cond, z, ke, k, rest))
    else if k <= 63 then Cons(Decision(Ac(tbl, 3 * (k - 1)), true), rest)
    else rest
  }

  /** The same, when coefficient `k` is known not to be past the end of the block. */
  function AcRun(tbl: nat, cond: Conditioning, z: seq<int>, ke: nat, k: nat, rest: Plan): Plan
    requires |z| == 64 && ke < 64 && 1 <= k <= ke && z[ke] != 0
    decreases 64 - k, 0
  {
    var st := 3 * (k - 1);
    if z[k] == 0 then Cons(Decision(Ac(tbl, st + 1), false), AcRun(tbl, cond, z, ke, k + 1, rest))
    else NonzeroAc(tbl, cond, k, z[k], AcDecisions(tbl, cond, z, ke, k + 1, rest))
  }

  /** The first nonzero coefficient from index `k` on. */
  function RunEnd(z: seq<int>, k: nat): nat
    requires |z| == 64
    decreases 64 - k
  {
    if k >= 63 || z[k] != 0 then k else RunEnd(z, k + 1)
  }

  lemma {:induction false} ZerosUpTo(z: seq<int>, k: nat)
    requires |z| == 64 && k <= 63
    ensures k <= RunEnd(z, k) <= 63 && forall j | k <= j < RunEnd(z, k) :: z[j] == 0
    decreases 64 - k
  {
    if k < 63 && z[k] == 0 { ZerosUpTo(z, k + 1); }
  }

  lemma AcHead(tbl: nat, cond: Conditioning, z: seq<int>, ke: nat, k: nat, rest: Plan)
    requires |z| == 64 && ke < 64 && 1 <= k <= ke + 1 && (ke > 0 ==> z[ke] != 0)
    ensures AcDecisions(tbl, cond, z, ke, k, rest)
            == if k <= ke then Cons(Decision(Ac(tbl, 3 * (k - 1)), false), AcRun(tbl, cond, z, ke, k, rest))
               else if k <= 63 then Cons(Decision(Ac(tbl, 3 * (k - 1)), true), rest)
               else rest
  {
  }

  lemma RunHead(tbl: nat, cond: Conditioning, z: seq<int>, ke: nat, k: nat, rest: Plan)
    requires |z| == 64 && ke < 64 && 1 <= k <= ke && z[ke] != 0
    ensures var run := AcRun(tbl, cond, z, ke, k, rest);
            && run.Cons? && run.head == Decision(Ac(tbl, 3 * (k - 1) + 1), z[k] != 0)
            && (z[k] == 0 ==> k < ke && run.tail == AcRun(tbl, cond, z, ke, k + 1, rest))
    ensures z[k] == 0 ==> RunEnd(z, k) == RunEnd(z, k + 1)
    ensures z[k] != 0 ==> RunEnd(z, k) == k
  {
  }

  /** A nonzero AC coefficient: the end of a run of zeros, its sign and magnitude. */
  function NonzeroAc(tbl: nat, cond: Conditioning, k: nat, v: int, rest: Plan): Plan
    requires 1 <= k <= 63 && v != 0
  {
    Cons(Decision(Ac(tbl, 3 * (k - 1) + 1), true), SignedAc(tbl, cond, k, v, rest))
  }

  function SignedAc(tbl: nat, cond: Conditioning, k: nat, v: int, rest: Plan): Plan
    requires 1 <= k <= 63 && v != 0
  {
    Cons(Decision(Fixed, v < 0),
         AcMagnitude(Ac(tbl, 3 * (k - 1) + 2), HighBin(tbl, cond, k), Abs(v) - 1, rest))
  }

  // -------------------------------------------------------------- whole MCUs

  /** A scan: the component of each block of an MCU, the tables of each component and
      the conditioning of each table. */
  datatype Scan = Scan(membership: seq<nat>, dcTbl: seq<nat>, acTbl: seq<nat>, cond: seq<Conditioning>) {
    ghost predicate Valid() {
      && |dcTbl| == |acTbl|
      && (forall ci | 0 <= ci < |dcTbl| :: dcTbl[ci] < |cond| && acTbl[ci] < |cond|)
      && (forall b | 0 <= b < |membership| :: membership[b] < |dcTbl|)
    }
  }

  /** The DC prediction and the DC context of each component. */
  datatype Predictor = Predictor(lastDc: seq<int>, context: seq<nat>)

  ghost predicate Fits(scan: Scan, p: Predictor) {
    scan.Valid() && |p.lastDc| == |p.context| == |scan.dcTbl|
  }

  ghost predicate Blocks(scan: Scan, mcu: seq<seq<int>>) {
    |mcu| == |scan.membership| && forall b | 0 <= b < |mcu| :: |mcu[b]| == 64
  }

  function Start(scan: Scan): (p: Predictor)
    requires scan.Valid()
    ensures Fits(scan, p)
  {
    Predictor(seq(|scan.dcTbl|, _ => 0), seq(|scan.dcTbl|, _ => 0))
  }

  function Update(scan: Scan, p: Predictor, b: nat, dc: int): (q: Predictor)
    requires Fits(scan, p) && b < |scan.membership|
    ensures Fits(scan, q)
  {
    var ci := scan.membership[b];
    Predictor(p.lastDc[ci := dc], p.context[ci := NextContext(scan.cond[scan.dcTbl[ci]], dc - p.lastDc[ci])])
  }

  /** A block: its DC difference and its AC coefficients in zigzag order. */
  function BlockDecisions(scan: Scan, p: Predictor, b: nat, block: seq<int>, rest: Plan): Plan
    requires Fits(scan, p) && b < |scan.membership| && |block| == 64
  {
    var ci := scan.membership[b];
    var dcTbl, acTbl, z := scan.dcTbl[ci], scan.acTbl[ci], Coefs(block);
    DcDecisions(dcTbl, p.context[ci], block[0] - p.lastDc[ci],
                AcDecisions(acTbl, scan.cond[acTbl], z, LastNonzero(z, 63), 1, rest))
  }

  /** The decisions of the blocks from number `b` on. */
  function McuDecisions(scan: Scan, p: Predictor, mcu: seq<seq<int>>, b: nat, rest: Plan): Plan
    requires Fits(scan, p) && Blocks(scan, mcu) && b <= |mcu|
    decreases |mcu| - b
  {
    if b == |mcu| then rest
    else BlockDecisions(scan, p, b, mcu[b], McuDecisions(scan, Update(scan, p, b, mcu[b][0]), mcu, b + 1, rest))
  }

  function McuPredictor(scan: Scan, p: Predictor, mcu: seq<seq<int>>, b: nat): (q: Predictor)
    requires Fits(scan, p) && Blocks(scan, mcu) && b <= |mcu|
    ensures Fits(scan, q)
    decreases |mcu| - b
  {
    if b == |mcu| then p else McuPredictor(scan, Update(scan, p, b, mcu[b][0]), mcu, b + 1)
  }

  /** The decisions of a whole segment, from MCU number `i` on. */
  function SegmentDecisions(scan: Scan, p: Predictor, mcus: seq<seq<seq<int>>>, i: nat): Plan
    requires Fits(scan, p) && (forall m | m in mcus :: Blocks(scan, m)) && i <= |mcus|
    decreases |mcus| - i
  {
    if i == |mcus| then Nil
    else McuDecisions(scan, p, mcus[i], 0, SegmentDecisions(scan, McuPredictor(scan, p, mcus[i], 0), mcus, i + 1))
  }

  /** The inputs both coders are made for: no AC coefficient and no DC difference is
      larger than 2^15 in magnitude. */
  ghost predicate Codable(scan: Scan, p: Predictor, mcu: seq<seq<int>>, b: nat)
    requires Fits(scan, p) && Blocks(scan, mcu) && b <= |mcu|
    decreases |mcu| - b
  {
    b < |mcu| ==>
      && Abs(mcu[b][0] - p.lastDc[scan.membership[b]]) <= 0x8000
      && SixteenBit(mcu[b])
      && Codable(scan, Update(scan, p, b, mcu[b][0]), mcu, b + 1)
  }

  ghost predicate SegmentCodable(scan: Scan, p: Predictor, mcus: seq<seq<seq<int>>>, i: nat)
    requires Fits(scan, p) && (forall m | m in mcus :: Blocks(scan, m)) && i <= |mcus|
    decreases |mcus| - i
  {
    i < |mcus| ==>
      && Codable(scan, p, mcus[i], 0)
      && SegmentCodable(scan, McuPredictor(scan, p, mcus[i], 0), mcus, i + 1)
  }

  ghost predicate SixteenBit(z: seq<int>) {
    forall k | 0 <= k < |z| :: Abs(z[k]) <= 0x8000
  }

  // --------------------------------------------------------------- bin bounds

  /** Bins of a DC table stay below 49, bins of an AC table below 245. */
  ghost predicate InRange(plan: Plan) {
    plan.Cons? ==> Allocated(plan.head.bin) && InRange(plan.tail)
  }

  ghost predicate Allocated(bin: Bin) {
    match bin
    case Dc(_, offset) => offset < 49
    case Ac(_, offset) => offset < 245
    case Fixed => true
  }

  lemma {:induction false} UnaryInRange(st: Bin, v: nat, n: nat, rest: Plan)
    requires Log2(v) <= n && Allocated(Plus(st, n)) && InRange(rest)
    ensures InRange(Unary(st, v, rest))
    decreases v
  {
    if v / 2 != 0 {
      UnaryInRange(Plus(st, 1), v / 2, n - 1, rest);
    }
  }

  lemma {:induction false} PatternInRange(st: Bin, m: nat, v: nat, rest: Plan)
    requires Allocated(st) && InRange(rest)
    ensures InRange(Pattern(st, m, v, rest))
    decreases m
  {
    if m / 2 != 0 {
      PatternInRange(st, m / 2, v, rest);
    }
  }

  lemma {:induction false} Log2Bound(v: nat, n: nat)
    requires v < Shl(1, n + 1)
    ensures Log2(v) <= n
  {
    if v / 2 != 0 {
      Log2Bound(v / 2, n - 1);
    }
  }

  lemma FifteenBits(w: nat)
    requires w < 0x8000
    ensures w < Shl(1, 15)
  {
    Powers();
  }

  lemma DcInRange(tbl: nat, context: nat, v: int, rest: Plan)
    requires context <= 16 && Abs(v) <= 0x8000 && InRange(rest)
    ensures InRange(DcDecisions(tbl, context, v, rest))
  {
    if v != 0 {
      DcMagnitudeInRange(Dc(tbl, context + if v < 0 then 3 else 2), tbl, Abs(v) - 1, rest);
    }
  }

  lemma DcMagnitudeInRange(st: Bin, tbl: nat, w: nat, rest: Plan)
    requires Allocated(st) && w < 0x8000 && InRange(rest)
    ensures InRange(DcMagnitude(st, tbl, w, rest))
  {
    if w != 0 {
      FifteenBits(w);
      Log2Bound(w, 14);
      var bits := Pattern(Dc(tbl, 34 + Log2(w)), Shl(1, Log2(w)), w, rest);
      PatternInRange(Dc(tbl, 34 + Log2(w)), Shl(1, Log2(w)), w, rest);
      UnaryInRange(Dc(tbl, 20), w, Log2(w), bits);
    }
  }

  lemma AcMagnitudeInRange(tbl: nat, cond: Conditioning, k: nat, w: nat, rest: Plan)
    requires 1 <= k <= 63 && w < 0x8000 && InRange(rest)
    ensures InRange(AcMagnitude(Ac(tbl, 3 * (k - 1) + 2), HighBin(tbl, cond, k), w, rest))
  {
    if w / 2 != 0 {
      FifteenBits(w);
      Log2Bound(w / 2, 13);
      var high := HighBin(tbl, cond, k);
      var last := Plus(high, Log2(w / 2) + 14);
      PatternInRange(last, Shl(2, Log2(w / 2)), w, rest);
      UnaryInRange(high, w / 2, Log2(w / 2), Pattern(last, Shl(2, Log2(w / 2)), w, rest));
    }
  }

  lemma {:induction false} AcInRange(tbl: nat, cond: Conditioning, z: seq<int>, ke: nat, k: nat, rest: Plan)
    requires |z| == 64 && ke < 64 && 1 <= k <= ke + 1 && (ke > 0 ==> z[ke] != 0)
    requires SixteenBit(z) && InRange(rest)
    ensures InRange(AcDecisions(tbl, cond, z, ke, k, rest))
    decreases 64 - k, 1
  {
    if k <= ke {
      AcRunInRange(tbl, cond, z, ke, k, rest);
    }
  }

  lemma {:induction false} AcRunInRange(tbl: nat, cond: Conditioning, z: seq<int>, ke: nat, k: nat, rest: Plan)
    requires |z| == 64 && ke < 64 && 1 <= k <= ke && z[ke] != 0
    requires SixteenBit(z) && InRange(rest)
    ensures InRange(AcRun(tbl, cond, z, ke, k, rest))
    decreases 64 - k, 0
  {
    if z[k] == 0 {
      AcRunInRange(tbl, cond, z, ke, k + 1, rest);
    } else {
      AcInRange(tbl, cond, z, ke, k + 1, rest);
      AcMagnitudeInRange(tbl, cond, k, Abs(z[k]) - 1, AcDecisions(tbl, cond, z, ke, k + 1, rest));
    }
  }

  /** No MCU touches a bin outside the areas the standard asks for. */
  lemma {:induction false} McuInRange(scan: Scan, p: Predictor, mcu: seq<seq<int>>, b: nat, rest: Plan)
    requires Fits(scan, p) && Blocks(scan, mcu) && b <= |mcu|
    requires Codable(scan, p, mcu, b) && InRange(rest)
    requires forall ci | 0 <= ci < |p.context| :: p.context[ci] <= 16
    ensures InRange(McuDecisions(scan, p, mcu, b, rest))
    decreases |mcu| - b
  {
    if b < |mcu| {
      var q := Update(scan, p, b, mcu[b][0]);
      var after := McuDecisions(scan, q, mcu, b + 1, rest);
      McuInRange(scan, q, mcu, b + 1, rest);
      var ci, z := scan.membership[b], Coefs(mcu[b]);
      var acTbl := scan.acTbl[ci];
      AcInRange(acTbl, scan.cond[acTbl], z, LastNonzero(z, 63), 1, after);
      DcInRange(scan.dcTbl[ci], p.context[ci], mcu[b][0] - p.lastDc[ci],
                AcDecisions(acTbl, scan.cond[acTbl], z, LastNonzero(z, 63), 1, after));
    }
  }

  /** The contexts are what `NextContext` gives, or zero at the start. */
  ghost predicate ContextsFit(p: Predictor) {
    forall ci | 0 <= ci < |p.context| :: p.context[ci] <= 16
  }

  lemma {:induction false} McuContexts(scan: Scan, p: Predictor, mcu: seq<seq<int>>, b: nat)
    requires Fits(scan, p) && Blocks(scan, mcu) && b <= |mcu| && ContextsFit(p)
    ensures ContextsFit(McuPredictor(scan, p, mcu, b))
    decreases |mcu| - b
  {
    if b < |mcu| { McuContexts(scan, Update(scan, p, b, mcu[b][0]), mcu, b + 1); }
  }

  /** So no segment does, however many MCUs it has. */
  lemma {:induction false} SegmentInRange(scan: Scan, p: Predictor, mcus: seq<seq<seq<int>>>, i: nat)
    requires Fits(scan, p) && (forall m | m in mcus :: Blocks(scan, m)) && i <= |mcus| && ContextsFit(p)
    requires SegmentCodable(scan, p, mcus, i)
    ensures InRange(SegmentDecisions(scan, p, mcus, i))
    decreases |mcus| - i
  {
    if i < |mcus| {
      var next := McuPredictor(scan, p, mcus[i], 0);
      McuContexts(scan, p, mcus[i], 0);
      SegmentInRange(scan, next, mcus, i + 1);
      McuInRange(scan, p, mcus[i], 0, SegmentDecisions(scan, next, mcus, i + 1));
    }
  }

  /** From the start of a segment: below 49 for DC and below 245 for AC. */
  lemma WholeSegmentInRange(scan: Scan, mcus: seq<seq<seq<int>>>)
    requires scan.Valid() && (forall m | m in mcus :: Blocks(scan, m)) && SegmentCodable(scan, Start(scan), mcus, 0)
    ensures InRange(SegmentDecisions(scan, Start(scan), mcus, 0))
  {
    SegmentInRange(scan, Start(scan), mcus, 0);
  }
}
