/** What the probability estimation of the QM coder is for: a bin learns which symbol is the
  more probable one, and how sure that is. */
module QmLearning {
  import opened Aritab
  import opened QmInterval
  import opened Wrappers

  // ------------------------------------------------------------ the sense of a bin

  /** A more probable symbol leaves the sense as it is, and a less probable one changes it
      exactly in the states that ask for it. */
  lemma SenseAfter(sv: Stat)
    ensures Mps(AfterMps(sv)) == Mps(sv) && Index(AfterMps(sv)) == Table(Index(sv)).nextMps
    ensures Mps(AfterLps(sv)) != Mps(sv) <==> Table(Index(sv)).switchMps == 1
    ensures Index(AfterLps(sv)) == Table(Index(sv)).nextLps
  {
  }

  /** How many less probable symbols it takes to get to a state that changes the sense. */
  function StepsToSwitch(index: nat): (n: nat)
    requires index < 113
    ensures n <= 28
  {
    if index < 32 then Steps0(index) else
    if index < 64 then Steps32(index) else
    if index < 96 then Steps64(index) else
    Steps96(index)
  }

  function Steps0(index: nat): (n: nat)
    requires 0 <= index < 32
    ensures n <= 28
  {
    match index
    case 0 => 0 case 1 => 1 case 2 => 4 case 3 => 8 case 4 => 13 case 5 => 17 case 6 => 19 case 7 => 21
    case 8 => 23 case 9 => 25 case 10 => 26 case 11 => 26 case 12 => 27 case 13 => 28 case 14 => 0 case 15 => 1
    case 16 => 3 case 17 => 5 case 18 => 7 case 19 => 11 case 20 => 12 case 21 => 13 case 22 => 14 case 23 => 16
    case 24 => 16 case 25 => 18 case 26 => 18 case 27 => 19 case 28 => 20 case 29 => 21 case 30 => 22 case _ => 22
  }

  function Steps32(index: nat): (n: nat)
    requires 32 <= index < 64
    ensures n <= 28
  {
    match index
    case 32 => 24 case 33 => 24 case 34 => 25 case 35 => 25 case 36 => 0 case 37 => 1 case 38 => 2 case 39 => 4
    case 40 => 6 case 41 => 8 case 42 => 10 case 43 => 11 case 44 => 12 case 45 => 12 case 46 => 13 case 47 => 14
    case 48 => 15 case 49 => 15 case 50 => 16 case 51 => 17 case 52 => 17 case 53 => 18 case 54 => 18 case 55 => 19
    case 56 => 19 case 57 => 20 case 58 => 20 case 59 => 21 case 60 => 21 case 61 => 22 case 62 => 23 case _ => 23
  }

  function Steps64(index: nat): (n: nat)
    requires 64 <= index < 96
    ensures n <= 28
  {
    match index
    case 64 => 0 case 65 => 1 case 66 => 2 case 67 => 3 case 68 => 5 case 69 => 7 case 70 => 9 case 71 => 10
    case 72 => 10 case 73 => 11 case 74 => 11 case 75 => 12 case 76 => 12 case 77 => 13 case 78 => 14 case 79 => 14
    case 80 => 0 case 81 => 1 case 82 => 2 case 83 => 4 case 84 => 6 case 85 => 8 case 86 => 8 case 87 => 9
    case 88 => 0 case 89 => 1 case 90 => 3 case 91 => 5 case 92 => 7 case 93 => 7 case 94 => 8 case _ => 0
  }

  function Steps96(index: nat): (n: nat)
    requires 96 <= index < 113
    ensures n <= 28
  {
    match index
    case 96 => 2 case 97 => 4 case 98 => 5 case 99 => 6 case 100 => 7 case 101 => 1 case 102 => 3 case 103 => 4
    case 104 => 5 case 105 => 0 case 106 => 2 case 107 => 3 case 108 => 1 case 109 => 2 case 110 => 0 case 111 => 1
    case _ => 0
  }

  /** A state that adapts: a less probable symbol makes the estimate larger and brings the
      change of the sense nearer, or changes it; a more probable one makes the estimate
      smaller, unless it is the smallest there is. */
  ghost predicate Adapts(index: nat)
    requires index < 113
  {
    var e := Table(index);
    && e.nextLps < 113 && e.nextMps < 113
    && (e.switchMps == 1 <==> StepsToSwitch(index) == 0)
    && (e.switchMps == 0 ==> Table(e.nextLps).qe > e.qe && StepsToSwitch(e.nextLps) < StepsToSwitch(index))
    && (if e.qe == 1 then e.nextMps == index else Table(e.nextMps).qe < e.qe)
  }

  lemma Adapts0(index: nat)
    requires 0 <= index < 8
    ensures Adapts(index)
  {
  }

  lemma Adapts8(index: nat)
    requires 8 <= index < 16
    ensures Adapts(index)
  {
  }

  lemma Adapts16(index: nat)
    requires 16 <= index < 24
    ensures Adapts(index)
  {
  }

  lemma Adapts24(index: nat)
    requires 24 <= index < 32
    ensures Adapts(index)
  {
  }

  lemma Adapts32(index: nat)
    requires 32 <= index < 40
    ensures Adapts(index)
  {
  }

  lemma Adapts40(index: nat)
    requires 40 <= index < 48
    ensures Adapts(index)
  {
  }

  lemma Adapts48(index: nat)
    requires 48 <= index < 52
    ensures Adapts(index)
  {
  }

  lemma Adapts52(index: nat)
    requires 52 <= index < 56
    ensures Adapts(index)
  {
  }

  lemma Adapts56(index: nat)
    requires 56 <= index < 60
    ensures Adapts(index)
  {
  }

  lemma Adapts60(index: nat)
    requires 60 <= index < 64
    ensures Adapts(index)
  {
  }

  lemma Adapts64(index: nat)
    requires 64 <= index < 72
    ensures Adapts(index)
  {
  }

  lemma Adapts72(index: nat)
    requires 72 <= index < 80
    ensures Adapts(index)
  {
  }

  lemma Adapts80(index: nat)
    requires 80 <= index < 84
    ensures Adapts(index)
  {
  }

  lemma Adapts84(index: nat)
    requires 84 <= index < 88
    ensures Adapts(index)
  {
  }

  lemma Adapts88(index: nat)
    requires 88 <= index < 92
    ensures Adapts(index)
  {
  }

  lemma Adapts92(index: nat)
    requires 92 <= index < 96
    ensures Adapts(index)
  {
  }

  lemma Adapts96(index: nat)
    requires 96 <= index < 104
    ensures Adapts(index)
  {
  }

  lemma Adapts104(index: nat)
    requires 104 <= index < 113
    ensures Adapts(index)
  {
  }

  lemma RowsAdapt(index: nat)
    requires index < 113
    ensures Adapts(index)
  {
    hide Adapts;
    if index < 8 { Adapts0(index); }
    else if index < 16 { Adapts8(index); }
    else if index < 24 { Adapts16(index); }
    else if index < 32 { Adapts24(index); }
    else if index < 40 { Adapts32(index); }
    else if index < 48 { Adapts40(index); }
    else if index < 52 { Adapts48(index); }
    else if index < 56 { Adapts52(index); }
    else if index < 60 { Adapts56(index); }
    else if index < 64 { Adapts60(index); }
    else if index < 72 { Adapts64(index); }
    else if index < 80 { Adapts72(index); }
    else if index < 84 { Adapts80(index); }
    else if index < 88 { Adapts84(index); }
    else if index < 92 { Adapts88(index); }
    else if index < 96 { Adapts92(index); }
    else if index < 104 { Adapts96(index); }
    else { Adapts104(index); }
  }

  /** Only state 113 never adapts: it keeps the estimate of one half. */
  lemma FixedStays(sv: Stat)
    requires Index(sv) == 113
    ensures AfterLps(sv) == sv && AfterMps(sv) == sv
  {
  }

  // ---------------------------------------------------------------- learning

  /** What the estimation makes of a symbol, when it is adapted to it. */
  function Learned(sv: Stat, bit: bool): Stat {
    if bit == Mps(sv) then AfterMps(sv) else AfterLps(sv)
  }

  function LearnedTimes(sv: Stat, bit: bool, n: nat): Stat {
    if n == 0 then sv else Learned(LearnedTimes(sv, bit, n - 1), bit)
  }

  /** How far a bin is from taking `bit` for the more probable symbol. */
  function Distance(sv: Stat, bit: bool): (n: nat)
    requires Index(sv) < 113
    ensures n <= 29 && (n == 0 <==> Mps(sv) == bit)
  {
    if Mps(sv) == bit then 0 else StepsToSwitch(Index(sv)) + 1
  }

  lemma Nearer(sv: Stat, bit: bool)
    requires Index(sv) < 113
    ensures Index(Learned(sv, bit)) < 113
    ensures Distance(sv, bit) == 0 ==> Distance(Learned(sv, bit), bit) == 0
    ensures Distance(sv, bit) > 0 ==> Distance(Learned(sv, bit), bit) < Distance(sv, bit)
  {
    hide Table, StepsToSwitch, AfterLps, AfterMps;
    RowsAdapt(Index(sv));
    SenseAfter(sv);
  }

  /** In every state that adapts, 29 equal symbols make that symbol the more probable one. */
  lemma {:induction false} Learns(sv: Stat, bit: bool, n: nat)
    requires Index(sv) < 113
    ensures Index(LearnedTimes(sv, bit, n)) < 113
    ensures Distance(LearnedTimes(sv, bit, n), bit) <= if n >= Distance(sv, bit) then 0 else Distance(sv, bit) - n
    ensures n >= 29 ==> Mps(LearnedTimes(sv, bit, n)) == bit
  {
    hide Distance, Learned;
    if n > 0 {
      Learns(sv, bit, n - 1);
      Nearer(LearnedTimes(sv, bit, n - 1), bit);
    }
  }

  /** Then the estimate for the other symbol falls with each one, down to the smallest. */
  lemma {:induction false} Sharpens(sv: Stat, n: nat)
    requires Index(sv) < 113
    ensures Index(LearnedTimes(sv, Mps(sv), n)) < 113 && Mps(LearnedTimes(sv, Mps(sv), n)) == Mps(sv)
    ensures Qe(LearnedTimes(sv, Mps(sv), n)) <= if n < Qe(sv) then Qe(sv) - n else 1
  {
    hide Table, AfterMps;
    if n > 0 {
      Sharpens(sv, n - 1);
      var now := LearnedTimes(sv, Mps(sv), n - 1);
      SenseAfter(now);
      RowsAdapt(Index(now));
    }
  }

  // -------------------------------------------------------------- in a segment

  /** How many decisions of a plan are coded in a bin. */
  function CodedIn(plan: Plan, bin: Bin): nat {
    match plan
    case Nil => 0
    case Cons(d, rest) => (if d.bin == bin then 1 else 0) + CodedIn(rest, bin)
  }

  /** All of them are equal. */
  predicate Always(plan: Plan, bin: Bin, bit: bool) {
    match plan
    case Nil => true
    case Cons(d, rest) => (d.bin == bin ==> d.bit == bit) && Always(rest, bin, bit)
  }

  /** Whatever the interval, a less probable symbol is always learned. */
  lemma AdaptNearer(iv: Interval, sv: Stat, bit: bool)
    requires Normal(iv) && Index(sv) < 113
    ensures var now := Adapt(iv, sv, bit);
            Index(now) < 113 && Distance(now, bit) <= (if Distance(sv, bit) > 0 then Distance(sv, bit) - 1 else 0)
  {
    hide Table, StepsToSwitch, AfterLps, AfterMps, Distance;
    Nearer(sv, bit);
    assert Distance(sv, bit) == 0 <==> Mps(sv) == bit;
  }

  /** A bin in which only `bit` is coded takes it for the more probable symbol after 29
      decisions at the latest, whatever is coded in other bins between them. */
  lemma {:induction false} BinLearns(s: Coding, plan: Plan, bin: Bin, bit: bool)
    requires Normal(s.iv) && Index(StatOf(s.stats, bin)) < 113 && Always(plan, bin, bit)
    ensures var sv, n := StatOf(Run(s, plan).stats, bin), Distance(StatOf(s.stats, bin), bit);
            && Index(sv) < 113 && Distance(sv, bit) <= (if n > CodedIn(plan, bin) then n - CodedIn(plan, bin) else 0)
            && (CodedIn(plan, bin) >= 29 ==> Mps(sv) == bit)
    decreases plan
  {
    hide Distance, Adapt, Normalize, Narrow;
    match plan {
      case Nil =>
      case Cons(d, rest) =>
        if d.bin == bin { AdaptNearer(s.iv, StatOf(s.stats, bin), bit); }
        BinLearns(Step(s, d), rest, bin, bit);
    }
  }


  /** A bin that has not been used gives both symbols the same estimate, and turns to the first
      one that is coded; the bin with the fixed estimate does not, though its estimate is the same. */
  lemma FreshBin(bin: Bin)
    requires !bin.Fixed?
    ensures var sv := StatOf(map[], bin);
            && Index(sv) < 113 && !Mps(sv) && Distance(sv, true) == 1 && Qe(sv) == Qe(StatOf(map[], Fixed))
    ensures Index(StatOf(map[], Fixed)) == 113 && !Mps(StatOf(map[], Fixed))
  {
  }
}
