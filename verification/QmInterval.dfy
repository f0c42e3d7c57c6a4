/** The coding interval of the QM coder, kept exactly.

  Neither coder stores this interval: the encoder holds the low bits of its base next
  to bytes already sent, the decoder only the distance from the base to the code
  value.  `Interval` is what both registers stand for, so it is the common
  specification of jcarith.c and jdarith.c (sections D.1 and D.2 of ITU-T T.81).
  */
module QmInterval {
  import opened Shifts
  import opened Aritab
  import opened Wrappers

  /** The real interval from base/2^scale to (base + range)/2^scale. */
  datatype Interval = Interval(base: nat, range: nat, scale: nat)

  const WHOLE := Interval(0, 0x10000, 16)

  predicate Normal(iv: Interval) {
    0x8000 <= iv.range <= 0x10000
  }

  /** The subinterval chosen by a decision.  The larger part always goes to the more
      probable symbol: it takes the lower part unless the two are exchanged. */
  function Narrow(iv: Interval, sv: Stat, bit: bool): (sub: Interval)
    requires Normal(iv)
    ensures 1 <= sub.range <= 0x10000
    ensures iv.base <= sub.base && sub.base + sub.range <= iv.base + iv.range
  {
    var qe := Qe(sv);
    var rest := iv.range - qe;
    if (bit == Mps(sv)) == (rest >= qe) then iv.(range := rest)
    else Interval(iv.base + rest, qe, iv.scale)
  }

  /** The new estimate; it is left alone when no renormalisation follows. */
  function Adapt(iv: Interval, sv: Stat, bit: bool): Stat
    requires Normal(iv)
  {
    if bit != Mps(sv) then AfterLps(sv)
    else if iv.range - Qe(sv) >= 0x8000 then sv
    else AfterMps(sv)
  }

  /** Renormalisation doubles until the range is at least 0x8000. */
  function Normalize(iv: Interval): (n: Interval)
    requires 1 <= iv.range <= 0x10000
    ensures Normal(n) && n.scale >= iv.scale
    decreases 0x10000 - iv.range
  {
    if iv.range >= 0x8000 then iv
    else Normalize(Interval(2 * iv.base, 2 * iv.range, iv.scale + 1))
  }

  /** The interval lies inside the unit interval. */
  ghost predicate InUnit(iv: Interval) {
    iv.base + iv.range <= Shl(1, iv.scale)
  }

  // ---------------------------------------------------------------- decisions

  /** A statistics bin: table and offset, or the bin with the fixed estimate. */
  datatype Bin = Dc(tbl: nat, offset: nat) | Ac(tbl: nat, offset: nat) | Fixed

  /** Bins that were never adapted still hold their initial value. */
  type Stats = map<Bin, Stat>

  function StatOf(stats: Stats, bin: Bin): Stat {
    if bin in stats then stats[bin] else if bin.Fixed? then FIXED_STATE else 0
  }

  datatype Decision = Decision(bin: Bin, bit: bool)

  datatype Coding = Coding(iv: Interval, stats: Stats)

  const START := Coding(WHOLE, map[])

  function Step(s: Coding, d: Decision): (t: Coding)
    requires Normal(s.iv)
    ensures Normal(t.iv)
  {
    var sv := StatOf(s.stats, d.bin);
    Coding(Normalize(Narrow(s.iv, sv, d.bit)), s.stats[d.bin := Adapt(s.iv, sv, d.bit)])
  }

  /** Decisions still to be coded, in order. */
  type Plan = List<Decision>

  function Run(s: Coding, plan: Plan): (t: Coding)
    requires Normal(s.iv)
    ensures Normal(t.iv)
    decreases plan
  {
    match plan
    case Nil => s
    case Cons(d, rest) => Run(Step(s, d), rest)
  }

  // ------------------------------------------------------- code values inside

  /** The byte string `d`, read as a binary fraction, lies in the interval; the test
      looks at its first `k` bytes only. */
  ghost predicate Inside(iv: Interval, d: seq<byte>, k: nat) {
    && 8 * k >= iv.scale
    && Shl(iv.base, 8 * k - iv.scale) <= Prefix(d, k) < Shl(iv.base + iv.range, 8 * k - iv.scale)
  }

  lemma InsideNext(iv: Interval, d: seq<byte>, k: nat)
    requires 8 * k >= iv.scale
    ensures Inside(iv, d, k) <==> Inside(iv, d, k + 1)
  {
    ShlBy8(iv.base, 8 * k - iv.scale);
    ShlBy8(iv.base + iv.range, 8 * k - iv.scale);
    assert 8 * (k + 1) - iv.scale == 8 * k - iv.scale + 8;
  }

  /** Any number of bytes that reaches the scale gives the same answer. */
  lemma {:induction false} InsideAny(iv: Interval, d: seq<byte>, j: nat, k: nat)
    requires 8 * j >= iv.scale && j <= k
    ensures Inside(iv, d, j) <==> Inside(iv, d, k)
    decreases k - j
  {
    if j < k {
      InsideNext(iv, d, j);
      InsideAny(iv, d, j + 1, k);
    }
  }

  lemma {:induction false} NormalizeInside(iv: Interval, d: seq<byte>, k: nat)
    requires 1 <= iv.range <= 0x10000
    requires 8 * k >= Normalize(iv).scale
    ensures Inside(Normalize(iv), d, k) <==> Inside(iv, d, k)
    decreases 0x10000 - iv.range
  {
    if iv.range < 0x8000 {
      NormalizeInside(Interval(2 * iv.base, 2 * iv.range, iv.scale + 1), d, k);
      ShlShl(iv.base, 1, 8 * k - iv.scale - 1);
      ShlShl(iv.base + iv.range, 1, 8 * k - iv.scale - 1);
      assert Shl(iv.base, 1) == 2 * iv.base;
      assert Shl(iv.base + iv.range, 1) == 2 * (iv.base + iv.range);
    }
  }

  /** A code value in a subinterval lies in the interval and tells which part it is in. */
  lemma NarrowInside(iv: Interval, sv: Stat, bit: bool, d: seq<byte>, k: nat)
    requires Normal(iv) && Inside(Narrow(iv, sv, bit), d, k)
    ensures Inside(iv, d, k)
    ensures var qe := Qe(sv);
            var cut := Shl(iv.base + (iv.range - qe), 8 * k - iv.scale);
            Prefix(d, k) < cut <==> ((bit == Mps(sv)) == (iv.range - qe >= qe))
  {
    var sub := Narrow(iv, sv, bit);
    ShlOrder(iv.base, sub.base, 8 * k - iv.scale);
    ShlOrder(sub.base + sub.range, iv.base + iv.range, 8 * k - iv.scale);
  }

  /** The two parts of an interval have no code value in common. */
  lemma PartsDisjoint(iv: Interval, sv: Stat, bit: bool, other: bool, d: seq<byte>, k: nat)
    requires Normal(iv) && Inside(Narrow(iv, sv, bit), d, k) && Inside(Narrow(iv, sv, other), d, k)
    ensures bit == other
  {
    NarrowInside(iv, sv, bit, d, k);
    NarrowInside(iv, sv, other, d, k);
  }

  /** Every code value in the interval after a run lies in the interval before it. */
  lemma {:induction false} RunInside(s: Coding, plan: Plan, d: seq<byte>, k: nat)
    requires Normal(s.iv) && Inside(Run(s, plan).iv, d, k)
    ensures Inside(s.iv, d, k)
    decreases plan
  {
    if plan.Cons? {
      var sv := StatOf(s.stats, plan.head.bin);
      RunInside(Step(s, plan.head), plan.tail, d, k);
      NormalizeInside(Narrow(s.iv, sv, plan.head.bit), d, k);
      NarrowInside(s.iv, sv, plan.head.bit, d, k);
    }
  }
}
