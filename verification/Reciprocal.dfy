/** Quantisation by multiplication with a reciprocal (jcdctmgr.c). */
module Reciprocal {
  import opened Shifts
  import opened BitStrings
  import opened PointTransform

  /** Division with rounding to the nearest integer, halves away from zero. */
  function Rounded(t: int, d: nat): int
    requires d > 0
  {
    if t < 0 then -((-t + d / 2) / d) else (t + d / 2) / d
  }

  // --------------------------------------------------------------- products

  /** A product, of which the proofs below use only the laws that follow. */
  function Times(a: nat, b: nat): nat {
    a * b
  }

  lemma TimesAdd(a: nat, b: nat, c: nat)
    ensures Times(a + b, c) == Times(a, c) + Times(b, c)
  {
  }

  lemma TimesSwap(a: nat, b: nat)
    ensures Times(a, b) == Times(b, a)
  {
  }

  lemma TimesAssoc(a: nat, b: nat, c: nat)
    ensures Times(Times(a, b), c) == Times(a, Times(b, c))
  {
    assert (a * b) * c == a * (b * c);
  }

  lemma TimesOrder(a: nat, b: nat, c: nat)
    ensures a <= b ==> Times(a, c) <= Times(b, c)
    ensures Times(a, c) < Times(b, c) ==> a < b
  {
    if a <= b { MulOrder(a, b, c); } else { MulOrder(b, a, c); }
  }

  lemma TimesOne(a: nat)
    ensures Times(1, a) == a == Times(a, 1) && Times(0, a) == 0
  {
  }

  lemma TimesShl(h: nat, n: nat)
    ensures Shl(h, n) == Times(h, Shl(1, n))
  {
    ShlIsProduct(h, n);
  }

  /** The quotient is what fits in between. */
  lemma QuotientIs(v: nat, h: nat, q: nat)
    requires h > 0 && Times(q, h) <= v < Times(q, h) + h
    ensures v / h == q
  {
    Quotient(v, h, q);
  }

  lemma QuotientOf(v: nat, h: nat) returns (q: nat, m: nat)
    requires h > 0
    ensures q == v / h && v == Times(q, h) + m && m < h && m == v % h
  {
    q, m := v / h, v % h;
  }

  /** The highest bit of a 16-bit number through binary search. */
  method Flss(v: nat) returns (bit: nat)
    requires v < 0x10000
    ensures v == 0 ==> bit == 0
    ensures v > 0 ==> 1 <= bit <= 16 && Shl(1, bit - 1) <= v < Shl(1, bit)
  {
    if v == 0 { return 0; }
    var val := v;
    bit := 16;
    assert val == Shl(v, 0);
    hide Shl;
    if val < 0x100 {
      ShlBy8(v, 0);
      bit, val := bit - 8, val * 0x100;
    }
    if val < 0x1000 {
      ShlBy2(v, 16 - bit);
      ShlBy2(v, 18 - bit);
      bit, val := bit - 4, val * 0x10;
    }
    if val < 0x4000 {
      ShlBy2(v, 16 - bit);
      bit, val := bit - 2, val * 4;
    }
    if val < 0x8000 {
      ShlDouble(v, 16 - bit);
      bit, val := bit - 1, val * 2;
    }
    HighestBit(v, bit);
  }

  lemma HighestBit(v: nat, bit: nat)
    requires 1 <= bit <= 16 && 0x8000 <= Shl(v, 16 - bit) < 0x10000
    ensures Shl(1, bit - 1) <= v < Shl(1, bit)
  {
    Powers();
    ShlShl(1, bit, 16 - bit);
    ShlShl(1, bit - 1, 16 - bit);
    ShlOrder(Shl(1, bit - 1), v, 16 - bit);
    ShlOrder(v, Shl(1, bit), 16 - bit);
  }

  // ---------------------------------------------------------- the reciprocal

  /** What is stored for a divisor: the reciprocal, the correction and the shift. */
  datatype Entry = Entry(recip: nat, corr: nat, shift: int)

  lemma {:induction false} ShrIs(q: nat, m: nat, r: nat)
    requires m < Shl(1, r)
    ensures Shr(Shl(q, r) + m, r) == q
  {
    if r > 0 {
      ShlDouble(q, r - 1);
      ShlDouble(1, r - 1);
      var low, high := m % 2, m / 2;
      ShrHalf(Shl(q, r - 1) + high, low, r - 1);
      ShrIs(q, high, r - 1);
    }
  }

  /** The lowest bit is lost first. */
  lemma {:induction false} ShrHalf(v: nat, bit: nat, r: nat)
    requires bit <= 1
    ensures Shr(2 * v + bit, r + 1) == Shr(v, r)
  {
    if r > 0 { ShrHalf(v, bit, r - 1); }
  }

  /** What the entry makes of the magnitude `x`, without any limit of width. */
  function Scaled(w: nat, e: Entry, x: nat): nat
    requires e.shift + w >= 0
  {
    Shr(Times(x + e.corr, e.recip), e.shift + w)
  }

  /** The entry divides, with rounding, everything that fits. */
  ghost predicate Divides(w: nat, d: nat, e: Entry)
    requires d > 0
  {
    && e.recip < Shl(1, w) && e.corr <= d / 2 + 1 && e.shift + w >= 0
    && forall x: nat | x + d / 2 + 1 < Shl(1, w) :: Scaled(w, e, x) == (x + d / 2) / d
  }

  /** `p / t == q` when `p * d` is `q * t * d` and less than `t * d` more. */
  lemma QuotientOfMultiple(p: nat, t: nat, q: nat, d: nat, extra: nat)
    requires t > 0 && d > 0 && Times(p, d) == Times(Times(q, t), d) + extra && extra < Times(d, t)
    ensures p / t == q
  {
    hide Times;
    var qt := Times(q, t);
    TimesSwap(d, t);
    TimesAdd(qt, t, d);
    TimesOrder(p, qt + t, d);
    if p < qt {
      TimesAdd(p, qt - p, d);
      TimesOrder(1, qt - p, d);
      TimesOne(d);
    }
    QuotientIs(p, t, q);
  }

  /** `floor((n + 1) * f / t)` when `f` is `t / d` rounded down: one more on the dividend
      makes up for it. */
  lemma RoundedDown(n: nat, d: nat, f: nat, t: nat, fr: nat)
    requires d > 0 && t > 0 && Times(f, d) + fr == t && fr > 0 && Times(n + 1, fr) <= t
    ensures Times(n + 1, f) / t == n / d
  {
    hide Times;
    var q, m := QuotientOf(n, d);
    var p := Times(n + 1, f);
    TimesAssoc(n + 1, f, d);
    TimesSwap(n + 1, Times(f, d));
    TimesSwap(n + 1, fr);
    TimesAdd(Times(f, d), fr, n + 1);
    TimesSwap(t, n + 1);
    assert Times(p, d) + Times(n + 1, fr) == Times(n + 1, t);
    TimesAdd(Times(q, d), m + 1, t);
    TimesAssoc(q, d, t);
    TimesSwap(d, t);
    TimesAssoc(q, t, d);
    TimesOrder(1, m + 1, t);
    TimesOrder(m + 1, d, t);
    TimesOne(t);
    TimesOrder(1, n + 1, fr);
    TimesOne(fr);
    QuotientOfMultiple(p, t, q, d, Times(m + 1, t) - Times(n + 1, fr));
  }

  /** `floor(n * f / t)` when `f` is `t / d` rounded up. */
  lemma RoundedUp(n: nat, d: nat, f: nat, t: nat, e: nat)
    requires d > 0 && t > 0 && Times(f, d) == t + e && Times(n, e) < t
    ensures Times(n, f) / t == n / d
  {
    hide Times;
    var q, m := QuotientOf(n, d);
    var p := Times(n, f);
    TimesAssoc(n, f, d);
    TimesSwap(n, Times(f, d));
    TimesSwap(n, e);
    TimesAdd(t, e, n);
    TimesSwap(t, n);
    assert Times(p, d) == Times(n, t) + Times(n, e);
    TimesAdd(Times(q, d), m, t);
    TimesAssoc(q, d, t);
    TimesSwap(d, t);
    TimesAssoc(q, t, d);
    TimesAdd(m, 1, t);
    TimesOne(t);
    TimesOrder(m + 1, d, t);
    QuotientOfMultiple(p, t, q, d, Times(m, t) + Times(n, e));
  }

  /** The product of a number below 2^m and one up to 2^n. */
  lemma TimesBelow(x: nat, y: nat, m: nat, n: nat)
    requires x < Shl(1, m) && y <= Shl(1, n)
    ensures Times(x, y) < Shl(1, m + n)
  {
    hide Times;
    TimesSwap(x, y);
    TimesOrder(y, Shl(1, n), x);
    TimesSwap(Shl(1, n), x);
    TimesShl(x, n);
    ShlOrder(x, Shl(1, m), n);
    ShlShl(1, m, n);
  }

  // ------------------------------------------------------- compute_reciprocal

  /** The divisor is a power of two. */
  lemma PowerEntry(w: nat, d: nat, b: nat)
    requires 1 <= b && d == Shl(1, b) > 0 && w >= 1
    ensures Divides(w, d, Entry(Shl(1, w - 1), d / 2, b - 1))
  {
    var e := Entry(Shl(1, w - 1), d / 2, b - 1);
    ShlExponent(w - 1, w);
    forall x: nat ensures Scaled(w, e, x) == (x + d / 2) / d {
      var n := x + d / 2;
      hide Times, Shr;
      var q, m := QuotientOf(n, d);
      TimesShl(n, w - 1);
      ScaledBy(n, q, m, b, w - 1);
    }
  }

  /** Shifting left and right again. */
  lemma ScaledBy(n: nat, q: nat, m: nat, b: nat, k: nat)
    requires n == Times(q, Shl(1, b)) + m && m < Shl(1, b)
    ensures Shr(Shl(n, k), b + k) == q
  {
    hide Times;
    TimesShl(q, b);
    ShlAdd(Shl(q, b), m, k);
    ShlShl(q, b, k);
    ShlOrder(m, Shl(1, b), k);
    ShlShl(1, b, k);
    ShrIs(q, Shl(m, k), b + k);
  }

  /** The reciprocal is rounded down, and the correction one more. */
  lemma DownEntry(w: nat, d: nat, b: nat, f: nat, fr: nat)
    requires Shl(1, b) < d < Shl(1, b + 1) && Times(f, d) + fr == Shl(1, w + b) && 0 < fr <= d / 2
    ensures Divides(w, d, Entry(f, d / 2 + 1, b))
  {
    hide Times, Shr, Shl;
    FitsWidth(w, d, b, f);
    ShlDouble(1, b);
    var entry := Entry(f, d / 2 + 1, b);
    forall x: nat | x + d / 2 + 1 < Shl(1, w) ensures Scaled(w, entry, x) == (x + d / 2) / d {
      DownAt(w, d, b, f, fr, x, d / 2);
    }
  }

  lemma DownAt(w: nat, d: nat, b: nat, f: nat, fr: nat, x: nat, h: nat)
    requires d > 0 && 0 < fr <= Shl(1, b) && Times(f, d) + fr == Shl(1, w + b) && x + h + 1 < Shl(1, w)
    ensures Scaled(w, Entry(f, h + 1, b), x) == (x + h) / d
  {
    hide Times, Shr, Shl;
    ShlPositive(w + b);
    TimesBelow(x + h + 1, fr, w, b);
    RoundedDown(x + h, d, f, Shl(1, w + b), fr);
    ShrDivides(Times(x + h + 1, f), w + b, (x + h) / d);
  }

  /** The reciprocal is rounded up. */
  lemma UpEntry(w: nat, d: nat, b: nat, f: nat, e: nat)
    requires Shl(1, b) < d < Shl(1, b + 1) && Times(f, d) == Shl(1, w + b) + e && e <= d / 2
    requires b <= w
    ensures Divides(w, d, Entry(f, d / 2, b))
  {
    hide Times, Shr, Shl;
    FitsRounded(w, d, b, f, e);
    ShlDouble(1, b);
    var entry := Entry(f, d / 2, b);
    forall x: nat | x + d / 2 + 1 < Shl(1, w) ensures Scaled(w, entry, x) == (x + d / 2) / d {
      UpAt(w, d, b, f, e, x, d / 2);
    }
  }

  lemma UpAt(w: nat, d: nat, b: nat, f: nat, e: nat, x: nat, h: nat)
    requires d > 0 && e <= Shl(1, b) && Times(f, d) == Shl(1, w + b) + e && x + h < Shl(1, w)
    ensures Scaled(w, Entry(f, h, b), x) == (x + h) / d
  {
    hide Times, Shr, Shl;
    ShlPositive(w + b);
    TimesBelow(x + h, e, w, b);
    RoundedUp(x + h, d, f, Shl(1, w + b), e);
    ShrDivides(Times(x + h, f), w + b, (x + h) / d);
  }

  lemma ShrDivides(p: nat, r: nat, q: nat)
    requires Shl(1, r) > 0 && p / Shl(1, r) == q
    ensures Shr(p, r) == q
  {
    hide Times, Shr;
    var q', m := QuotientOf(p, Shl(1, r));
    TimesShl(q, r);
    ShrIs(q, m, r);
  }

  lemma FitsWidth(w: nat, d: nat, b: nat, f: nat)
    requires Shl(1, b) < d && Times(f, d) <= Shl(1, w + b)
    ensures f < Shl(1, w) && Shl(1, w + b) > 0
  {
    hide Times;
    ShlPositive(w + b);
    if f >= Shl(1, w) {
      ShlPositive(w);
      TimesOrder(Shl(1, w), f, d);
      TimesSwap(Shl(1, w), d);
      TimesAdd(Shl(1, b), d - Shl(1, b), Shl(1, w));
      TimesOrder(1, d - Shl(1, b), Shl(1, w));
      TimesOne(Shl(1, w));
      TimesShl(Shl(1, b), w);
      ShlShl(1, b, w);
    }
  }

  lemma FitsRounded(w: nat, d: nat, b: nat, f: nat, e: nat)
    requires Shl(1, b) < d && Times(f, d) == Shl(1, w + b) + e && e <= d / 2 && d < Shl(1, b + 1) && b <= w
    ensures f < Shl(1, w) && Shl(1, w + b) > 0
  {
    hide Times;
    ShlPositive(w + b);
    if f >= Shl(1, w) {
      TimesOrder(Shl(1, w), f, d);
      TimesSwap(Shl(1, w), d);
      TimesAdd(Shl(1, b), d - Shl(1, b), Shl(1, w));
      TimesOrder(1, d - Shl(1, b), Shl(1, w));
      TimesOne(Shl(1, w));
      TimesShl(Shl(1, b), w);
      ShlShl(1, b, w);
      ShlDouble(1, b);
      if b < w { ShlExponent(b, w); }
    }
  }

  lemma UnitEntry(w: nat)
    ensures Divides(w, 1, Entry(1, 0, 0 - w)) || Shl(1, w) <= 1
  {
    var e := Entry(1, 0, 0 - w);
    forall x: nat ensures Scaled(w, e, x) == (x + 1 / 2) / 1 {
      TimesOne(x);
    }
  }

  /** The size of the element type DCTELEM in bits: 16 with SIMD support, else 32. */
  predicate Width(w: nat) {
    w == 16 || w == 32
  }

  function Modulus(w: nat): nat {
    if w == 16 then 0x10000 else 0x1_0000_0000
  }

  lemma WidthPower(w: nat)
    requires Width(w)
    ensures Shl(1, w) == Modulus(w)
  {
    Powers();
    ShlBy8(1, 16);
    ShlBy8(1, 24);
  }

  /** What a signed or unsigned word of `w` bits keeps of `v`. */
  function Signed16or32(v: int, w: nat): int {
    var u := v % Modulus(w);
    if 2 * u >= Modulus(w) then u - Modulus(w) else u
  }

  function Unsigned(v: int, w: nat): nat {
    v % Modulus(w)
  }

  lemma KeptUnsigned(v: nat, w: nat)
    requires v < Modulus(w)
    ensures Unsigned(Signed16or32(v, w), w) == v
  {
  }

  /** The entry for coefficient `i` as `quantize` reads it from the divisor table. */
  function EntryAt(dtbl: seq<int>, i: nat, w: nat): Entry
    requires |dtbl| == 256 && i < 64
  {
    Entry(Unsigned(dtbl[i], w), Unsigned(dtbl[i + 64], w), dtbl[i + 192])
  }

  lemma StoredEntry(dtbl: seq<int>, i: nat, w: nat, d: nat, e: Entry)
    requires |dtbl| == 256 && i < 64 && Width(w) && 0 < d < 0x10000 && Divides(w, d, e)
    requires dtbl[i] == Signed16or32(e.recip, w) && dtbl[i + 64] == Signed16or32(e.corr, w) && dtbl[i + 192] == e.shift
    ensures EntryAt(dtbl, i, w) == e
  {
    WidthPower(w);
    KeptUnsigned(e.recip, w);
    KeptUnsigned(e.corr, w);
  }

  /** Only powers of two divide a power of two. */
  lemma {:induction false} DivisorIsPower(f: nat, d: nat, r: nat, b: nat)
    requires Times(f, d) == Shl(1, r) && Shl(1, b) <= d < Shl(1, b + 1)
    ensures d == Shl(1, b)
    decreases r
  {
    if r == 0 {
      BothOne(f, d);
      if b > 0 { ShlPositive(b - 1); }
    } else if f % 2 == 0 {
      TimesAdd(f / 2, f / 2, d);
      DivisorIsPower(f / 2, d, r - 1, b);
    } else if d % 2 == 0 {
      TimesSwap(f, d);
      TimesAdd(d / 2, d / 2, f);
      TimesSwap(f, d / 2);
      DivisorIsPower(f, d / 2, r - 1, b - 1);
    } else {
      BothOdd(f / 2, d);
    }
  }

  lemma BothOne(f: nat, d: nat)
    requires Times(f, d) == 1
    ensures f == 1 && d == 1
  {
    if f > 1 {
      TimesOrder(2, f, d);
      TimesAdd(1, 1, d);
      TimesOne(d);
    }
    TimesOne(d);
  }

  lemma BothOdd(h: nat, d: nat)
    requires d % 2 == 1
    ensures Times(2 * h + 1, d) % 2 == 1
  {
    hide Times;
    TimesAdd(2 * h, 1, d);
    TimesAdd(h, h, d);
    TimesOne(d);
  }

  lemma PowerOfTwo(w: nat, d: nat, b: nat, f: nat)
    requires w >= 1 && Shl(1, b) <= d < Shl(1, b + 1) && Times(f, d) == Shl(1, w + b)
    ensures d == Shl(1, b) && f == Shl(1, w) && f / 2 == Shl(1, w - 1)
  {
    DivisorIsPower(f, d, w + b, b);
    hide Times;
    TimesShl(f, b);
    ShlShl(1, w, b);
    ShlOrder(f, Shl(1, w), b);
    ShlOrder(Shl(1, w), f, b);
    assert Shl(1, w) == 2 * Shl(1, w - 1);
  }

  lemma NotPower(w: nat, d: nat, b: nat, f: nat, fr: nat)
    requires Shl(1, b) <= d < Shl(1, b + 1) && Times(f, d) + fr == Shl(1, w + b) && 0 < fr < d
    ensures Shl(1, b) < d
  {
    hide Times;
    if d == Shl(1, b) {
      TimesShl(f, b);
      ShlShl(1, w, b);
      if f < Shl(1, w) {
        ShlOrder(f + 1, Shl(1, w), b);
        ShlAdd(f, 1, b);
      } else {
        ShlOrder(Shl(1, w), f, b);
      }
      assert false;
    }
  }

  lemma NextMultiple(f: nat, d: nat)
    ensures Times(f + 1, d) == Times(f, d) + d
  {
  }

  /** Only 2 has two bits and divides a power of two. */
  lemma TwoBits(d: nat, b: nat)
    requires Shl(1, b) <= d < Shl(1, b + 1) && d >= 2
    ensures b >= 1 && (d == 2 ==> b == 1 && d == Shl(1, b)) && (b == 1 && d == Shl(1, b) ==> d == 2)
  {
    if b > 1 {
      ShlExponent(1, b);
      assert Shl(1, 1) == 2;
    }
  }

  lemma LessThanWidth(d: nat, b: nat)
    requires Shl(1, b) <= d < 0x10000
    ensures b <= 15
  {
    Powers();
    ExponentOrder(b, 16);
  }

  /** The entry for a divisor with highest bit `b`. */
  function EntryFor(w: nat, d: nat, b: nat): Entry
    requires d > 0
  {
    var fq, fr := Shl(1, w + b) / d, Shl(1, w + b) % d;
    if fr == 0 then Entry(fq / 2, d / 2, b - 1)
    else if fr <= d / 2 then Entry(fq, d / 2 + 1, b)
    else Entry(fq + 1, d / 2, b)
  }

  /** The reciprocal, correction and shift for a divisor of 2 or more. */
  method FindEntry(w: nat, divisor: nat) returns (fq: nat, c: nat, r: nat, ghost bits: nat)
    requires Width(w) && 2 <= divisor < 0x10000
    ensures Shl(1, bits) <= divisor < Shl(1, bits + 1) && Entry(fq, c, r - w) == EntryFor(w, divisor, bits)
    ensures w <= r <= w + 15 && Divides(w, divisor, Entry(fq, c, r - w))
    ensures w == 16 ==> (r <= 16 <==> divisor == 2)
  {
    hide Divides, Shl, Times;
    var b := Flss(divisor);
    b := b - 1;
    bits := b;
    r := w + b;
    ShlPositive(r);
    var power := Shl(1, r);
    ghost var q, m := QuotientOf(power, divisor);
    fq := power / divisor;
    var fr := power % divisor;
    c := divisor / 2;
    TwoBits(divisor, b);
    LessThanWidth(divisor, b);
    if fr == 0 {
      PowerOfTwo(w, divisor, b, fq);
      PowerEntry(w, divisor, b);
      fq := fq / 2;
      r := r - 1;
    } else if fr <= divisor / 2 {
      NotPower(w, divisor, b, fq, fr);
      DownEntry(w, divisor, b, fq, fr);
      c := c + 1;
    } else {
      NotPower(w, divisor, b, fq, fr);
      NextMultiple(fq, divisor);
      UpEntry(w, divisor, b, fq + 1, divisor - fr);
      fq := fq + 1;
    }
  }

  // -------------------------------------------------------------- the vector code

  /** The scale that stands for a shift, in a cell of 16 bits. */
  function ScaleAt(dtbl: seq<int>, i: nat): nat
    requires |dtbl| == 256 && i < 64
  {
    Unsigned(dtbl[i + 128], 16)
  }

  /** A multiplication that keeps the high half, as vector code has it. */
  function MultiplyHigh(a: nat, b: nat): nat {
    Shr(Times(a, b), 16)
  }

  /** What two of them, by the reciprocal and by the scale, make of a magnitude. */
  function VectorQuotient(e: Entry, scale: nat, x: nat): nat {
    MultiplyHigh(MultiplyHigh(x + e.corr, e.recip), scale)
  }

  /** They divide, with rounding, everything that fits. */
  ghost predicate VectorDivides(d: nat, e: Entry, scale: nat)
    requires d > 0
  {
    forall x: nat | x + d / 2 + 1 < 0x10000 :: VectorQuotient(e, scale, x) == (x + d / 2) / d
  }

  lemma {:induction false} ShrTwice(v: nat, j: nat, k: nat)
    ensures Shr(Shr(v, j), k) == Shr(v, j + k)
    decreases k
  {
    if k > 0 { ShrTwice(v, j, k - 1); }
  }

  lemma {:induction false} ShrLess(v: nat, j: nat, k: nat)
    ensures Shr(Shl(v, j), j + k) == Shr(v, k)
    decreases j
  {
    if j > 0 {
      ShrTwice(Shl(v, j), 1, j - 1 + k);
      assert Shr(Shl(v, j), 1) == Shr(Shl(v, j), 0) / 2 == Shl(v, j - 1);
      ShrLess(v, j - 1, k);
    }
  }

  /** The scale makes up for what the high half shifts too much. */
  lemma ScaleShifts(d: nat, e: Entry)
    requires 0 < d < 0x10000 && Divides(16, d, e) && 0 <= e.shift <= 16
    ensures VectorDivides(d, e, Shl(1, 16 - e.shift))
  {
    Powers();
    hide Times, Shr, Shl;
    var scale := Shl(1, 16 - e.shift);
    forall x: nat | x + d / 2 + 1 < 0x10000 ensures VectorQuotient(e, scale, x) == (x + d / 2) / d {
      assert Scaled(16, e, x) == (x + d / 2) / d;
      HalvesShift(Times(x + e.corr, e.recip), e.shift);
    }
  }

  lemma HalvesShift(v: nat, shift: nat)
    requires shift <= 16
    ensures MultiplyHigh(Shr(v, 16), Shl(1, 16 - shift)) == Shr(v, shift + 16)
  {
    hide Times, Shr, Shl;
    TimesShl(Shr(v, 16), 16 - shift);
    ShrLess(Shr(v, 16), 16 - shift, shift);
    ShrTwice(v, 16, shift);
    assert 16 - shift + shift == 16 && 16 + shift == shift + 16;
  }

  /** The cell holds it. */
  lemma ScaleFits(shift: nat)
    requires 1 <= shift <= 16
    ensures Unsigned(Signed16or32(Shl(1, 16 - shift), 16), 16) == Shl(1, 16 - shift)
  {
    Powers();
    hide Shl;
    ExponentOrder(16 - shift, 16);
    KeptUnsigned(Shl(1, 16 - shift), 16);
  }

  /** `compute_reciprocal`: fills the entry of coefficient `i`.  The result tells whether the
      SIMD code may use the table. */
  method ComputeReciprocal(w: nat, divisor: nat, dtbl: array<int>, i: nat) returns (simd: bool)
    requires Width(w) && 1 <= divisor < 0x10000 && dtbl.Length == 256 && i < 64
    modifies dtbl
    ensures Divides(w, divisor, EntryAt(dtbl[..], i, w))
    ensures divisor == 1 <==> EntryAt(dtbl[..], i, w).shift == 0 - w
    ensures divisor == 1 ==> EntryAt(dtbl[..], i, w) == Entry(1, 0, 0 - w)
    ensures divisor > 1 ==> exists b: nat :: Shl(1, b) <= divisor < Shl(1, b + 1)
                                             && EntryAt(dtbl[..], i, w) == EntryFor(w, divisor, b)
    ensures w == 16 ==> (simd <==> divisor > 2)
    ensures w == 16 && simd ==> VectorDivides(divisor, EntryAt(dtbl[..], i, w), ScaleAt(dtbl[..], i))
    ensures w == 32 || divisor == 1 ==> dtbl[i + 128] == 1
    ensures forall m | 0 <= m < 256 && m !in {i, i + 64, i + 128, i + 192} :: dtbl[m] == old(dtbl[m])
  {
    hide Divides, VectorDivides;
    WidthPower(w);
    if divisor == 1 {
      dtbl[i], dtbl[i + 64], dtbl[i + 128], dtbl[i + 192] := 1, 0, 1, 0 - w;
      UnitEntry(w);
      StoredEntry(dtbl[..], i, w, 1, Entry(1, 0, 0 - w));
      return false;
    }
    ghost var bits;
    var fq, c, r;
    fq, c, r, bits := FindEntry(w, divisor);
    dtbl[i] := Signed16or32(fq, w);
    dtbl[i + 64] := Signed16or32(c, w);
    dtbl[i + 128] := if w == 16 then Signed16or32(Shl(1, 32 - r), w) else 1;
    dtbl[i + 192] := r - w;
    StoredEntry(dtbl[..], i, w, divisor, Entry(fq, c, r - w));
    if w == 16 && r > 16 {
      ScaleFits(r - w);
      ScaleShifts(divisor, Entry(fq, c, r - w));
    }
    return r > 16;
  }

  // ------------------------------------------------------------------ quantize

  /** Adding the correction, multiplying and shifting, in the widths of the C types: the sum
      in 32 bits, the product in twice the width of an element, the result in one. */
  function Descale(w: nat, e: Entry, temp: int): int
    requires e.shift + w >= 0
  {
    var sum := Unsigned(temp + e.corr, 32);
    var product := if w == 16 then Unsigned(Times(sum, e.recip), 32)
                   else Times(sum, e.recip) % 0x1_0000_0000_0000_0000;
    Signed16or32(Shr(product, e.shift + w), w)
  }

  /** What `quantize` makes of one coefficient. */
  function Quantized(w: nat, e: Entry, t: int): int
    requires e.shift + w >= 0
  {
    var temp := if t < 0 then Signed16or32(0 - Descale(w, e, Signed16or32(0 - t, w)), w) else Descale(w, e, t);
    Signed16or32(temp, 16)
  }

  /** Nothing wraps for a magnitude that fits: the result is the rounded quotient. */
  lemma DescaleExact(w: nat, d: nat, e: Entry, x: nat)
    requires Width(w) && 0 < d < 0x10000 && Divides(w, d, e) && x + d / 2 + 1 < Modulus(w)
    ensures Descale(w, e, x) == Signed16or32((x + d / 2) / d, w)
  {
    EntryFits(w, d, e, x);
    KeepsSmall(x + e.corr, Modulus(32));
    KeepsSmall(Times(x + e.corr, e.recip), if w == 16 then Modulus(32) else 0x1_0000_0000_0000_0000);
    hide Times, Shr, Signed16or32, Divides;
  }

  lemma KeepsSmall(v: nat, m: nat)
    requires v < m
    ensures v % m == v
  {
  }

  lemma EntryFits(w: nat, d: nat, e: Entry, x: nat)
    requires Width(w) && 0 < d < 0x10000 && Divides(w, d, e) && x + d / 2 + 1 < Modulus(w)
    ensures x + e.corr < Modulus(w) <= Modulus(32) && e.shift + w >= 0
    ensures Times(x + e.corr, e.recip) < if w == 16 then 0x1_0000_0000 else 0x1_0000_0000_0000_0000
    ensures Shr(Times(x + e.corr, e.recip), e.shift + w) == (x + d / 2) / d
  {
    hide Times, Shr, Shl;
    WidthPower(w);
    TimesBelow(x + e.corr, e.recip, w, w);
    DoubleWidth(w);
    assert Scaled(w, e, x) == (x + d / 2) / d;
  }

  lemma DoubleWidth(w: nat)
    requires Width(w)
    ensures Shl(1, w + w) == if w == 16 then 0x1_0000_0000 else 0x1_0000_0000_0000_0000
  {
    Powers();
    ShlBy8(1, 16);
    ShlBy8(1, 24);
    ShlBy8(1, 32);
    ShlBy8(1, 40);
    ShlBy8(1, 48);
    ShlBy8(1, 56);
  }

  /** The rounded quotient is not larger than the dividend. */
  lemma RoundedAtMost(x: nat, d: nat)
    requires d > 0
    ensures 0 <= (x + d / 2) / d <= x
    ensures d > 1 ==> (x + d / 2) / d <= (x + 1) / 2 + 1
  {
    hide Times;
    var q, m := QuotientOf(x + d / 2, d);
    if q > x {
      TimesOrder(x + 1, q, d);
      TimesAdd(x, 1, d);
      TimesOne(d);
      TimesSwap(x, d);
      TimesOrder(1, d, x);
      TimesOne(x);
    }
    if d > 1 {
      TimesSwap(q, d);
      TimesOrder(2, d, q);
      TimesAdd(1, 1, q);
      TimesOne(q);
      HalfBound(x, d, q, m);
    }
  }

  lemma HalfBound(x: nat, d: nat, q: nat, m: nat)
    requires d > 1 && x + d / 2 == Times(q, d) + m
    ensures q <= (x + 1) / 2 + 1
  {
    hide Times;
    if q > 0 {
      TimesAdd(q - 1, 1, d);
      TimesOne(d);
      TimesSwap(q - 1, d);
      TimesOrder(2, d, q - 1);
      TimesAdd(1, 1, q - 1);
      TimesOne(q - 1);
    }
  }

  /** The smallest value of an element, whose negation wraps. */
  function Smallest(w: nat): int {
    if w == 16 then -0x8000 else -0x8000_0000
  }

  /** Quantisation is exact for every divisor and every dividend whose negation does not
      wrap; the result is cut to the 16 bits of a coefficient. */
  lemma QuantizedExact(w: nat, d: nat, e: Entry, t: int)
    requires Width(w) && 0 < d < 0x10000 && Divides(w, d, e) && Smallest(w) < t < 0 - Smallest(w)
    ensures Quantized(w, e, t) == Signed16or32(Rounded(t, d), 16)
  {
    var x := Abs(t);
    DescaleExact(w, d, e, x);
    RoundedAtMost(x, d);
    Word((x + d / 2) / d, w);
    hide Divides, Descale;
    if t < 0 {
      Word(0 - t, w);
      Word(0 - (x + d / 2) / d, w);
    }
  }

  /** A word keeps a value in its range. */
  lemma Word(v: int, w: nat)
    requires Width(w) && Smallest(w) <= v < 0 - Smallest(w)
    ensures Signed16or32(v, w) == v
  {
  }

  /** With 32-bit elements even the smallest value is divided exactly. */
  lemma SmallestExact(d: nat, e: Entry)
    requires 0 < d < 0x10000 && Divides(32, d, e)
    ensures Quantized(32, e, Smallest(32)) == Signed16or32(Rounded(Smallest(32), d), 16)
  {
    hide Divides, Descale, Signed16or32;
    RoundedAtMost(0x8000_0000, d);
    DescaleExact(32, d, e, 0x8000_0000);
    SameSum(d, e);
    NegationWraps();
    WrapsBack((0x8000_0000 + d / 2) / d);
  }

  lemma NegationWraps()
    ensures Signed16or32(0 - Smallest(32), 32) == Smallest(32)
  {
  }

  /** Negating a word and cutting it to 16 bits, also when the negation wraps. */
  lemma WrapsBack(q: nat)
    requires q <= 0x8000_0000
    ensures Signed16or32(Signed16or32(0 - Signed16or32(q, 32), 32), 16) == Signed16or32(0 - q, 16)
  {
    if q < 0x8000_0000 {
      hide Signed16or32;
      Word(q, 32);
      Word(0 - q, 32);
    } else {
      assert Signed16or32(0x8000_0000, 32) == -0x8000_0000;
    }
  }

  lemma SameSum(d: nat, e: Entry)
    requires d > 0 && Divides(32, d, e)
    ensures Descale(32, e, Smallest(32)) == Descale(32, e, 0x8000_0000)
  {
    assert Unsigned(Smallest(32) + e.corr, 32) == Unsigned(0x8000_0000 + e.corr, 32);
  }
}
