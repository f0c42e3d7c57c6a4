/** The one dividend for which 16-bit quantisation can go wrong: -32768, whose negation
  wraps, and for which divisors it goes wrong (jcdctmgr.c). */
module ReciprocalEdge {
  import opened Shifts
  import opened PointTransform
  import opened Reciprocal

  /** The divisors for which the wrapped negation still gives the right quotient: 1, and
      those close above a power of two 2^b, up to 2^16 / (2^(16-b) - 1), but not 65534. */
  predicate Lucky(d: nat, b: nat)
    requires b <= 15
  {
    d == 1 || (Shl(1, b) < d && Times(Below(16 - b), d) <= 0x10000 && d != 65534)
  }

  /** 2^n - 1. */
  function Below(n: nat): (p: nat)
    ensures p + 1 == Shl(1, n)
  {
    ShlPositive(n);
    Shl(1, n) - 1
  }

  /** What comes out of the shift when `-m` has been multiplied by `f` in 32 bits. */
  lemma NegativeProduct(m: nat, f: nat, k: nat, y: nat, r: nat, p: nat)
    requires 0 < m <= 0x8000 && 0 < f <= 0x10000 && r <= 32
    requires Times(m, f) == Shl(k, r) + y && 0 < y <= Shl(1, r) && p == Shl(1, 32 - r)
    ensures k < p && Shr(Unsigned(Times(0x1_0000_0000 - m, f), 32), r) == p - 1 - k
  {
    hide Times, Shr, Shl;
    var mf := Times(m, f);
    ProductRange(m, f);
    NegatedWord(m, f);
    FourBytes();
    ShlShl(1, 32 - r, r);
    if k >= p {
      ShlOrder(p, k, r);
      assert false;
    }
    ShlAdd(k, p - 1 - k, r);
    ShlAdd(p - 1, 1, r);
    assert 0x1_0000_0000 - mf == Shl(p - 1 - k, r) + (Shl(1, r) - y);
    ShrIs(p - 1 - k, Shl(1, r) - y, r);
  }

  lemma FourBytes()
    ensures Shl(1, 32) == 0x1_0000_0000
  {
    Powers();
    ShlBy8(1, 24);
  }

  lemma ProductRange(m: nat, f: nat)
    requires 0 < m <= 0x8000 && 0 < f <= 0x10000
    ensures 0 < Times(m, f) <= 0x8000_0000
  {
    hide Times;
    TimesOrder(1, m, f);
    TimesOne(f);
    TimesOrder(m, 0x8000, f);
    TimesSwap(0x8000, f);
    TimesOrder(f, 0x10000, 0x8000);
    Constant();
  }

  lemma Constant()
    ensures Times(0x10000, 0x8000) == 0x8000_0000
  {
  }

  lemma NegatedWord(m: nat, f: nat)
    requires 0 < m <= 0x8000 && 0 < f && 0 < Times(m, f) <= 0x8000_0000
    ensures Unsigned(Times(0x1_0000_0000 - m, f), 32) == 0x1_0000_0000 - Times(m, f)
  {
    hide Times;
    TimesAdd(0x1_0000_0000 - m, m, f);
    MultipleOfModulus(f - 1, 0x1_0000_0000 - Times(m, f));
    TimesAdd(f - 1, 1, 0x1_0000_0000);
    TimesSwap(f, 0x1_0000_0000);
    TimesOne(0x1_0000_0000);
  }

  lemma MultipleOfModulus(k: nat, v: nat)
    requires v < 0x1_0000_0000
    ensures Unsigned(Times(k, 0x1_0000_0000) + v, 32) == v
  {
  }

  /** The multiple of `f` when the reciprocal was rounded up. */
  lemma UpMultiple(mag: nat, f: nat, d: nat, t: nat, e: nat, k: nat, m: nat) returns (y: nat)
    requires Times(f, d) == t + e && e > 0 && d > 0 && t > 0 && mag > 0 && Times(mag, e) < t
    requires mag == Times(k, d) + m && m < d
    ensures Times(mag, f) == Times(k, t) + y && 0 < y <= t
  {
    hide Times;
    var p := Times(mag, f);
    TimesAssoc(mag, f, d);
    TimesSwap(mag, Times(f, d));
    TimesSwap(mag, e);
    TimesAdd(t, e, mag);
    TimesSwap(t, mag);
    TimesAdd(Times(k, d), m, t);
    TimesAssoc(k, d, t);
    TimesSwap(d, t);
    TimesAssoc(k, t, d);
    TimesAdd(m, 1, t);
    TimesOne(t);
    TimesOrder(m + 1, d, t);
    QuotientOfMultiple(p, t, k, d, Times(m, t) + Times(mag, e));
    var q;
    q, y := QuotientOf(p, t);
    TimesOrder(1, mag, e);
    TimesOne(e);
    assert Times(p, d) > Times(Times(k, t), d);
    TimesOrder(p, Times(k, t), d);
  }

  /** The multiple of `f` when the reciprocal was rounded down. */
  lemma DownMultiple(mag: nat, f: nat, d: nat, t: nat, fr: nat, k: nat, m: nat) returns (y: nat)
    requires Times(f, d) + fr == t && fr > 0 && d > 0 && t > 0 && mag > 0 && Times(mag, fr) < t
    requires mag == Times(k, d) + m && m < d
    ensures m > 0 ==> Times(mag, f) == Times(k, t) + y && 0 < y <= t
    ensures m == 0 ==> k > 0 && Times(mag, f) == Times(k - 1, t) + y && 0 < y <= t
  {
    hide Times;
    var p := Times(mag, f);
    TimesAssoc(mag, f, d);
    TimesSwap(mag, Times(f, d));
    TimesSwap(mag, fr);
    TimesAdd(Times(f, d), fr, mag);
    TimesSwap(t, mag);
    assert Times(p, d) + Times(mag, fr) == Times(mag, t);
    TimesAdd(Times(k, d), m, t);
    TimesAssoc(k, d, t);
    TimesSwap(d, t);
    TimesAssoc(k, t, d);
    TimesOrder(1, mag, fr);
    TimesOne(fr);
    TimesOne(t);
    var q;
    if m > 0 {
      TimesOrder(1, m, t);
      TimesOrder(m, d, t);
      QuotientOfMultiple(p, t, k, d, Times(m, t) - Times(mag, fr));
      q, y := QuotientOf(p, t);
      TimesOrder(p, Times(k, t), d);
    } else {
      TimesOne(d);
      TimesAdd(k - 1, 1, t);
      TimesAdd(Times(k - 1, t), t, d);
      TimesOrder(1, d, t);
      TimesOne(d);
      QuotientOfMultiple(p, t, k - 1, d, Times(d, t) - Times(mag, fr));
      q, y := QuotientOf(p, t);
      TimesOrder(p, Times(k - 1, t), d);
    }
  }

  /** The quotients of 2^15 + d/2 and of 2^15 - d/2 add up to `p` or less. */
  lemma QuotientsMeet(d: nat, p: nat, q: nat, k: nat)
    requires d > 1 && d <= 0xFFFF && p % 2 == 1
    requires q == (0x8000 + d / 2) / d && k == (0x8000 - d / 2) / d
    ensures Times(p, d) > 0x10000 ==> q + k < p
    ensures Times(p, d) <= 0x10000 < Times(p + 1, d) ==>
              var s := 0x10000 - Times(p, d);
              q == p / 2 + 1 && k == p / 2 && 0x8000 - d / 2 == Times(p / 2, d) + (s + 1) / 2
  {
    hide Times;
    var q', m := QuotientOf(0x8000 + d / 2, d);
    var k', n := QuotientOf(0x8000 - d / 2, d);
    TimesAdd(q, k, d);
    if Times(p, d) > 0x10000 {
      TimesOrder(p, q + k, d);
    } else if 0x10000 < Times(p + 1, d) {
      var s, a := 0x10000 - Times(p, d), p / 2;
      TimesAdd(p, 1, d);
      TimesOne(d);
      TimesAdd(a, a, d);
      TimesAdd(a + a, 1, d);
      assert a + a + 1 == p;
      assert 2 * Times(a, d) + d + s == 0x10000;
      TimesAdd(a, 1, d);
      assert 0x8000 + d / 2 == Times(a + 1, d) + s / 2;
      QuotientIs(0x8000 + d / 2, d, a + 1);
      QuotientIs(0x8000 - d / 2, d, a);
    }
  }

  // ---------------------------------------------------------------- the result

  /** What the quotient should be. */
  function Quotient16(d: nat): nat
    requires d > 0
  {
    (0x8000 + d / 2) / d
  }

  lemma Expected(d: nat)
    requires 2 <= d <= 0xFFFF
    ensures Quotient16(d) < 0x8000 && Signed16or32(Rounded(Smallest(16), d), 16) == 0 - Quotient16(d)
  {
    RoundedAtMost(0x8000, d);
    Word(0 - Quotient16(d), 16);
  }

  /** What comes out: the negation of what is left of the wrapped product. */
  lemma EdgeValue(e: Entry, mag: nat, g: nat)
    requires e.shift + 16 >= 0 && mag == 0x8000 - e.corr > 0
    requires g == Shr(Unsigned(Times(0x1_0000_0000 - mag, e.recip), 32), e.shift + 16) < 0x8000
    ensures Quantized(16, e, Smallest(16)) == 0 - g
  {
    WrappedSum(e, mag);
    hide Times, Shr, Signed16or32, Unsigned;
    NegationStays();
    Word(g, 16);
    Word(0 - g, 16);
  }

  lemma NegationStays()
    ensures Signed16or32(0 - Smallest(16), 16) == Smallest(16)
  {
  }

  lemma WrappedSum(e: Entry, mag: nat)
    requires mag == 0x8000 - e.corr > 0
    ensures Unsigned(Smallest(16) + e.corr, 32) == 0x1_0000_0000 - mag
  {
  }

  /** With a correction of 2^15 nothing is left of the dividend. */
  lemma NoValue(e: Entry)
    requires e.shift + 16 >= 0 && e.corr == 0x8000
    ensures Quantized(16, e, Smallest(16)) == 0
  {
    NegationStays();
    TimesOne(e.recip);
    ZeroShifts(e.shift + 16);
  }

  lemma {:induction false} ZeroShifts(r: nat)
    ensures Shr(0, r) == 0
  {
    if r > 0 { ZeroShifts(r - 1); }
  }

  /** The reciprocal was rounded up. */
  lemma UpEdge(d: nat, b: nat, f: nat, e: nat)
    requires 1 <= b <= 15 && Shl(1, b) < d < Shl(1, b + 1) && d <= 0xFFFF
    requires 0 < e <= d / 2 && Times(f, d) == Shl(1, 16 + b) + e
    ensures Quantized(16, Entry(f, d / 2, b), Smallest(16)) == 0 - Quotient16(d) <==> Times(Below(16 - b), d) <= 0x10000
  {
    hide Times, Shr, Shl, Quantized, Below;
    var mag, t := 0x8000 - d / 2, Shl(1, 16 + b);
    var k, m := QuotientOf(mag, d);
    ShlPositive(16 + b);
    FitsRounded(16, d, b, f, e);
    WidthPower(16);
    EdgeFits(d, b, mag, e);
    var y := UpMultiple(mag, f, d, t, e, k, m);
    ReciprocalPositive(f, d, t, e);
    TimesShl(k, 16 + b);
    NegativeProduct(mag, f, k, y, 16 + b, Shl(1, 16 - b));
    EdgePower(b);
    EdgeValue(Entry(f, d / 2, b), mag, Below(16 - b) - k);
    AboveAll(d, b);
    QuotientsMeet(d, Below(16 - b), Quotient16(d), k);
  }

  lemma ReciprocalPositive(f: nat, d: nat, t: nat, e: int)
    requires t + e > 0 && Times(f, d) == t + e
    ensures f > 0
  {
  }

  /** The products stay below the power. */
  lemma EdgeFits(d: nat, b: nat, mag: nat, e: nat)
    requires Shl(1, b) < d < Shl(1, b + 1) && e <= d / 2 && mag <= 0x8000
    ensures Times(mag, e) < Shl(1, 16 + b)
  {
    hide Times;
    ShlDouble(1, b);
    WidthPower(16);
    TimesBelow(mag, e, 16, b);
  }

  /** 2^(16-b) - 1 is odd and fits into 15 bits. */
  lemma EdgePower(b: nat)
    requires 1 <= b <= 15
    ensures Below(16 - b) % 2 == 1 && Below(16 - b) < 0x8000
  {
    Powers();
    assert Shl(1, 16 - b) == 2 * Shl(1, 15 - b);
    if b > 1 { ShlExponent(16 - b, 15); }
  }

  /** One multiple more of the divisor is too much. */
  lemma AboveAll(d: nat, b: nat)
    requires b <= 15 && Shl(1, b) < d
    ensures Times(Below(16 - b) + 1, d) > 0x10000
  {
    hide Times;
    WidthPower(16);
    var p := Shl(1, 16 - b);
    ShlPositive(16 - b);
    TimesSwap(p, d);
    TimesAdd(Shl(1, b), d - Shl(1, b), p);
    TimesOrder(1, d - Shl(1, b), p);
    TimesOne(p);
    TimesSwap(Shl(1, b), p);
    TimesShl(p, b);
    ShlShl(1, 16 - b, b);
  }

  /** What 2^(16+b) leaves when divided by `d`, if 2^16 leaves `s`. */
  lemma RestOfPower(d: nat, b: nat, p: nat, s: nat, f: nat, fr: nat)
    requires Times(p, d) + s == 0x10000 && Times(f, d) + fr == Shl(1, 16 + b) && fr < d
    requires Shl(1, b) < d < Shl(1, b + 1)
    ensures s == 0 ==> fr == 0
    ensures s == 1 ==> fr == Shl(1, b)
    ensures s == 2 ==> fr + d == Shl(1, b + 1)
  {
    hide Times;
    WidthPower(16);
    ShlShl(1, 16, b);
    ShlAdd(Times(p, d), s, b);
    TimesShl(Times(p, d), b);
    TimesSwap(p, d);
    TimesAssoc(d, p, Shl(1, b));
    TimesShl(p, b);
    TimesSwap(d, Shl(p, b));
    var g := Shl(p, b);
    assert Times(f, d) + fr == Times(g, d) + Shl(s, b);
    ShlZero(b);
    ShlDouble(1, b);
    ShlShl(1, 1, b);
    assert Shl(1, 1) == 2;
    ShlPositive(b);
    if s == 2 {
      TimesAdd(g, 1, d);
      TimesOne(d);
      SameRest(f, fr, g + 1, Shl(s, b) - d, d);
    } else if s <= 1 {
      SameRest(f, fr, g, Shl(s, b), d);
    }
  }

  lemma SameRest(f: nat, u: nat, g: nat, v: nat, d: nat)
    requires Times(f, d) + u == Times(g, d) + v && u < d && v < d
    ensures u == v
  {
    hide Times;
    QuotientIs(Times(f, d) + u, d, f);
    QuotientIs(Times(f, d) + u, d, g);
  }

  /** When the reciprocal was rounded down, 2^16 leaves a rest of 3 or more, but for the
      divisor 65534. */
  lemma NoSmallRest(d: nat, b: nat, f: nat, fr: nat)
    requires 1 <= b <= 15 && Shl(1, b) < d < Shl(1, b + 1) && d <= 0xFFFF
    requires 0 < fr <= d / 2 && Times(f, d) + fr == Shl(1, 16 + b)
    requires Times(Below(16 - b), d) <= 0x10000
    ensures d == 65534 || 0x10000 - Times(Below(16 - b), d) >= 3
  {
    hide Times, Below, Shl;
    var p := Below(16 - b);
    var s := 0x10000 - Times(p, d);
    EdgePower(b);
    ShlDouble(1, b);
    if s <= 2 {
      RestOfPower(d, b, p, s, f, fr);
      if s == 2 {
        if p >= 3 {
          TimesAdd(Shl(1, b), d - Shl(1, b), p);
          TimesSwap(p, d);
          BelowTimes(b);
          TimesOrder(3, p, d - Shl(1, b));
          TimesSwap(p, d - Shl(1, b));
          TripleIs(d - Shl(1, b));
          assert false;
        } else {
          TimesOne(d);
        }
      }
    }
  }

  lemma TripleIs(v: nat)
    ensures Times(3, v) == 3 * v
  {
  }

  lemma BelowTimes(b: nat)
    requires 1 <= b <= 15
    ensures Times(Shl(1, b), Below(16 - b)) == 0x10000 - Shl(1, b)
  {
    hide Times;
    WidthPower(16);
    var p := Below(16 - b);
    TimesAdd(p, 1, Shl(1, b));
    TimesOne(Shl(1, b));
    TimesShl(p + 1, b);
    ShlShl(1, 16 - b, b);
    TimesSwap(p, Shl(1, b));
  }

  /** The reciprocal was rounded down. */
  lemma DownEdge(d: nat, b: nat, f: nat, fr: nat)
    requires 1 <= b <= 15 && Shl(1, b) < d < Shl(1, b + 1) && d <= 0xFFFF
    requires 0 < fr <= d / 2 && Times(f, d) + fr == Shl(1, 16 + b)
    ensures Quantized(16, Entry(f, d / 2 + 1, b), Smallest(16)) == 0 - Quotient16(d)
            <==> Times(Below(16 - b), d) <= 0x10000 && d != 65534
  {
    if d / 2 == 0x7FFF {
      LargestDivisor(d, b, f, fr);
      NoValue(Entry(f, 0x8000, b));
      assert Quotient16(65534) == 1;
    } else {
      DownEdgeValue(d, b, f, fr);
    }
  }

  lemma LargestDivisor(d: nat, b: nat, f: nat, fr: nat)
    requires 1 <= b <= 15 && Shl(1, b) < d < Shl(1, b + 1) && d / 2 == 0x7FFF
    requires 0 < fr <= d / 2 && Times(f, d) + fr == Shl(1, 16 + b)
    ensures d == 65534
  {
    hide Times;
    Powers();
    if b < 15 { ShlExponent(b + 1, 16); Ladder(b); }
    if d == 65535 {
      TimesOne(d);
      RestOfPower(d, b, 1, 1, f, fr);
    }
  }

  lemma Ladder(b: nat)
    requires b < 15
    ensures Shl(1, b + 1) <= 0x8000
  {
    Powers();
    if b + 1 < 15 { ShlExponent(b + 1, 15); }
  }

  lemma DownEdgeValue(d: nat, b: nat, f: nat, fr: nat)
    requires 1 <= b <= 15 && Shl(1, b) < d < Shl(1, b + 1) && d <= 0xFFFF && d / 2 < 0x7FFF
    requires 0 < fr <= d / 2 && Times(f, d) + fr == Shl(1, 16 + b)
    ensures Quantized(16, Entry(f, d / 2 + 1, b), Smallest(16)) == 0 - Quotient16(d)
            <==> Times(Below(16 - b), d) <= 0x10000
  {
    hide Times, Shr, Shl, Quantized, Below;
    var mag, t, p := 0x7FFF - d / 2, Shl(1, 16 + b), Below(16 - b);
    var k, m := QuotientOf(mag, d);
    var k', m' := QuotientOf(mag + 1, d);
    ShlPositive(16 + b);
    FitsWidth(16, d, b, f);
    WidthPower(16);
    EdgeFits(d, b, mag, fr);
    var y := DownMultiple(mag, f, d, t, fr, k, m);
    SomeReciprocal(d, b, f, fr);
    var q := if m > 0 then k else k - 1;
    TimesShl(q, 16 + b);
    NegativeProduct(mag, f, q, y, 16 + b, Shl(1, 16 - b));
    EdgePower(b);
    EdgeValue(Entry(f, d / 2 + 1, b), mag, p - q);
    AboveAll(d, b);
    QuotientsMeet(d, p, Quotient16(d), k');
    QuotientGrows(mag, d, k, m, k');
    if Times(p, d) <= 0x10000 {
      NoSmallRest(d, b, f, fr);
      var s := 0x10000 - Times(p, d);
      LargeDivisor(d);
      TimesAdd(p, 1, d);
      TimesOne(d);
      assert mag == Times(p / 2, d) + ((s + 1) / 2 - 1);
      QuotientIs(mag, d, p / 2);
    }
  }

  lemma LargeDivisor(d: nat)
    requires d / 2 < 0x7FFF
    ensures d != 65534
  {
  }

  lemma QuotientGrows(mag: nat, d: nat, k: nat, m: nat, k': nat)
    requires d > 1 && mag == Times(k, d) + m && m < d && k' == (mag + 1) / d
    ensures k <= k' <= k + 1
  {
    hide Times;
    TimesAdd(k, 1, d);
    TimesOne(d);
    if m + 1 < d { QuotientIs(mag + 1, d, k); } else { QuotientIs(mag + 1, d, k + 1); }
  }

  lemma SomeReciprocal(d: nat, b: nat, f: nat, fr: nat)
    requires Shl(1, b) < d < Shl(1, b + 1) && fr < d && Times(f, d) + fr == Shl(1, 16 + b)
    ensures f > 0
  {
    if f == 0 {
      TimesOne(d);
      if b + 1 < 16 + b { ShlExponent(b + 1, 16 + b); }
    }
  }

  /** A result that does not fit comes out with the wrong sign. */
  lemma EdgeWrapped(e: Entry, mag: nat, g: nat)
    requires e.shift + 16 >= 0 && mag == 0x8000 - e.corr > 0
    requires g == Shr(Unsigned(Times(0x1_0000_0000 - mag, e.recip), 32), e.shift + 16) && 0x8000 < g < 0x10000
    ensures Quantized(16, e, Smallest(16)) > 0
  {
    hide Times, Shr, Unsigned, Signed16or32;
    WrappedSum(e, mag);
    NegationStays();
    WrongSign(g);
  }

  lemma WrongSign(g: nat)
    requires 0x8000 < g < 0x10000
    ensures Signed16or32(g, 16) == g - 0x10000
    ensures Signed16or32(Signed16or32(0x10000 - g, 16), 16) == 0x10000 - g
  {
  }

  /** The divisor is a power of two: three times the right result, or worse. */
  lemma PowerEdge(d: nat, b: nat)
    requires 1 <= b <= 15 && d == Shl(1, b) && d <= 0xFFFF
    ensures d > 0 && Quantized(16, Entry(0x8000, d / 2, b - 1), Smallest(16)) != 0 - Quotient16(d)
  {
    hide Times, Shr, Shl, Quantized;
    ShlPositive(15 - b);
    var mag, a := 0x8000 - d / 2, Shl(1, 15 - b) - 1;
    PowerQuotient(b, a);
    PowerProduct(b, a, mag);
    Powers();
    TimesShl(mag, 15);
    ShlDouble(1, 16 - b);
    ShlDouble(1, 15 - b);
    ShlPositive(14 + b);
    ShlExponent(14 + b, 15 + b);
    NegativeProduct(mag, 0x8000, a, Shl(1, 14 + b), 15 + b, Shl(1, 17 - b));
    var g := 3 * (a + 1);
    if b == 1 {
      FourteenBits();
      EdgeWrapped(Entry(0x8000, d / 2, b - 1), mag, g);
    } else {
      if b > 2 { ShlExponent(15 - b, 13); }
      FourteenBits();
      EdgeValue(Entry(0x8000, d / 2, b - 1), mag, g);
    }
  }

  lemma FourteenBits()
    ensures Shl(1, 14) == 0x4000 && Shl(1, 13) == 0x2000
  {
    Powers();
  }

  lemma PowerQuotient(b: nat, a: nat)
    requires 1 <= b <= 15 && a + 1 == Shl(1, 15 - b)
    ensures Shl(1, b) == 2 * Shl(1, b - 1) > 0 && (0x8000 + Shl(1, b - 1)) / Shl(1, b) == a + 1
  {
    ShlPositive(b - 1);
    assert Shl(1, b) == 2 * Shl(1, b - 1);
    hide Times, Shl;
    Powers();
    TimesShl(a + 1, b);
    ShlShl(1, 15 - b, b);
    QuotientIs(0x8000 + Shl(1, b - 1), Shl(1, b), a + 1);
  }

  lemma PowerProduct(b: nat, a: nat, mag: nat)
    requires 1 <= b <= 15 && a + 1 == Shl(1, 15 - b) && mag + Shl(1, b - 1) == 0x8000
    ensures Shl(mag, 15) == Shl(a, 15 + b) + Shl(1, 14 + b)
  {
    Powers();
    ShlShl(1, 15, 15);
    ShlAdd(mag, Shl(1, b - 1), 15);
    ShlShl(1, b - 1, 15);
    ShlShl(1, 15 - b, 15 + b);
    ShlAdd(a, 1, 15 + b);
    assert Shl(1, 15 + b) == 2 * Shl(1, 14 + b);
  }

  /** For -32768 and 16-bit elements the result is right exactly for the lucky divisors. */
  lemma EdgeExact(d: nat, b: nat)
    requires 2 <= d <= 0xFFFF && b <= 15 && Shl(1, b) <= d < Shl(1, b + 1)
    ensures EntryFor(16, d, b).shift + 16 >= 0
    ensures Quantized(16, EntryFor(16, d, b), Smallest(16)) == Signed16or32(Rounded(Smallest(16), d), 16) <==> Lucky(d, b)
  {
    hide Times, Shl, Shr, Quantized, Rounded, Signed16or32, Below;
    TwoBits(d, b);
    Expected(d);
    ShlPositive(16 + b);
    var f, fr := QuotientOf(Shl(1, 16 + b), d);
    if fr == 0 {
      PowerCase(d, b, f);
    } else {
      NotPower(16, d, b, f, fr);
      if fr <= d / 2 {
        DownEdge(d, b, f, fr);
      } else {
        NextMultiple(f, d);
        UpEdge(d, b, f + 1, d - fr);
        NotLargest(d, b, f, fr);
      }
    }
  }

  lemma PowerCase(d: nat, b: nat, f: nat)
    requires 2 <= d <= 0xFFFF && 1 <= b <= 15 && Shl(1, b) <= d < Shl(1, b + 1) && Times(f, d) == Shl(1, 16 + b)
    ensures d == Shl(1, b) && f / 2 == 0x8000
    ensures Quantized(16, Entry(f / 2, d / 2, b - 1), Smallest(16)) != 0 - Quotient16(d)
  {
    hide Times, Shl, Quantized, Rounded, Signed16or32;
    PowerOfTwo(16, d, b, f);
    Powers();
    PowerEdge(d, b);
  }

  lemma NotLargest(d: nat, b: nat, f: nat, fr: nat)
    requires 1 <= b <= 15 && Shl(1, b) < d < Shl(1, b + 1) && Times(f, d) + fr == Shl(1, 16 + b) && d / 2 < fr < d
    ensures d != 65534
  {
    if d == 65534 {
      Powers();
      if b < 15 { Ladder(b); }
      TimesOne(d);
      RestOfPower(d, b, 1, 2, f, fr);
      assert false;
    }
  }

  /** The divisor 1 is always lucky. */
  lemma UnitExact()
    ensures Quantized(16, Entry(1, 0, -16), Smallest(16)) == Signed16or32(Rounded(Smallest(16), 1), 16)
  {
    NegationStays();
    TimesOne(0x1_0000_0000 - 0x8000);
    assert Unsigned(Smallest(16), 32) == 0x1_0000_0000 - 0x8000;
    assert Shr(0x1_0000_0000 - 0x8000, 0) == 0x1_0000_0000 - 0x8000;
  }
}
