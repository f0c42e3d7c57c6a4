/** Left shifts of unbounded naturals, and bytes read as base-256 digits.

  All of the exact arithmetic about coding intervals is done with `Shl`, which is
  linear in its first argument, so that no proof needs a product of two variables.
  */
module Shifts {

  type byte = b: int | 0 <= b < 256

  /** `v << k` without any width limit. */
  function Shl(v: nat, k: nat): nat {
    if k == 0 then v else 2 * Shl(v, k - 1)
  }

  lemma {:induction false} ShlAdd(u: nat, v: nat, k: nat)
    ensures Shl(u + v, k) == Shl(u, k) + Shl(v, k)
  {
    if k > 0 { ShlAdd(u, v, k - 1); }
  }

  lemma {:induction false} ShlShl(v: nat, j: nat, k: nat)
    ensures Shl(Shl(v, j), k) == Shl(v, j + k)
  {
    if k > 0 { ShlShl(v, j, k - 1); }
  }

  /** Shifting keeps order, strictly. */
  lemma {:induction false} ShlOrder(u: nat, v: nat, k: nat)
    ensures u < v <==> Shl(u, k) < Shl(v, k)
    ensures u <= v <==> Shl(u, k) <= Shl(v, k)
  {
    if k > 0 { ShlOrder(u, v, k - 1); }
  }

  lemma ShlDouble(v: nat, k: nat)
    ensures Shl(2 * v, k) == Shl(v, k + 1) == 2 * Shl(v, k)
  {
    ShlShl(v, 1, k);
    assert Shl(v, 1) == 2 * v;
  }

  lemma ShlBy2(v: nat, k: nat)
    ensures Shl(v, k + 2) == 4 * Shl(v, k)
  {
    assert Shl(v, k + 1) == 2 * Shl(v, k);
  }

  lemma ShlBy8(v: nat, k: nat)
    ensures Shl(v, k + 8) == 256 * Shl(v, k) == Shl(256 * v, k)
  {
    ShlBy2(v, k);
    ShlBy2(v, k + 2);
    ShlBy2(v, k + 4);
    ShlBy2(v, k + 6);
    ShlBy2(v, 0);
    ShlBy2(v, 2);
    ShlBy2(v, 4);
    ShlBy2(v, 6);
    ShlShl(v, 8, k);
  }

  /** The widths the coder registers are built from. */
  lemma Powers()
    ensures Shl(1, 8) == 0x100 && Shl(1, 15) == 0x8000 && Shl(1, 16) == 0x10000
    ensures Shl(1, 24) == 0x1000000 && Shl(1, 27) == 0x8000000
    ensures Shl(0, 16) == 0
  {
    ShlBy8(0, 0);
    ShlBy8(0, 8);
    ShlBy8(1, 0);
    ShlBy8(1, 8);
    ShlBy8(1, 16);
    assert Shl(1, 16) == 2 * Shl(1, 15);
    ShlBy27(1);
  }

  lemma ShlBy19(v: nat)
    ensures Shl(v, 19) == 0x80000 * v
  {
    ShlBy8(v, 0);
    ShlBy8(v, 8);
    ShlBy2(v, 16);
    assert Shl(v, 19) == 2 * Shl(v, 18);
  }

  lemma ShlBy27(v: nat)
    ensures Shl(v, 27) == 0x8000000 * v
  {
    ShlBy19(v);
    ShlBy8(v, 19);
  }

  /** Moving the top byte of a register of 27 bits into the digits changes nothing. */
  lemma ByteMoves(v: nat, c: nat)
    ensures Shl(256 * v + c / 0x80000, 19) + c % 0x80000 == Shl(v, 27) + c
  {
    ShlBy19(c / 0x80000);
    ShlAdd(256 * v, c / 0x80000, 19);
    ShlBy8(v, 19);
  }

  lemma {:induction false} ShlNine(v: nat, k: nat)
    ensures Shl(9 * v, k) == 9 * Shl(v, k)
  {
    if k > 0 { ShlNine(v, k - 1); }
  }

  lemma {:induction false} ShlMultiple(v: nat, k: nat)
    ensures Shl(0x800 * v, k) == 0x800 * Shl(v, k)
  {
    if k > 0 { ShlMultiple(v, k - 1); }
  }

  lemma {:induction false} ShlExponent(j: nat, k: nat)
    requires j < k
    ensures Shl(1, j) < Shl(1, k)
    decreases k
  {
    if j < k - 1 { ShlExponent(j, k - 1); } else { ShlOrder(0, 1, j); ShlZero(j); }
  }

  lemma ExponentOrder(j: nat, k: nat)
    ensures j < k <==> Shl(1, j) < Shl(1, k)
  {
    if j < k { ShlExponent(j, k); }
    if k < j { ShlExponent(k, j); }
  }

  lemma {:induction false} ShlZero(k: nat)
    ensures Shl(0, k) == 0
  {
    if k > 0 { ShlZero(k - 1); }
  }

  lemma {:induction false} ShlPositive(k: nat)
    ensures Shl(1, k) >= 1
  {
    if k > 0 { ShlPositive(k - 1); }
  }

  lemma {:induction false} MulOrder(a: nat, b: nat, h: nat)
    requires a <= b
    ensures a * h <= b * h
    decreases b
  {
    if a < b {
      MulOrder(a, b - 1, h);
      assert b * h == (b - 1) * h + h;
    }
  }

  /** The quotient is determined by the multiple of `h` just below `v`. */
  lemma Quotient(v: nat, h: nat, k: nat)
    requires h > 0 && k * h <= v < k * h + h
    ensures v / h == k
  {
    var d := v / h;
    assert d * h <= v < d * h + h;
    assert (d + 1) * h == d * h + h && (k + 1) * h == k * h + h;
    if d < k { MulOrder(d + 1, k, h); }
    if d > k { MulOrder(k + 1, d, h); }
  }

  /** `v` with the bits below the bit `m` cleared. */
  function Cut(v: nat, m: nat): nat {
    if m == 0 then v else v / m * m
  }

  /** Keeping one bit more. */
  lemma CutHalf(v: nat, h: nat)
    requires h > 0
    ensures Cut(v, h) == Cut(v, 2 * h) + if v / h % 2 == 1 then h else 0
  {
    var d := v / h;
    var q := d / 2;
    assert d * h <= v < d * h + h;
    var dh, qh := d * h, q * (2 * h);
    assert dh == qh + if d % 2 == 1 then h else 0 by {
      if d % 2 == 1 {
        assert d == 2 * q + 1;
      } else {
        assert d == 2 * q;
      }
    }
    Quotient(v, 2 * h, q);
  }

  /** Digit `i` of a byte string that is followed by zeros for ever. */
  function Digit(d: seq<byte>, i: nat): byte {
    if i < |d| then d[i] else 0
  }

  /** The number whose base-256 digits are the first `k` digits of `d`. */
  function Prefix(d: seq<byte>, k: nat): nat {
    if k == 0 then 0 else 256 * Prefix(d, k - 1) + Digit(d, k - 1)
  }

  function Value(d: seq<byte>): nat {
    Prefix(d, |d|)
  }

  function Fill(b: byte, n: nat): seq<byte> {
    seq(n, _ => b)
  }

  lemma FillSnoc(b: byte, n: nat)
    ensures Fill(b, n) + [b] == Fill(b, n + 1)
  {
  }

  lemma {:induction false} PrefixSame(d: seq<byte>, e: seq<byte>, k: nat)
    requires forall i: nat | i < k :: Digit(d, i) == Digit(e, i)
    ensures Prefix(d, k) == Prefix(e, k)
  {
    if k > 0 { PrefixSame(d, e, k - 1); }
  }

  lemma ValueSnoc(d: seq<byte>, b: byte)
    ensures Value(d + [b]) == 256 * Value(d) + b
  {
    PrefixSame(d + [b], d, |d|);
  }

  lemma {:induction false} AllOnes(n: nat)
    ensures Value(Fill(255, n)) + 1 == Shl(1, 8 * n)
  {
    if n > 0 {
      AllOnes(n - 1);
      assert Fill(255, n) == Fill(255, n - 1) + [255];
      ValueSnoc(Fill(255, n - 1), 255);
      ShlBy8(1, 8 * (n - 1));
    }
  }

  /** The carry rule of section D.1.6: adding one to a byte followed by stacked
      0xFF bytes increments that byte and turns the stacked bytes to zero. */
  lemma {:induction false} CarryThroughStack(d: seq<byte>, b: byte, n: nat)
    requires b < 255
    ensures Value(d + [b] + Fill(255, n)) + 1 == Value(d + [b + 1] + Fill(0, n))
  {
    if n == 0 {
      assert d + [b] + Fill(255, 0) == d + [b];
      assert d + [b + 1] + Fill(0, 0) == d + [b + 1];
      ValueSnoc(d, b);
      ValueSnoc(d, b + 1);
    } else {
      CarryThroughStack(d, b, n - 1);
      assert d + [b] + Fill(255, n) == d + [b] + Fill(255, n - 1) + [255];
      assert d + [b + 1] + Fill(0, n) == d + [b + 1] + Fill(0, n - 1) + [0];
      ValueSnoc(d + [b] + Fill(255, n - 1), 255);
      ValueSnoc(d + [b + 1] + Fill(0, n - 1), 0);
    }
  }

  // ----------------------------------------------------------- byte stuffing

  /** Every 0xFF data byte is followed by a zero byte, so that it cannot be taken
      for the start of a marker. */
  function Stuff(d: seq<byte>): seq<byte> {
    StuffFirst(d, |d|)
  }

  function StuffFirst(d: seq<byte>, n: nat): seq<byte>
    requires n <= |d|
  {
    if n == 0 then [] else StuffFirst(d, n - 1) + Stuffed(d[n - 1])
  }

  function Stuffed(b: byte): seq<byte> {
    if b == 255 then [b, 0] else [b]
  }

  lemma {:induction false} StuffSame(d: seq<byte>, e: seq<byte>, n: nat)
    requires n <= |d| && n <= |e| && d[..n] == e[..n]
    ensures StuffFirst(d, n) == StuffFirst(e, n)
  {
    if n > 0 {
      assert d[n - 1] == d[..n][n - 1] == e[n - 1];
      assert d[..n - 1] == d[..n][..n - 1] == e[..n - 1];
      StuffSame(d, e, n - 1);
    }
  }

  lemma StuffSnoc(d: seq<byte>, b: byte)
    ensures Stuff(d + [b]) == Stuff(d) + Stuffed(b)
  {
    StuffSame(d + [b], d, |d|);
  }

  lemma {:induction false} StuffConcat(d: seq<byte>, e: seq<byte>)
    ensures Stuff(d + e) == Stuff(d) + Stuff(e)
  {
    if e == [] {
      assert d + e == d;
    } else {
      var f, b := e[..|e| - 1], e[|e| - 1];
      assert d + e == d + f + [b] && e == f + [b];
      StuffConcat(d, f);
      StuffSnoc(d + f, b);
      StuffSnoc(f, b);
    }
  }

  lemma StuffFill(b: byte, n: nat)
    ensures Stuff(Fill(b, n + 1)) == Stuff(Fill(b, n)) + Stuffed(b)
  {
    FillSnoc(b, n);
    StuffSnoc(Fill(b, n), b);
  }

  lemma StuffData(d: seq<byte>, zeros: nat, b: byte)
    ensures Stuff(d + Fill(0, zeros) + [b]) == Stuff(d) + Stuff(Fill(0, zeros)) + Stuffed(b)
  {
    StuffSnoc(d + Fill(0, zeros), b);
    StuffConcat(d, Fill(0, zeros));
  }

  lemma StuffStack(d: seq<byte>, zeros: nat, stack: nat)
    ensures Stuff(d + Fill(0, zeros) + Fill(255, stack)) == Stuff(d) + Stuff(Fill(0, zeros)) + Stuff(Fill(255, stack))
  {
    StuffConcat(d + Fill(0, zeros), Fill(255, stack));
    StuffConcat(d, Fill(0, zeros));
  }
}
