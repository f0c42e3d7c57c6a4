/** Bit strings, most significant bit first, and the numbers they stand for. */
module BitStrings {
  import opened Shifts

  /** Bit `i` of a string that is followed by zeros for ever. */
  function BitAt(s: seq<bool>, i: nat): nat {
    if i < |s| && s[i] then 1 else 0
  }

  /** The number in the `n` bits from position `at` on. */
  function NumberAt(s: seq<bool>, at: nat, n: nat): (v: nat)
    decreases n
  {
    if n == 0 then 0 else 2 * NumberAt(s, at, n - 1) + BitAt(s, at + n - 1)
  }

  /** The `n` lowest bits of `v`. */
  function BitsOf(v: nat, n: nat): (s: seq<bool>)
    ensures |s| == n
    decreases n
  {
    if n == 0 then [] else BitsOf(v / 2, n - 1) + [v % 2 == 1]
  }

  lemma {:induction false} NumberBound(s: seq<bool>, at: nat, n: nat)
    ensures NumberAt(s, at, n) < Shl(1, n)
  {
    if n > 0 { NumberBound(s, at, n - 1); }
  }

  /** A number is made of the one in front and the one behind. */
  lemma {:induction false} NumberSplit(s: seq<bool>, at: nat, m: nat, n: nat)
    ensures NumberAt(s, at, m + n) == Shl(NumberAt(s, at, m), n) + NumberAt(s, at + m, n)
    decreases n
  {
    if n > 0 { NumberSplit(s, at, m, n - 1); }
  }

  lemma {:induction false} NumberSame(s: seq<bool>, t: seq<bool>, at: nat, to: nat, n: nat)
    requires forall i | at <= i < at + n :: BitAt(s, i) == BitAt(t, i - at + to)
    ensures NumberAt(s, at, n) == NumberAt(t, to, n)
  {
    if n > 0 { NumberSame(s, t, at, to, n - 1); }
  }

  lemma {:induction false} NumberZeros(s: seq<bool>, at: nat, n: nat)
    requires at >= |s|
    ensures NumberAt(s, at, n) == 0
  {
    if n > 0 { NumberZeros(s, at, n - 1); }
  }

  /** The bits of `v` spell `v`. */
  lemma {:induction false} NumberOfBits(v: nat, n: nat)
    requires v < Shl(1, n)
    ensures NumberAt(BitsOf(v, n), 0, n) == v
  {
    if n > 0 {
      NumberOfBits(v / 2, n - 1);
      NumberSame(BitsOf(v, n), BitsOf(v / 2, n - 1), 0, 0, n - 1);
    }
  }

  lemma {:induction false} NumberOnes(w: seq<bool>, n: nat)
    requires n <= |w| && forall i | 0 <= i < n :: w[i]
    ensures NumberAt(w, 0, n) + 1 == Shl(1, n)
  {
    if n > 0 { NumberOnes(w, n - 1); }
  }

  /** Equal numbers of equal length have equal bits. */
  lemma {:induction false} NumbersDetermine(s: seq<bool>, t: seq<bool>, at: nat, to: nat, n: nat)
    requires NumberAt(s, at, n) == NumberAt(t, to, n)
    ensures forall i | at <= i < at + n :: BitAt(s, i) == BitAt(t, i - at + to)
  {
    if n > 0 { NumbersDetermine(s, t, at, to, n - 1); }
  }

  /** The part of a number above the lowest `n` bits. */
  lemma HighPart(h: nat, r: nat, n: nat)
    requires r < Shl(1, n)
    ensures (Shl(h, n) + r) / Shl(1, n) == h && (Shl(h, n) + r) % Shl(1, n) == r
  {
    ShlIsProduct(h, n);
    Quotient(Shl(h, n) + r, Shl(1, n), h);
  }

  lemma {:induction false} ShlIsProduct(h: nat, n: nat)
    ensures Shl(h, n) == h * Shl(1, n)
  {
    if n > 0 { ShlIsProduct(h, n - 1); }
  }
}
