/** Counts of code lengths: `bits[k]` codes of `k` bits.  The canonical code values and
  the Kraft sum of such counts are one and the same recurrence. */
module CodeLengths {
  import opened Shifts
  import opened Totals

  /** One more than the last code of length `n` in canonical order; also the Kraft sum of
      the lengths up to `n`, scaled by 2^n. */
  function Used(bits: seq<nat>, n: nat): nat
    requires n < |bits|
  {
    if n == 0 then 0 else 2 * Used(bits, n - 1) + bits[n]
  }

  lemma {:induction false} UsedSame(a: seq<nat>, b: seq<nat>, n: nat)
    requires n < |a| && n < |b| && forall k | 1 <= k <= n :: a[k] == b[k]
    ensures Used(a, n) == Used(b, n)
  {
    if n > 0 { UsedSame(a, b, n - 1); }
  }

  /** What changing one count does to the Kraft sum. */
  lemma {:induction false} UsedChange(bits: seq<nat>, k: nat, v: nat, n: nat)
    requires 1 <= k <= n < |bits|
    ensures Used(bits[k := v], n) + Shl(bits[k], n - k) == Used(bits, n) + Shl(v, n - k)
  {
    if k == n {
      UsedSame(bits, bits[k := v], n - 1);
    } else {
      UsedChange(bits, k, v, n - 1);
    }
  }

  lemma {:induction false} UsedZero(bits: seq<nat>, n: nat)
    requires n < |bits| && forall k | 1 <= k <= n :: bits[k] == 0
    ensures Used(bits, n) == 0
  {
    if n > 0 { UsedZero(bits, n - 1); }
  }

  /** A shorter code leaves room under every length above it. */
  lemma {:induction false} UsedRoom(bits: seq<nat>, j: nat, n: nat)
    requires j <= n < |bits| && Used(bits, n) < Shl(1, n)
    ensures Used(bits, j) < Shl(1, j)
    decreases n
  {
    if j < n { UsedRoom(bits, j, n - 1); }
  }

  /** How many of the first `n` symbols have a code of `k` bits. */
  function Histogram(size: seq<nat>, k: nat, n: nat): nat
    requires n <= |size|
  {
    if n == 0 then 0 else Histogram(size, k, n - 1) + if size[n - 1] == k then 1 else 0
  }

  /** `bits` counts the code lengths in `size`, symbols of size 0 left out. */
  ghost predicate Counts(bits: seq<nat>, size: seq<nat>, n: nat)
    requires n <= |size|
  {
    forall k | 0 <= k < |bits| :: bits[k] == if k == 0 then 0 else Histogram(size, k, n)
  }

  /** 2^(m - size) for each symbol with a code. */
  function Share(size: nat, m: nat): nat {
    if 1 <= size <= m then Shl(1, m - size) else 0
  }

  /** Counted by length or by symbol, the Kraft sum is the same. */
  lemma {:induction false} UsedIsShares(bits: seq<nat>, size: seq<nat>, shares: seq<nat>, m: nat, n: nat)
    requires m < |bits| && n <= |size| == |shares| && Counts(bits, size, n)
    requires forall i | 0 <= i < n :: size[i] <= m && shares[i] == Share(size[i], m)
    ensures Used(bits, m) == Sum(shares, n)
    decreases n
  {
    if n == 0 {
      UsedZero(bits, m);
    } else {
      var s := size[n - 1];
      if s == 0 {
        forall k | 0 < k < |bits| ensures Histogram(size, k, n - 1) == Histogram(size, k, n) {}
        UsedIsShares(bits, size, shares, m, n - 1);
      } else {
        var before := bits[s := bits[s] - 1];
        assert Histogram(size, s, n) == Histogram(size, s, n - 1) + 1;
        forall k | 0 <= k < |bits| ensures before[k] == if k == 0 then 0 else Histogram(size, k, n - 1) {}
        UsedIsShares(before, size, shares, m, n - 1);
        UsedChange(before, s, bits[s], m);
        assert before[s := bits[s]] == bits;
        ShlAdd(before[s], 1, m - s);
      }
    }
  }

  /** Every symbol with a code is counted once. */
  lemma {:induction false} CountsTotal(bits: seq<nat>, size: seq<nat>, marks: seq<nat>, n: nat)
    requires n <= |size| == |marks| && Counts(bits, size, n) && |bits| > 0
    requires forall i | 0 <= i < n :: size[i] < |bits| && marks[i] == if size[i] > 0 then 1 else 0
    ensures Total(bits) == Sum(marks, n)
    decreases n
  {
    if n == 0 {
      SumZero(bits, |bits|);
    } else {
      var s := size[n - 1];
      if s == 0 {
        forall k | 0 < k < |bits| ensures Histogram(size, k, n - 1) == Histogram(size, k, n) {}
        CountsTotal(bits, size, marks, n - 1);
      } else {
        var before := bits[s := bits[s] - 1];
        assert Histogram(size, s, n) == Histogram(size, s, n - 1) + 1;
        forall k | 0 <= k < |bits| ensures before[k] == if k == 0 then 0 else Histogram(size, k, n - 1) {}
        CountsTotal(before, size, marks, n - 1);
        SumChange(before, bits, s, |bits|);
      }
    }
  }
}
