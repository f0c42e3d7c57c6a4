/** Code lengths, their cost and the Kraft sum; why merging the two rarest symbols is
  optimal (section K.2 of ITU-T T.81). */
module HuffmanCost {
  import opened Shifts
  import opened Totals

  /** A number for each symbol: its frequency, or the length of its code. */
  type Table = t: seq<nat> | |t| == 257 witness seq(257, _ => 0)

  function Costs(freq: Table, size: Table): (v: Table) {
    seq(257, i requires 0 <= i < 257 => freq[i] * size[i])
  }

  /** The length of a text with these symbol counts, in bits. */
  function Cost(freq: Table, size: Table): nat {
    Total(Costs(freq, size))
  }

  ghost predicate Shorter(freq: Table, size: Table, m: nat) {
    forall i | 0 <= i < 257 && freq[i] > 0 :: size[i] <= m
  }

  /** 2^(m - size) for each symbol that occurs. */
  function Shares(freq: Table, size: Table, m: nat): (v: Table)
    requires Shorter(freq, size, m)
  {
    seq(257, i requires 0 <= i < 257 => if freq[i] > 0 then Shl(1, m - size[i]) else 0)
  }

  /** The Kraft inequality, scaled by 2^m. */
  ghost predicate Kraft(freq: Table, size: Table, m: nat) {
    Shorter(freq, size, m) && Total(Shares(freq, size, m)) <= Shl(1, m)
  }

  /** No code lengths that satisfy the Kraft inequality cost less than `bound`. */
  ghost predicate CostsAtLeast(freq: Table, bound: nat) {
    forall size: Table, m: nat | Kraft(freq, size, m) :: bound <= Cost(freq, size)
  }

  /** Symbol `c1` is one of the rarest that occur, `c2` the next. */
  ghost predicate TwoRarest(freq: Table, c1: nat, c2: nat) {
    && c1 < 257 && c2 < 257 && c1 != c2
    && 0 < freq[c1] <= freq[c2]
    && forall i | 0 <= i < 257 && freq[i] > 0 && i != c1 :: freq[c2] <= freq[i]
  }

  function Merged(freq: Table, c1: nat, c2: nat): Table
    requires c1 < 257 && c2 < 257 && c1 != c2
  {
    freq[c1 := freq[c1] + freq[c2]][c2 := 0]
  }

  // ------------------------------------------------------- changing one length

  lemma CostChange(freq: Table, size: Table, k: nat, v: nat)
    requires k < 257
    ensures Cost(freq, size[k := v]) + freq[k] * size[k] == Cost(freq, size) + freq[k] * v
  {
    SumChange(Costs(freq, size), Costs(freq, size[k := v]), k, 257);
  }

  lemma SharesChange(freq: Table, size: Table, m: nat, k: nat, v: nat)
    requires Shorter(freq, size, m) && k < 257 && freq[k] > 0 && v <= m
    ensures Shorter(freq, size[k := v], m)
    ensures Total(Shares(freq, size[k := v], m)) + Shl(1, m - size[k]) == Total(Shares(freq, size, m)) + Shl(1, m - v)
  {
    SumChange(Shares(freq, size, m), Shares(freq, size[k := v], m), k, 257);
  }

  /** Exchanging two lengths keeps the Kraft sum; giving the rarer symbol the longer
      code does not cost more. */
  lemma SwapLengths(freq: Table, size: Table, m: nat, a: nat, b: nat) returns (swapped: Table)
    requires a < 257 && b < 257 && 0 < freq[a] <= freq[b] && size[a] <= size[b]
    requires Kraft(freq, size, m)
    ensures swapped == size[a := size[b]][b := size[a]]
    ensures Kraft(freq, swapped, m) && Cost(freq, swapped) <= Cost(freq, size)
  {
    swapped := size[a := size[b]][b := size[a]];
    var half := size[a := size[b]];
    if a != b {
      SharesChange(freq, size, m, a, size[b]);
      SharesChange(freq, half, m, b, size[a]);
      CostChange(freq, size, a, size[b]);
      CostChange(freq, half, b, size[a]);
      Crossed(freq[a], freq[b], size[a], size[b]);
    } else {
      assert swapped == size;
    }
  }

  lemma Crossed(fa: nat, fb: nat, sa: nat, sb: nat)
    requires fa <= fb && sa <= sb
    ensures fa * sb + fb * sa <= fa * sa + fb * sb
  {
    var d := fb - fa;
    MulOrder(sa, sb, d);
    assert fb * sa == fa * sa + sa * d;
    assert fb * sb == fa * sb + sb * d;
  }

  // ------------------------------------------------------------- merging two

  /** The symbol with the longest code, other than `skip`. */
  lemma Longest(freq: Table, size: Table, skip: int, seed: nat) returns (x: nat)
    requires seed < 257 && freq[seed] > 0 && seed != skip
    ensures x < 257 && freq[x] > 0 && x != skip
    ensures forall i | 0 <= i < 257 && freq[i] > 0 && i != skip :: size[i] <= size[x]
  {
    x := seed;
    for n := 0 to 257
      invariant x < 257 && freq[x] > 0 && x != skip
      invariant forall i | 0 <= i < n && freq[i] > 0 && i != skip :: size[i] <= size[x]
    {
      if freq[n] > 0 && n != skip && size[n] > size[x] {
        x := n;
      }
    }
  }

  lemma {:induction false} SumScale(a: seq<nat>, b: seq<nat>, k: nat, n: nat)
    requires n <= |a| && n <= |b| && forall i | 0 <= i < n :: b[i] == Shl(a[i], k)
    ensures Sum(b, n) == Shl(Sum(a, n), k)
  {
    if n == 0 {
      ShlZero(k);
    } else {
      SumScale(a, b, k, n - 1);
      ShlAdd(Sum(a, n - 1), a[n - 1], k);
    }
  }

  /** The Kraft sum at a finer scale. */
  lemma SharesScale(freq: Table, size: Table, n: nat, m: nat)
    requires n <= m && Shorter(freq, size, n)
    ensures Total(Shares(freq, size, m)) == Shl(Total(Shares(freq, size, n)), m - n)
  {
    var a, b := Shares(freq, size, n), Shares(freq, size, m);
    forall i | 0 <= i < 257 ensures b[i] == Shl(a[i], m - n) {
      if freq[i] > 0 { ShlShl(1, n - size[i], m - n); } else { ShlZero(m - n); }
    }
    SumScale(a, b, m - n, 257);
  }

  /** If the longest code stands alone, it can be cut to the length of the next. */
  lemma CutLongest(freq: Table, size: Table, m: nat, c: nat, n: nat)
    requires c < 257 && freq[c] > 0 && n <= size[c] && Kraft(freq, size, m)
    requires Shorter(freq[c := 0], size, n)
    ensures Kraft(freq, size[c := n], m)
  {
    if n < size[c] {
      var others := freq[c := 0];
      var q := Total(Shares(others, size, n));
      SharesScale(others, size, n, m);
      SumChange(Shares(others, size, m), Shares(freq, size, m), c, 257);
      ShlPositive(m - size[c]);
      ShlShl(1, n, m - n);
      ShlOrder(q, Shl(1, n), m - n);
      ShlAdd(q, 1, m - n);
      ShlOrder(q + 1, Shl(1, n), m - n);
      SumChange(Shares(others, size, m), Shares(freq, size[c := n], m), c, 257);
    } else {
      assert size[c := n] == size;
    }
  }

  /** Two codes of the same length give way to their common prefix. */
  lemma JoinShares(freq: Table, size: Table, m: nat, c1: nat, c2: nat)
    requires TwoRarest(freq, c1, c2) && Kraft(freq, size, m) && size[c1] == size[c2]
    ensures size[c1] > 0 && Kraft(Merged(freq, c1, c2), size[c1 := size[c1] - 1], m)
  {
    var n := size[c1];
    if n == 0 {
      TwoEntries(Shares(freq, size, m), c1, c2, 257);
      ShlPositive(m);
      assert false;
    } else {
      var short, one, two := size[c1 := n - 1], freq[c2 := 0], Merged(freq, c1, c2);
      assert Shl(1, m - n + 1) == 2 * Shl(1, m - n);
      SumChange(Shares(freq, size, m), Shares(one, size, m), c2, 257);
      SumChange(Shares(one, size, m), Shares(two, short, m), c1, 257);
    }
  }

  lemma JoinCost(freq: Table, size: Table, c1: nat, c2: nat)
    requires c1 < 257 && c2 < 257 && c1 != c2 && size[c1] == size[c2] > 0
    ensures Cost(freq, size) == Cost(Merged(freq, c1, c2), size[c1 := size[c1] - 1]) + freq[c1] + freq[c2]
  {
    var short, one, two := size[c1 := size[c1] - 1], freq[c2 := 0], Merged(freq, c1, c2);
    SumChange(Costs(freq, size), Costs(one, size), c2, 257);
    SumChange(Costs(one, size), Costs(two, short), c1, 257);
    Shortened(freq[c1], freq[c2], size[c1]);
  }

  lemma Shortened(fa: nat, fb: nat, n: nat)
    requires n > 0
    ensures (fa + fb) * (n - 1) + fa + fb == fa * n + fb * n
  {
  }

  /** Any lengths for the symbols before a merge give lengths after it that cost less by
      the two frequencies merged. */
  lemma MergeLengths(freq: Table, size: Table, m: nat, c1: nat, c2: nat) returns (merged: Table)
    requires TwoRarest(freq, c1, c2) && Kraft(freq, size, m)
    ensures Kraft(Merged(freq, c1, c2), merged, m)
    ensures Cost(Merged(freq, c1, c2), merged) + freq[c1] + freq[c2] <= Cost(freq, size)
  {
    var x := Longest(freq, size, -1, c1);
    var first := SwapLengths(freq, size, m, c1, x);
    var y := Longest(freq, first, c1, c2);
    var second := SwapLengths(freq, first, m, c2, y);
    var n := second[c2];
    CutLongest(freq, second, m, c1, n);
    CostChange(freq, second, c1, n);
    MulOrder(n, second[c1], freq[c1]);
    var equal := second[c1 := n];
    JoinShares(freq, equal, m, c1, c2);
    JoinCost(freq, equal, c1, c2);
    merged := equal[c1 := n - 1];
  }

  /** The step of the optimality proof. */
  lemma MergeBound(freq: Table, c1: nat, c2: nat, bound: nat)
    requires TwoRarest(freq, c1, c2) && CostsAtLeast(Merged(freq, c1, c2), bound)
    ensures CostsAtLeast(freq, bound + freq[c1] + freq[c2])
  {
    forall size: Table, m: nat | Kraft(freq, size, m)
      ensures bound + freq[c1] + freq[c2] <= Cost(freq, size)
    {
      var merged := MergeLengths(freq, size, m, c1, c2);
    }
  }
}
