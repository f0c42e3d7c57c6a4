/** Every binary prefix code satisfies the Kraft inequality. */
module PrefixCodes {
  import opened Shifts
  import opened Totals
  import opened HuffmanCost

  /** A code word for each symbol. */
  type Code = c: seq<seq<bool>> | |c| == 257 witness seq(257, _ => [])

  function Sizes(code: Code): (size: Table) {
    seq(257, i requires 0 <= i < 257 => |code[i]|)
  }

  /** No code word of a symbol that occurs is a prefix of another one. */
  ghost predicate PrefixFree(freq: Table, code: Code) {
    forall i, j | 0 <= i < 257 && 0 <= j < 257 && i != j && freq[i] > 0 && freq[j] > 0 :: !(code[i] <= code[j])
  }

  /** The symbols whose code word begins with `bit`. */
  function Branch(freq: Table, code: Code, bit: bool): (f: Table) {
    seq(257, i requires 0 <= i < 257 => if code[i] != [] && code[i][0] == bit then freq[i] else 0)
  }

  function Tails(code: Code): (c: Code) {
    seq(257, i requires 0 <= i < 257 => if code[i] == [] then [] else code[i][1..])
  }

  lemma TailPrefix(a: seq<bool>, b: seq<bool>)
    requires a != [] && b != [] && a[0] == b[0]
    ensures a[1..] <= b[1..] ==> a <= b
  {
    assert a == [a[0]] + a[1..] && b == [b[0]] + b[1..];
  }

  lemma TailsPrefixFree(freq: Table, code: Code, bit: bool)
    requires PrefixFree(freq, code)
    ensures PrefixFree(Branch(freq, code, bit), Tails(code))
  {
    var f, tails := Branch(freq, code, bit), Tails(code);
    forall i, j | 0 <= i < 257 && 0 <= j < 257 && i != j && f[i] > 0 && f[j] > 0
      ensures !(tails[i] <= tails[j])
    {
      TailPrefix(code[i], code[j]);
    }
  }

  /** An empty code word leaves no room for any other. */
  lemma EmptyWordAlone(freq: Table, code: Code, e: nat, m: nat)
    requires PrefixFree(freq, code) && e < 257 && freq[e] > 0 && code[e] == []
    ensures Kraft(freq, Sizes(code), m)
  {
    assert forall i | 0 <= i < 257 && freq[i] > 0 :: i == e by {
      forall i | 0 <= i < 257 && freq[i] > 0 ensures i == e {
        assert code[e] <= code[i];
      }
    }
    var shares := Shares(freq, Sizes(code), m);
    var none := shares[e := 0];
    SumZero(none, 257);
    SumChange(none, shares, e, 257);
  }

  lemma {:induction false} KraftInequality(freq: Table, code: Code, m: nat)
    requires PrefixFree(freq, code) && Shorter(freq, Sizes(code), m)
    ensures Kraft(freq, Sizes(code), m)
    decreases m
  {
    hide PrefixFree, Shares, Sum, Branch, Tails;
    if e :| 0 <= e < 257 && freq[e] > 0 && code[e] == [] {
      EmptyWordAlone(freq, code, e, m);
    } else if m == 0 {
      NoShares(freq, code);
    } else {
      var left, right, tails := Branch(freq, code, false), Branch(freq, code, true), Tails(code);
      TailsPrefixFree(freq, code, false);
      TailsPrefixFree(freq, code, true);
      BranchShares(freq, code, m);
      KraftInequality(left, tails, m - 1);
      KraftInequality(right, tails, m - 1);
    }
  }

  lemma NoShares(freq: Table, code: Code)
    requires Shorter(freq, Sizes(code), 0) && forall e | 0 <= e < 257 && freq[e] > 0 :: code[e] != []
    ensures Total(Shares(freq, Sizes(code), 0)) == 0
  {
    SumZero(Shares(freq, Sizes(code), 0), 257);
  }

  /** Without an empty code word, each symbol belongs to one of the two branches. */
  lemma BranchShares(freq: Table, code: Code, m: nat)
    requires m > 0 && Shorter(freq, Sizes(code), m) && forall e | 0 <= e < 257 && freq[e] > 0 :: code[e] != []
    ensures var left, right, tails := Branch(freq, code, false), Branch(freq, code, true), Tails(code);
            && Shorter(left, Sizes(tails), m - 1) && Shorter(right, Sizes(tails), m - 1)
            && Total(Shares(freq, Sizes(code), m))
               == Total(Shares(left, Sizes(tails), m - 1)) + Total(Shares(right, Sizes(tails), m - 1))
  {
    var left, right, tails := Branch(freq, code, false), Branch(freq, code, true), Tails(code);
    SumAdd(Shares(left, Sizes(tails), m - 1), Shares(right, Sizes(tails), m - 1), Shares(freq, Sizes(code), m), 257);
  }

  /** No prefix code beats a bound that holds for all lengths allowed by Kraft. */
  lemma BoundHoldsForCodes(freq: Table, bound: nat, code: Code)
    requires CostsAtLeast(freq, bound) && PrefixFree(freq, code)
    ensures bound <= Cost(freq, Sizes(code))
  {
    var m := LongestWord(freq, code);
    KraftInequality(freq, code, m);
  }

  /** So the code sizes that meet the bound are at least as good as every prefix code. */
  lemma BeatsEveryCode(freq: Table, size: Table)
    requires CostsAtLeast(freq, Cost(freq, size))
    ensures forall code: Code | PrefixFree(freq, code) :: Cost(freq, size) <= Cost(freq, Sizes(code))
  {
    forall code: Code | PrefixFree(freq, code) ensures Cost(freq, size) <= Cost(freq, Sizes(code)) {
      BoundHoldsForCodes(freq, Cost(freq, size), code);
    }
  }

  lemma LongestWord(freq: Table, code: Code) returns (m: nat)
    ensures Shorter(freq, Sizes(code), m)
  {
    if seed :| 0 <= seed < 257 && freq[seed] > 0 {
      var x := Longest(freq, Sizes(code), -1, seed);
      m := |code[x]|;
    } else {
      m := 0;
    }
  }
}
