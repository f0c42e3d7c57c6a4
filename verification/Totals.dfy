/** Sums over the entries of a sequence. */
module Totals {

  function Sum(vals: seq<nat>, n: nat): nat
    requires n <= |vals|
  {
    if n == 0 then 0 else Sum(vals, n - 1) + vals[n - 1]
  }

  function Total(vals: seq<nat>): nat {
    Sum(vals, |vals|)
  }

  lemma {:induction false} SumOrder(a: seq<nat>, b: seq<nat>, n: nat)
    requires n <= |a| && n <= |b| && forall i | 0 <= i < n :: a[i] <= b[i]
    ensures Sum(a, n) <= Sum(b, n)
  {
    if n > 0 { SumOrder(a, b, n - 1); }
  }

  /** Entries add up position by position. */
  lemma {:induction false} SumAdd(a: seq<nat>, b: seq<nat>, c: seq<nat>, n: nat)
    requires n <= |a| && n <= |b| && n <= |c| && forall i | 0 <= i < n :: c[i] == a[i] + b[i]
    ensures Sum(c, n) == Sum(a, n) + Sum(b, n)
  {
    if n > 0 { SumAdd(a, b, c, n - 1); }
  }

  /** Changing one entry changes the total by as much. */
  lemma {:induction false} SumChange(a: seq<nat>, b: seq<nat>, k: nat, n: nat)
    requires n <= |a| == |b| && k < |a| && forall i | 0 <= i < |a| && i != k :: a[i] == b[i]
    ensures k < n ==> Sum(b, n) + a[k] == Sum(a, n) + b[k]
    ensures k >= n ==> Sum(b, n) == Sum(a, n)
  {
    if n > 0 { SumChange(a, b, k, n - 1); }
  }

  lemma {:induction false} SumZero(a: seq<nat>, n: nat)
    requires n <= |a| && forall i | 0 <= i < n :: a[i] == 0
    ensures Sum(a, n) == 0
  {
    if n > 0 { SumZero(a, n - 1); }
  }

  lemma {:induction false} SumEntry(a: seq<nat>, k: nat, n: nat)
    requires k < n <= |a|
    ensures a[k] <= Sum(a, n)
  {
    if k < n - 1 { SumEntry(a, k, n - 1); }
  }

  lemma TwoEntries(a: seq<nat>, j: nat, k: nat, n: nat)
    requires j < n <= |a| && k < n && j != k
    ensures a[j] + a[k] <= Sum(a, n)
  {
    var b := a[k := 0];
    SumChange(a, b, k, n);
    SumEntry(b, j, n);
  }
}
