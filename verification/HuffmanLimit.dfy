/** The rest of `jpeg_gen_optimal_table`: counting the code lengths, limiting them to 16
  bits and listing the symbols (jchuff.c, section K.2 of ITU-T T.81). */
module HuffmanLimit {
  import opened Shifts
  import opened Totals
  import opened HuffmanCost
  import opened HuffmanMerge
  import opened CodeLengths

  const MAX_CLEN := 32

  /** What a UINT8 keeps of `v`. */
  function Uint8(v: int): (b: byte)
    ensures 0 <= v < 256 ==> b == v
  {
    v % 256
  }

  // ------------------------------------------------- facts about the code sizes

  /** With two symbols or more, those that occur are the ones with a code. */
  lemma CodedSymbols(count: Table, size: Table)
    requires Optimal(count, size) && Live(count) >= 2
    ensures forall i | 0 <= i < 257 :: count[i] > 0 <==> size[i] > 0
  {
    forall i | 0 <= i < 257 && count[i] > 0 ensures size[i] > 0 {
      if size[i] == 0 {
        var j := AnotherSymbol(count, i);
        TwoEntries(Shares(count, size, 257), i, j, 257);
        ShlPositive(257 - size[j]);
        assert false;
      }
    }
  }

  lemma AnotherSymbol(count: Table, i: nat) returns (j: nat)
    requires Live(count) >= 2 && i < 257
    ensures j < 257 && j != i && count[j] > 0
  {
    if forall k | 0 <= k < 257 && k != i :: count[k] == 0 {
      OnlyEntry(Marks(count), i);
      assert false;
    }
    j :| 0 <= j < 257 && j != i && count[j] > 0;
  }

  lemma {:induction false} HistogramAtMost(size: Table, marks: Table, k: nat, n: nat)
    requires 0 < k && n <= 257 && forall i | 0 <= i < 257 :: marks[i] == if size[i] > 0 then 1 else 0
    ensures Histogram(size, k, n) <= Sum(marks, n)
  {
    if n > 0 { HistogramAtMost(size, marks, k, n - 1); }
  }

  /** A whole tree of depth at most 32 has Kraft sum 2^32 at that scale. */
  lemma WholeTree(count: Table, size: Table, bits: seq<nat>)
    requires Optimal(count, size) && Live(count) >= 2
    requires |bits| == MAX_CLEN + 1 && Counts(bits, size, 257)
    requires forall i | 0 <= i < 257 :: size[i] <= MAX_CLEN
    ensures Used(bits, MAX_CLEN) == Shl(1, MAX_CLEN) && Total(bits) == Live(count)
  {
    CodedSymbols(count, size);
    CountsTotal(bits, size, Marks(count), 257);
    var shares := Shares(count, size, MAX_CLEN);
    UsedIsShares(bits, size, shares, MAX_CLEN, 257);
    SharesScale(count, size, MAX_CLEN, 257);
    ShlShl(1, MAX_CLEN, 257 - MAX_CLEN);
    ShlOrder(Total(shares), Shl(1, MAX_CLEN), 257 - MAX_CLEN);
    ShlOrder(Shl(1, MAX_CLEN), Total(shares), 257 - MAX_CLEN);
  }

  // -------------------------------------------------------- counting the lengths

  /** No length is so common that its count would not fit a UINT8. */
  predicate Countable(size: Table) {
    forall k | 0 < k <= MAX_CLEN :: Histogram(size, k, 257) <= 255
  }

  /** Counts the code lengths; fails when one is over 32. */
  method CountLengths(codesize: array<nat>) returns (ok: bool, bits: array<byte>)
    requires codesize.Length == 257 && Countable(codesize[..])
    ensures fresh(bits) && bits.Length == MAX_CLEN + 1
    ensures ok <==> forall i | 0 <= i < 257 :: codesize[i] <= MAX_CLEN
    ensures ok ==> Counts(bits[..], codesize[..], 257)
  {
    bits := new byte[MAX_CLEN + 1](_ => 0);
    ghost var size := codesize[..];
    ok := true;
    for i := 0 to 257
      invariant forall j | 0 <= j < i :: codesize[j] <= MAX_CLEN
      invariant codesize[..] == size
      invariant Counts(bits[..], size, i)
    {
      if codesize[i] != 0 {
        if codesize[i] > MAX_CLEN {
          ok := false;
          return;
        }
        HistogramGrows(size, codesize[i], i + 1, 257);
        bits[codesize[i]] := Uint8(bits[codesize[i]] as int + 1);
      }
    }
  }

  lemma {:induction false} HistogramGrows(size: seq<nat>, k: nat, m: nat, n: nat)
    requires m <= n <= |size|
    ensures Histogram(size, k, m) <= Histogram(size, k, n)
    decreases n
  {
    if m < n { HistogramGrows(size, k, m, n - 1); }
  }

  // -------------------------------------------------------- limiting the lengths

  /** `t` code words of at most `n` bits, which form a whole tree. */
  ghost predicate Full(bits: seq<nat>, n: nat, t: nat) {
    && n < |bits| && bits[0] == 0
    && Used(bits, n) == Shl(1, n)
    && Total(bits) == t
    && forall k | n < k < |bits| :: bits[k] == 0
  }

  lemma EachAtMost(bits: seq<nat>)
    ensures forall k | 0 <= k < |bits| :: bits[k] <= Total(bits)
  {
    forall k | 0 <= k < |bits| ensures bits[k] <= Total(bits) { SumEntry(bits, k, |bits|); }
  }

  /** The longest code words come in pairs, and there is a shorter one to split. */
  lemma SplitExists(bits: seq<nat>, i: nat, t: nat)
    requires 16 < i && Full(bits, i, t) && t <= 257 && bits[i] > 0
    ensures bits[i] >= 2
    ensures exists j :: 1 <= j <= i - 2 && bits[j] > 0
  {
    assert Used(bits, i) == 2 * Used(bits, i - 1) + bits[i];
    assert Shl(1, i) == 2 * Shl(1, i - 1);
    if forall j | 1 <= j <= i - 2 :: bits[j] == 0 {
      UsedZero(bits, i - 2);
      EachAtMost(bits);
      assert Used(bits, i - 1) == 2 * Used(bits, i - 2) + bits[i - 1];
      Powers();
      ShlExponent(16, i);
      assert false;
    }
  }

  /** The four updates of one round. */
  function Split(bits: seq<nat>, i: nat, j: nat): (b: seq<nat>)
    requires 1 <= j <= i - 2 && i < |bits| && bits[i] >= 2 && bits[j] > 0
  {
    var b := bits[i := bits[i] - 2];
    var b := b[i - 1 := b[i - 1] + 1];
    var b := b[j + 1 := b[j + 1] + 2];
    b[j := b[j] - 1]
  }

  /** What `d` more or fewer words of `k` bits do to the Kraft sum and to the total. */
  lemma MoreWords(bits: seq<nat>, k: nat, d: nat, n: nat)
    requires 1 <= k <= n < |bits|
    ensures var b := bits[k := bits[k] + d];
            Used(b, n) == Used(bits, n) + Shl(d, n - k) && Total(b) == Total(bits) + d
    ensures d <= bits[k] ==>
              var b := bits[k := bits[k] - d];
              Used(b, n) + Shl(d, n - k) == Used(bits, n) && Total(b) + d == Total(bits)
  {
    var more := bits[k := bits[k] + d];
    UsedChange(bits, k, more[k], n);
    ShlAdd(bits[k], d, n - k);
    SumChange(bits, more, k, |bits|);
    if d <= bits[k] {
      var fewer := bits[k := bits[k] - d];
      UsedChange(bits, k, fewer[k], n);
      ShlAdd(fewer[k], d, n - k);
      SumChange(bits, fewer, k, |bits|);
    }
  }

  lemma SplitKeeps(bits: seq<nat>, i: nat, j: nat, t: nat)
    requires Full(bits, i, t) && 1 <= j <= i - 2 && bits[i] >= 2 && bits[j] > 0
    ensures Full(Split(bits, i, j), i, t)
  {
    assert Shl(2, 0) == Shl(1, 1);
    hide Used, Total, Shl;
    var a := bits[i := bits[i] - 2];
    var b := a[i - 1 := a[i - 1] + 1];
    var c := b[j + 1 := b[j + 1] + 2];
    MoreWords(bits, i, 2, i);
    MoreWords(a, i - 1, 1, i);
    MoreWords(b, j + 1, 2, i);
    MoreWords(c, j, 1, i);
    ShlDouble(1, i - j - 1);
  }

  /** A whole tree with a deep leaf has no level with 256 leaves: at most one other leaf would
      be left, and these do not make it whole. */
  lemma SplitFits(bits: seq<nat>, i: nat, t: nat)
    requires 16 < i <= MAX_CLEN && Full(bits, i, t) && t <= 257 && bits[i - 1] > 0
    ensures forall k | 0 <= k < |bits| :: bits[k] <= 255
  {
    forall k | 0 <= k < |bits| ensures bits[k] <= 255 {
      if bits[k] > 255 { LevelHalf(bits, i, t, k); }
    }
  }

  /** With so many leaves of one level, the tree would not be whole. */
  lemma LevelHalf(bits: seq<nat>, i: nat, t: nat, k: nat)
    requires 16 < i <= MAX_CLEN && i < |bits| && bits[0] == 0 && Total(bits) <= 257 && bits[i - 1] > 0
    requires 1 <= k <= i && bits[k] > 255
    ensures Used(bits, i) != Shl(1, i)
  {
    assert Shl(1, i) == 2 * Shl(1, i - 1);
    hide Used, Sum, Shl;
    var rest := bits[k := 0];
    UsedChange(bits, k, 0, i);
    SumChange(bits, rest, k, |bits|);
    ShlZero(i - k);
    if k == i - 1 {
      FewLeaves(rest, i);
      DeepLevel(bits[k], i, 1);
    } else {
      SumEntry(rest, i - 1, |bits|);
      var none := rest[i - 1 := rest[i - 1] - 1];
      SumChange(rest, none, i - 1, |bits|);
      EachAtMost(none);
      UsedChange(rest, i - 1, rest[i - 1] - 1, i);
      UsedZero(none, i);
      ShlZero(1);
      OneShift();
      assert rest[i - 1] == 1 && bits[k] == 256;
      if k == i { DeepLevel(bits[k], i, 0); } else { ShallowLevel(i, k); }
    }
  }

  /** With at most one leaf, the tree is at most half full. */
  lemma FewLeaves(bits: seq<nat>, n: nat)
    requires 1 <= n < |bits| && bits[0] == 0 && Total(bits) <= 1
    ensures Used(bits, n) <= Shl(1, n - 1)
  {
    hide Used, Sum, Shl;
    if k :| 1 <= k <= n && bits[k] > 0 {
      SumEntry(bits, k, |bits|);
      var none := bits[k := bits[k] - 1];
      SumChange(bits, none, k, |bits|);
      EachAtMost(none);
      UsedChange(bits, k, bits[k] - 1, n);
      UsedZero(none, n);
      ShlZero(n - k);
      ExponentOrder(n - 1, n - k);
    } else {
      UsedZero(bits, n);
      ShlPositive(n - 1);
    }
  }

  /** 257 leaves of (nearly) the deepest level fill less than half of the tree. */
  lemma DeepLevel(v: nat, i: nat, d: nat)
    requires v <= 257 && 16 < i && d <= 1
    ensures Shl(v, d) + 2 < Shl(1, i - 1)
  {
    ExponentOrder(15, i - 1);
    Powers();
    assert Shl(v, 1) == 2 * Shl(v, 0);
  }

  /** 256 leaves of a level and one leaf next to the deepest level do not fill it. */
  lemma ShallowLevel(i: nat, k: nat)
    requires 16 < i && 1 <= k < i - 1
    ensures Shl(256, i - k) + Shl(1, 1) != Shl(1, i)
  {
    ShlShl(1, 8, i - k);
    Powers();
    assert Shl(1, i) == 2 * Shl(1, i - 1);
    hide Shl;
    ExponentOrder(8 + (i - k), i);
    ExponentOrder(i - 1, 8 + (i - k));
    ExponentOrder(15, i - 1);
    OneShift();
  }

  lemma OneShift()
    ensures Shl(1, 1) == 2
  {
  }

  /** The longest length of at most `n` bits that is in use, or 0. */
  function Longest(bits: seq<nat>, n: nat): (j: nat)
    requires n < |bits|
    ensures j <= n && (j > 0 ==> bits[j] > 0) && forall k | j < k <= n :: bits[k] == 0
  {
    if n == 0 || bits[n] > 0 then n else Longest(bits, n - 1)
  }

  lemma LongestIs(bits: seq<nat>, n: nat, j: nat)
    requires 1 <= j <= n < |bits| && bits[j] > 0 && forall k | j < k <= n :: bits[k] == 0
    ensures Longest(bits, n) == j
  {
  }

  /** What limiting from length `i` on makes of the counts: two code words of `i` bits become
      one of `i - 1`, and the longest word of at most `i - 2` bits two with one bit more. */
  function Limited(bits: seq<nat>, i: nat): (b: seq<nat>)
    requires i < |bits|
    ensures |b| == |bits|
    decreases i, bits[i]
  {
    if i <= 16 then bits
    else if bits[i] == 0 then Limited(bits, i - 1)
    else
      var j := Longest(bits, i - 2);
      if j == 0 || bits[i] < 2 then bits else Limited(Split(bits, i, j), i)
  }

  /** A round touches no other lengths, so a length keeps its words as long as a longer one of
      at most `i - 2` bits is in use. */
  lemma LeftAlone(bits: seq<nat>, i: nat, k: nat)
    requires 16 < i < |bits| && bits[i] >= 2 && Longest(bits, i - 2) > 0 && k < |bits|
    ensures k < Longest(bits, i - 2) ==> Split(bits, i, Longest(bits, i - 2))[k] == bits[k]
    ensures k < i - 2 && (exists l :: k < l <= i - 2 && bits[l] > 0) ==> k < Longest(bits, i - 2)
    ensures k > i ==> Split(bits, i, Longest(bits, i - 2))[k] == bits[k]
  {
  }

  /** Lengths that need no limiting stay. */
  lemma {:induction false} NothingLimited(bits: seq<nat>, i: nat)
    requires i < |bits| && forall k | 16 < k <= i :: bits[k] == 0
    ensures Limited(bits, i) == bits
  {
    if i > 16 { NothingLimited(bits, i - 1); }
  }

  /** With 17 symbols, each twice as common as the next, the pseudo-symbol has 17 bits: the
      code word of 15 bits is split, and those of fewer bits stay. */
  lemma SteepCounts()
    ensures var steep := [0, 1, 1, 1, 1, 1, 1, 1, 1, 1, 1, 1, 1, 1, 1, 1, 1, 2];
            Limited(steep, 17) == [0, 1, 1, 1, 1, 1, 1, 1, 1, 1, 1, 1, 1, 1, 1, 0, 4, 0]
  {
    var steep: seq<nat> := [0, 1, 1, 1, 1, 1, 1, 1, 1, 1, 1, 1, 1, 1, 1, 1, 1, 2];
    LongestIs(steep, 15, 15);
    assert Split(steep, 17, 15) == [0, 1, 1, 1, 1, 1, 1, 1, 1, 1, 1, 1, 1, 1, 1, 0, 4, 0];
    NothingLimited(Split(steep, 17, 15), 17);
  }

  /** One round of the limiting loop: no UINT8 wraps, and the tree stays whole. */
  method SplitShorter(bits: array<byte>, i: nat, ghost t: nat)
    requires bits.Length == MAX_CLEN + 1 && 16 < i <= MAX_CLEN && t <= 257
    requires Full(bits[..], i, t) && bits[i] > 0
    modifies bits
    ensures Full(bits[..], i, t) && bits[i] == old(bits[i]) - 2
    ensures Longest(old(bits[..]), i - 2) > 0 && bits[..] == Split(old(bits[..]), i, Longest(old(bits[..]), i - 2))
  {
    ghost var was: seq<nat> := bits[..];
    SplitExists(was, i, t);
    var j := i - 2;
    while bits[j] == 0
      invariant 1 <= j <= i - 2 && exists k :: 1 <= k <= j && was[k] > 0
      invariant forall k | j < k <= i - 2 :: was[k] == 0
      decreases j
    {
      j := j - 1;
    }
    LongestIs(was, i - 2, j);
    SplitKeeps(was, i, j, t);
    ghost var after := Split(was, i, j);
    SplitFits(after, i, t);
    bits[i] := Uint8(bits[i] as int - 2);
    bits[i - 1] := Uint8(bits[i - 1] as int + 1);
    bits[j + 1] := Uint8(bits[j + 1] as int + 2);
    bits[j] := Uint8(bits[j] as int - 1);
    assert bits[..] == after;
  }

  /** Moves every code word of more than 16 bits to a shorter length. */
  method LimitLengths(bits: array<byte>, ghost t: nat)
    requires bits.Length == MAX_CLEN + 1 && t <= 257
    requires Full(bits[..], MAX_CLEN, t)
    modifies bits
    ensures Full(bits[..], 16, t) && bits[..] == Limited(old(bits[..]), MAX_CLEN)
  {
    hide Full, Used, Total, Longest, Split;
    ghost var was := bits[..];
    var i := MAX_CLEN;
    while i > 16
      invariant 16 <= i <= MAX_CLEN
      invariant Full(bits[..], i, t) && Limited(bits[..], i) == Limited(was, MAX_CLEN)
    {
      while bits[i] > 0
        invariant Full(bits[..], i, t) && Limited(bits[..], i) == Limited(was, MAX_CLEN)
        decreases bits[i] as int
      {
        FullBits(bits[..], i, t);
        SplitShorter(bits, i, t);
      }
      FullBelow(bits[..], i, t);
      i := i - 1;
    }
  }

  lemma FullBits(bits: seq<nat>, i: nat, t: nat)
    requires 16 < i && Full(bits, i, t) && t <= 257 && bits[i] > 0
    ensures bits[i] >= 2
  {
    SplitExists(bits, i, t);
  }

  lemma FullBelow(bits: seq<nat>, n: nat, t: nat)
    requires n > 0 && Full(bits, n, t) && bits[n] == 0
    ensures Full(bits, n - 1, t)
  {
  }

  // ------------------------------------------------------ removing symbol 256

  /** All but the last code word of a whole tree: only the word of all ones is unused. */
  ghost predicate OneUnused(bits: seq<nat>, top: nat, t: nat) {
    && |bits| == 17 && bits[0] == 0 && 1 <= top <= 16
    && Used(bits, 16) + Shl(1, 16 - top) == Shl(1, 16)
    && Total(bits) == t
    && forall k | top < k <= 16 :: bits[k] == 0
  }

  lemma {:induction false} TotalPrefix(a: seq<nat>, b: seq<nat>, n: nat)
    requires |b| <= |a| && n <= |b| && forall k | 0 <= k < |b| :: a[k] == b[k]
    ensures Sum(a, n) == Sum(b, n)
  {
    if n > 0 { TotalPrefix(a, b, n - 1); }
  }

  lemma {:induction false} SumTail(a: seq<nat>, m: nat, n: nat)
    requires m <= n <= |a| && forall k | m <= k < n :: a[k] == 0
    ensures Sum(a, n) == Sum(a, m)
    decreases n
  {
    if m < n { SumTail(a, m, n - 1); }
  }

  lemma SomeLength(bits: seq<nat>, t: nat)
    requires |bits| == MAX_CLEN + 1 && Full(bits, 16, t)
    ensures exists k :: 1 <= k <= 16 && bits[k] > 0
  {
    if forall k | 1 <= k <= 16 :: bits[k] == 0 {
      UsedZero(bits, 16);
      ShlPositive(16);
      assert false;
    }
  }

  lemma LastRemovedTotal(bits: seq<nat>, top: nat, final: seq<nat>)
    requires |bits| == MAX_CLEN + 1 && top <= 16 && bits[top] > 0
    requires forall k | 16 < k <= MAX_CLEN :: bits[k] == 0
    requires final == bits[top := bits[top] - 1][..17]
    ensures Total(final) == Total(bits) - 1
  {
    var less := bits[top := bits[top] - 1];
    SumChange(bits, less, top, |bits|);
    TotalPrefix(less, final, 17);
    SumTail(less, 17, |bits|);
  }

  lemma LastRemoved(bits: seq<nat>, top: nat, t: nat, final: seq<nat>)
    requires |bits| == MAX_CLEN + 1 && Full(bits, 16, t) && 1 <= top <= 16
    requires bits[top] > 0 && forall k | top < k <= 16 :: bits[k] == 0
    requires final == bits[top := bits[top] - 1][..17]
    ensures t > 0 && OneUnused(final, top, t - 1)
  {
    var less := bits[top := bits[top] - 1];
    UsedChange(bits, top, bits[top] - 1, 16);
    ShlAdd(bits[top] - 1, 1, 16 - top);
    UsedSame(less, final, 16);
    LastRemovedTotal(bits, top, final);
  }

  /** Removes the pseudo-symbol from the largest code length still in use. */
  method RemovePseudoSymbol(bits: array<byte>, ghost t: nat) returns (ghost top: nat)
    requires bits.Length == MAX_CLEN + 1 && Full(bits[..], 16, t)
    modifies bits
    ensures t > 0 && OneUnused(bits[..17], top, t - 1)
    ensures 1 <= top <= 16 && old(bits[top]) > 0 && bits[..] == old(bits[..])[top := old(bits[top]) - 1]
    ensures forall k | top < k <= 16 :: old(bits[k]) == 0
  {
    hide OneUnused;
    ghost var was: seq<nat> := bits[..];
    SomeLength(was, t);
    var i := 16;
    while bits[i] == 0
      invariant 1 <= i <= 16 && exists k :: 1 <= k <= i && was[k] > 0
      invariant forall k | i < k <= 16 :: was[k] == 0
      decreases i
    {
      i := i - 1;
    }
    top := i;
    LastRemoved(was, i, t, was[i := was[i] - 1][..17]);
    bits[i] := Uint8(bits[i] as int - 1);
    assert bits[..] == was[i := was[i] - 1];
  }

  // -------------------------------------------------------- listing the symbols

  /** The symbols below `n` with a code of `k` bits, in order. */
  function WithSize(size: Table, k: nat, n: nat): (list: seq<byte>)
    requires n <= 256
  {
    if n == 0 then [] else WithSize(size, k, n - 1) + if size[n - 1] == k then [(n - 1) as byte] else []
  }

  /** The symbols with codes of up to `k` bits, sorted by code length. */
  function BySize(size: Table, k: nat): (list: seq<byte>) {
    if k == 0 then [] else BySize(size, k - 1) + WithSize(size, k, 256)
  }

  /** Symbol `a` is listed before symbol `b`. */
  ghost predicate Before(size: Table, a: byte, b: byte) {
    size[a] < size[b] || (size[a] == size[b] && a < b)
  }

  /** The real symbols that have a code, each once, shorter codes first. */
  ghost predicate Lists(list: seq<byte>, size: Table) {
    && (forall p | 0 <= p < |list| :: size[list[p]] > 0)
    && (forall p, q | 0 <= p < q < |list| :: Before(size, list[p], list[q]))
    && forall j: byte | size[j] > 0 :: j in list
  }

  lemma {:induction false} WithSizeList(size: Table, k: nat, n: nat)
    requires n <= 256
    ensures var list := WithSize(size, k, n);
            && |list| == Histogram(size, k, n)
            && (forall p | 0 <= p < |list| :: list[p] as int < n && size[list[p]] == k)
            && (forall p, q | 0 <= p < q < |list| :: list[p] < list[q])
            && forall j: byte | j as int < n && size[j] == k :: j in list
  {
    if n > 0 { WithSizeList(size, k, n - 1); }
  }

  lemma {:induction false} BySizeList(size: Table, counts: seq<nat>, k: nat)
    requires k < |counts| && Counts(counts, size, 256)
    ensures var list := BySize(size, k);
            && |list| == Sum(counts, k + 1)
            && (forall p | 0 <= p < |list| :: 0 < size[list[p]] <= k)
            && (forall p, q | 0 <= p < q < |list| :: Before(size, list[p], list[q]))
            && forall j: byte | 0 < size[j] <= k :: j in list
  {
    if k > 0 {
      BySizeList(size, counts, k - 1);
      WithSizeList(size, k, 256);
    }
  }

  /** The counts of the real symbols. */
  function RealCounts(size: Table): (counts: seq<nat>) {
    seq(MAX_CLEN + 1, k requires 0 <= k <= MAX_CLEN => if k == 0 then 0 else Histogram(size, k, 256))
  }

  /** The list is complete, and as long as there are real symbols that occur. */
  lemma WholeList(count: Table, size: Table)
    requires Optimal(count, size) && Live(count) >= 2 && count[256] > 0
    requires forall i | 0 <= i < 257 :: size[i] <= MAX_CLEN
    ensures Lists(BySize(size, MAX_CLEN), size) && |BySize(size, MAX_CLEN)| == Live(count) - 1
  {
    var counts := RealCounts(size);
    CodedSymbols(count, size);
    BySizeList(size, counts, MAX_CLEN);
    CountsTotal(counts, size, Marks(count), 256);
  }

  lemma {:induction false} BySizePrefix(size: Table, j: nat, k: nat)
    requires j <= k
    ensures BySize(size, j) <= BySize(size, k)
    decreases k
  {
    if j < k { BySizePrefix(size, j, k - 1); }
  }

  lemma {:induction false} WithSizePrefix(size: Table, k: nat, m: nat, n: nat)
    requires m <= n <= 256
    ensures WithSize(size, k, m) <= WithSize(size, k, n)
    decreases n
  {
    if m < n { WithSizePrefix(size, k, m, n - 1); }
  }

  /** What has been listed so far is part of the whole list. */
  lemma ListedSoFar(size: Table, i: nat, j: nat)
    requires 1 <= i <= MAX_CLEN && j <= 256
    ensures |BySize(size, i - 1)| + |WithSize(size, i, j)| <= |BySize(size, MAX_CLEN)|
  {
    BySizePrefix(size, i, MAX_CLEN);
    WithSizePrefix(size, i, j, 256);
  }

  /** The first entries are `list`, and the others are as before. */
  ghost predicate ListIn(now: seq<byte>, was: seq<byte>, list: seq<byte>) {
    |list| <= |was| && now == list + was[|list|..]
  }

  lemma ListGrows(now: seq<byte>, was: seq<byte>, list: seq<byte>, b: byte)
    requires ListIn(now, was, list) && |list| < |was|
    ensures ListIn(now[|list| := b], was, list + [b])
  {
  }

  /** Appends the symbols with codes of `k` bits to the list. */
  method ListSize(codesize: array<nat>, k: nat, huffval: array<byte>, start: nat, ghost was: seq<byte>) returns (p: nat)
    requires codesize.Length == 257 && huffval.Length == 256 && codesize as object != huffval as object
    requires 1 <= k <= MAX_CLEN && |BySize(codesize[..], MAX_CLEN)| <= 256 == |was|
    requires start == |BySize(codesize[..], k - 1)| && ListIn(huffval[..], was, BySize(codesize[..], k - 1))
    modifies huffval
    ensures p == |BySize(codesize[..], k)| && ListIn(huffval[..], was, BySize(codesize[..], k))
  {
    hide ListIn;
    ghost var size: Table := codesize[..];
    ghost var list := BySize(size, k - 1);
    p := start;
    assert list + [] == list;
    for j := 0 to 256
      invariant codesize[..] == size
      invariant p == |list + WithSize(size, k, j)|
      invariant ListIn(huffval[..], was, list + WithSize(size, k, j))
    {
      if codesize[j] == k {
        ListedSoFar(size, k, j + 1);
        ghost var sofar, before := list + WithSize(size, k, j), huffval[..];
        ListGrows(before, was, sofar, j as byte);
        huffval[p] := j as byte;
        assert huffval[..] == before[p := j as byte];
        assert sofar + [j as byte] == list + WithSize(size, k, j + 1);
        p := p + 1;
      } else {
        assert WithSize(size, k, j + 1) == WithSize(size, k, j);
      }
    }
  }

  /** Writes the list of symbols, sorted by code length. */
  method ListSymbols(codesize: array<nat>, huffval: array<byte>)
    requires codesize.Length == 257 && huffval.Length == 256 && codesize as object != huffval as object
    requires |BySize(codesize[..], MAX_CLEN)| <= 256
    modifies huffval
    ensures ListIn(huffval[..], old(huffval[..]), BySize(codesize[..], MAX_CLEN))
  {
    ghost var size: Table, was := codesize[..], huffval[..];
    var p := 0;
    for i := 1 to MAX_CLEN + 1
      invariant codesize[..] == size
      invariant p == |BySize(size, i - 1)|
      invariant ListIn(huffval[..], was, BySize(size, i - 1))
    {
      p := ListSize(codesize, i, huffval, p, was);
    }
  }

  // ------------------------------------------------------------- the procedure

  /** The counts are those of `size`, less one for symbol 256 at the largest length. */
  ghost predicate Unlimited(bits: seq<nat>, top: nat, size: Table) {
    forall k | 1 <= k < |bits| :: bits[k] == Histogram(size, k, 257) - if k == top then 1 else 0
  }

  /** How many code words there are of each length. */
  function LengthCounts(size: Table): (counts: seq<nat>)
    ensures |counts| == MAX_CLEN + 1
  {
    seq(MAX_CLEN + 1, k requires 0 <= k <= MAX_CLEN => if k == 0 then 0 else Histogram(size, k, 257))
  }

  /** The counts made from the code sizes `size`: limited, and less one for symbol 256 at the
      largest length left, `top`. */
  ghost predicate CountsFor(count: Table, size: Table, bits: seq<nat>, top: nat) {
    var limited := Limited(LengthCounts(size), MAX_CLEN);
    && Live(count) >= 2
    && OneUnused(bits, top, Live(count) - 1)
    && limited[top] > 0 && bits == limited[top := limited[top] - 1][..17]
  }

  /** When no length is over 16, they are not changed but for that. */
  lemma UnlimitedCounts(count: Table, size: Table, bits: seq<nat>, top: nat)
    requires CountsFor(count, size, bits, top) && forall i | 0 <= i < 257 :: size[i] <= 16
    ensures Unlimited(bits, top, size)
  {
    hide Live, Histogram, Used, Total, Shl;
    forall k | 16 < k <= MAX_CLEN ensures LengthCounts(size)[k] == 0 { LimitedHistogram(size, k, 257); }
    NothingLimited(LengthCounts(size), MAX_CLEN);
  }

  /** The table made from the symbol counts `count` when Huffman's algorithm gives `size`. */
  ghost predicate TableFor(count: Table, size: Table, bits: seq<byte>, huffval: seq<byte>) {
    && Live(count) >= 2 && |huffval| == 256 >= Live(count) - 1
    && huffval[..Live(count) - 1] == BySize(size, MAX_CLEN)
    && exists top: nat :: CountsFor(count, size, bits, top)
  }

  lemma LimitedHistogram(size: Table, k: nat, n: nat)
    requires n <= 257 && k > 16 && forall i | 0 <= i < 257 :: size[i] <= 16
    ensures Histogram(size, k, n) == 0
  {
    if n > 0 { LimitedHistogram(size, k, n - 1); }
  }

  /** With at most 254 real symbols no count can be too large. */
  lemma FewAreCountable(count: Table, size: Table)
    requires Optimal(count, size) && 2 <= Live(count) <= 255
    ensures Countable(size)
  {
    CodedSymbols(count, size);
    forall k | 0 < k <= MAX_CLEN ensures Histogram(size, k, 257) <= Live(count) {
      HistogramAtMost(size, Marks(count), k, 257);
    }
  }

  /** Turns the code sizes into counts of lengths 1 to 16. */
  method FinalCounts(codesize: array<nat>, bits: array<byte>, ghost count: Table) returns (ok: bool)
    requires codesize.Length == 257 && bits.Length == 17 && codesize as object != bits as object
    requires Optimal(count, codesize[..]) && 2 <= Live(count) && Countable(codesize[..])
    modifies bits
    ensures ok <==> forall i | 0 <= i < 257 :: codesize[i] <= MAX_CLEN
    ensures !ok ==> bits[..] == old(bits[..])
    ensures ok ==> exists top: nat :: CountsFor(count, codesize[..], bits[..], top)
  {
    hide Optimal, Used, Total, Live, OneUnused;
    ghost var size: Table := codesize[..];
    LiveAtMost(count);
    var lengths;
    ok, lengths := CountLengths(codesize);
    if !ok { return; }
    WholeTree(count, size, lengths[..]);
    assert lengths[..] == LengthCounts(size);
    LimitLengths(lengths, Live(count));
    ghost var limited := lengths[..];
    ghost var top := RemovePseudoSymbol(lengths, Live(count));
    ghost var final := lengths[..];
    for k := 0 to 17
      invariant bits[..k] == final[..k] && lengths[..] == final
    {
      bits[k] := lengths[k];
    }
    assert bits[..] == final[..17] && OneUnused(bits[..], top, Live(count) - 1);
    assert codesize[..] == size;
    assert CountsFor(count, codesize[..], bits[..], top);
  }

  /** No code is too long to be limited. */
  predicate Coded(size: Table) {
    forall i | 0 <= i < 257 :: size[i] <= MAX_CLEN
  }

  /** `jpeg_gen_optimal_table`: fails exactly when one of the code lengths that Huffman's
      algorithm gives is over 32; otherwise the table is made from these lengths. */
  method GenOptimalTable(freq: array<nat>, bits: array<byte>, huffval: array<byte>) returns (ok: bool)
    requires freq.Length == 257 && bits.Length == 17 && huffval.Length == 256
    requires bits != huffval && freq as object != bits as object && freq as object != huffval as object
    requires Total(freq[..][256 := 1]) <= MAX_COUNT
    requires 2 <= Live(freq[..][256 := 1]) && Countable(CodeSizes(freq[..][256 := 1]))
    modifies freq, bits, huffval
    ensures ok <==> Coded(CodeSizes(old(freq[..])[256 := 1]))
    ensures ok ==> TableFor(old(freq[..])[256 := 1], CodeSizes(old(freq[..])[256 := 1]), bits[..], huffval[..])
                   && huffval[Live(old(freq[..])[256 := 1]) - 1..] == old(huffval[..])[Live(old(freq[..])[256 := 1]) - 1..]
    ensures !ok ==> bits[..] == old(bits[..]) && huffval[..] == old(huffval[..])
  {
    hide Optimal, Total, Live, OneUnused, CodeSizes;
    ghost var count: Table := freq[..][256 := 1];
    var codesize := AssignSizes(freq);
    ghost var size: Table := codesize[..];
    ok := FinalCounts(codesize, bits, count);
    if ok {
      LiveAtMost(count);
      WholeList(count, size);
      ListSymbols(codesize, huffval);
      assert huffval[..Live(count) - 1] == BySize(size, MAX_CLEN);
      assert huffval[Live(count) - 1..] == old(huffval[..])[Live(count) - 1..];
    }
  }
}
