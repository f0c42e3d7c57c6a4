/** The first part of `jpeg_gen_optimal_table`: Huffman's algorithm on the arrays
  `freq`, `codesize` and `others` (jchuff.c, section K.2 of ITU-T T.81). */
module HuffmanMerge {
  import opened Shifts
  import opened Totals
  import opened HuffmanCost
  import opened PrefixCodes

  const MAX_COUNT := 1000000000

  /** The entries of group `c`. */
  function Part(owner: seq<int>, c: int, vals: Table): (p: Table)
    requires |owner| == 257
  {
    seq(257, i requires 0 <= i < 257 => if owner[i] == c then vals[i] else 0)
  }

  /** 2^(257 - size) for every symbol. */
  function Halves(size: Table): (v: Table)
    requires forall i | 0 <= i < 257 :: size[i] <= 257
  {
    seq(257, i requires 0 <= i < 257 => Shl(1, 257 - size[i]))
  }

  /** The `others` links of a chain lead from each member to the next. */
  ghost predicate Linked(others: seq<int>, chain: seq<nat>) {
    && |others| == 257 && chain != []
    && (forall k | 0 <= k < |chain| :: chain[k] < 257)
    && (forall k | 0 <= k < |chain| - 1 :: others[chain[k]] == chain[k + 1])
    && others[chain[|chain| - 1]] == -1
    && forall j, k | 0 <= j < k < |chain| :: chain[j] != chain[k]
  }

  /** Every symbol that occurs belongs to the group of one live symbol, which heads the
      group's chain; other symbols are left alone. */
  ghost predicate Grouped(count: Table, freq: Table, others: seq<int>, owner: seq<int>, chain: seq<seq<nat>>) {
    && |others| == |owner| == |chain| == 257
    && (forall i | 0 <= i < 257 :: if count[i] > 0 then 0 <= owner[i] < 257 && freq[owner[i]] > 0 && i in chain[owner[i]]
                                   else owner[i] == -1 && freq[i] == 0)
    && (forall c | 0 <= c < 257 && freq[c] > 0 :: Linked(others, chain[c]) && chain[c] != [] && chain[c][0] == c)
    && (forall c, k | 0 <= c < 257 && freq[c] > 0 && 0 <= k < |chain[c]| ::
          chain[c][k] < 257 && owner[chain[c][k]] == c)
  }

  /** The frequency of a live symbol is that of its group, and the group's code lengths
      fill a whole tree. */
  ghost predicate Weighed(count: Table, freq: Table, size: Table, owner: seq<int>) {
    && |owner| == 257
    && (forall i | 0 <= i < 257 :: size[i] <= 257)
    && forall c | 0 <= c < 257 && freq[c] > 0 ::
         Total(Part(owner, c, count)) == freq[c] && Total(Part(owner, c, Halves(size))) == Shl(1, 257)
  }

  // ------------------------------------------------------------ effect of a merge

  function Joined(owner: seq<int>, c1: int, c2: int): (o: seq<int>)
    requires |owner| == 257
    ensures |o| == 257
  {
    seq(257, i requires 0 <= i < 257 => if owner[i] == c2 then c1 else owner[i])
  }

  /** One more bit for every symbol in the groups of `c1` and `c2`. */
  ghost predicate Lengthened(size: Table, size': Table, owner: seq<int>, c1: int, c2: int) {
    |owner| == 257
    && forall i | 0 <= i < 257 :: size'[i] == size[i] + if owner[i] == c1 || owner[i] == c2 then 1 else 0
  }

  lemma JoinedWeights(count: Table, owner: seq<int>, c1: int, c2: int)
    requires |owner| == 257 && c1 != c2
    ensures Total(Part(Joined(owner, c1, c2), c1, count)) == Total(Part(owner, c1, count)) + Total(Part(owner, c2, count))
  {
    SumAdd(Part(owner, c1, count), Part(owner, c2, count), Part(Joined(owner, c1, c2), c1, count), 257);
  }

  /** Two whole trees under a new root make a whole tree. */
  lemma JoinedTree(size: Table, size': Table, owner: seq<int>, c1: int, c2: int)
    requires |owner| == 257 && c1 != c2 && Lengthened(size, size', owner, c1, c2)
    requires forall i | 0 <= i < 257 :: size[i] <= size'[i] <= 257
    requires Total(Part(owner, c1, Halves(size))) == Total(Part(owner, c2, Halves(size))) == Shl(1, 257)
    ensures Total(Part(Joined(owner, c1, c2), c1, Halves(size'))) == Shl(1, 257)
  {
    var a, b := Part(owner, c1, Halves(size)), Part(owner, c2, Halves(size));
    var p := Part(Joined(owner, c1, c2), c1, Halves(size'));
    var both := seq(257, i requires 0 <= i < 257 => a[i] + b[i]);
    SumAdd(a, b, both, 257);
    SumAdd(p, p, both, 257);
  }

  /** Groups not involved are unchanged. */
  lemma OtherGroup(size: Table, size': Table, owner: seq<int>, c1: int, c2: int, c: int, count: Table)
    requires |owner| == 257 && c != c1 && c != c2 && Lengthened(size, size', owner, c1, c2)
    requires forall i | 0 <= i < 257 :: size[i] <= size'[i] <= 257
    ensures Part(Joined(owner, c1, c2), c, count) == Part(owner, c, count)
    ensures Part(Joined(owner, c1, c2), c, Halves(size')) == Part(owner, c, Halves(size))
  {
  }

  /** A merge costs as many bits as the two frequencies. */
  lemma MergeCost(count: Table, size: Table, size': Table, owner: seq<int>, c1: int, c2: int)
    requires |owner| == 257 && c1 != c2 && Lengthened(size, size', owner, c1, c2)
    ensures Cost(count, size') == Cost(count, size) + Total(Part(owner, c1, count)) + Total(Part(owner, c2, count))
  {
    var a, b := Part(owner, c1, count), Part(owner, c2, count);
    var both := seq(257, i requires 0 <= i < 257 => a[i] + b[i]);
    SumAdd(a, b, both, 257);
    forall i | 0 <= i < 257 ensures Costs(count, size')[i] == Costs(count, size)[i] + both[i] {
      assert count[i] * (size[i] + 1) == count[i] * size[i] + count[i];
    }
    SumAdd(Costs(count, size), both, Costs(count, size'), 257);
  }

  lemma JoinedChain(others: seq<int>, a: seq<nat>, b: seq<nat>)
    requires Linked(others, a) && Linked(others, b)
    requires forall j, k | 0 <= j < |a| && 0 <= k < |b| :: a[j] != b[k]
    ensures Linked(others[a[|a| - 1] := b[0]], a + b)
  {
  }

  lemma KeptChain(others: seq<int>, chain: seq<nat>, last: nat, next: int)
    requires Linked(others, chain) && last < 257 && last !in chain
    ensures Linked(others[last := next], chain)
  {
  }

  lemma LinkedHasLast(others: seq<int>, chain: seq<nat>)
    requires Linked(others, chain)
    ensures chain != [] && chain[|chain| - 1] < 257 && |others| == 257
  {
  }

  /** No member of one group is in the chain of another. */
  lemma ChainsApart(count: Table, freq: Table, others: seq<int>, owner: seq<int>, chain: seq<seq<nat>>, c1: nat, c2: nat)
    requires Grouped(count, freq, others, owner, chain)
    requires c1 < 257 && c2 < 257 && c1 != c2 && freq[c1] > 0 && freq[c2] > 0
    ensures forall j, k | 0 <= j < |chain[c1]| && 0 <= k < |chain[c2]| :: chain[c1][j] != chain[c2][k]
  {
    forall j, k | 0 <= j < |chain[c1]| && 0 <= k < |chain[c2]| ensures chain[c1][j] != chain[c2][k] {
      assert owner[chain[c1][j]] == c1 && owner[chain[c2][k]] == c2;
    }
  }

  lemma MergedGroups(count: Table, freq: Table, others: seq<int>, owner: seq<int>, chain: seq<seq<nat>>,
                     c1: nat, c2: nat, last: nat)
    requires Grouped(count, freq, others, owner, chain)
    requires c1 < 257 && c2 < 257 && c1 != c2 && freq[c1] > 0 && freq[c2] > 0
    requires chain[c1] != [] && last == chain[c1][|chain[c1]| - 1] < 257
    ensures Grouped(count, Merged(freq, c1, c2), others[last := c2],
                    Joined(owner, c1, c2), chain[c1 := chain[c1] + chain[c2]])
  {
    hide Linked;
    var merged, others', owner', chain' :=
      Merged(freq, c1, c2), others[last := c2], Joined(owner, c1, c2), chain[c1 := chain[c1] + chain[c2]];
    forall c | 0 <= c < 257 && merged[c] > 0
      ensures Linked(others', chain'[c]) && chain'[c] != [] && chain'[c][0] == c
    {
      if c == c1 {
        ChainsApart(count, freq, others, owner, chain, c1, c2);
        JoinedChain(others, chain[c1], chain[c2]);
      } else {
        ChainsApart(count, freq, others, owner, chain, c1, c);
        KeptChain(others, chain[c], last, c2);
      }
    }
    forall c, k | 0 <= c < 257 && merged[c] > 0 && 0 <= k < |chain'[c]|
      ensures chain'[c][k] < 257 && owner'[chain'[c][k]] == c
    {
      MergedOwner(count, freq, others, owner, chain, c1, c2, c, k);
    }
  }

  lemma MergedOwner(count: Table, freq: Table, others: seq<int>, owner: seq<int>, chain: seq<seq<nat>>,
                    c1: nat, c2: nat, c: nat, k: nat)
    requires Grouped(count, freq, others, owner, chain)
    requires c1 < 257 && c2 < 257 && c1 != c2 && freq[c1] > 0 && freq[c2] > 0
    requires c < 257 && Merged(freq, c1, c2)[c] > 0 && k < |chain[c1 := chain[c1] + chain[c2]][c]|
    ensures var i := chain[c1 := chain[c1] + chain[c2]][c][k]; i < 257 && Joined(owner, c1, c2)[i] == c
  {
    if c != c1 {
      assert owner[chain[c][k]] == c;
    } else if k < |chain[c1]| {
      assert owner[chain[c1][k]] == c1;
    } else {
      assert owner[chain[c2][k - |chain[c1]|]] == c2;
    }
  }

  lemma MergedWeights(count: Table, freq: Table, size: Table, size': Table, owner: seq<int>, c1: nat, c2: nat)
    requires Weighed(count, freq, size, owner) && Lengthened(size, size', owner, c1, c2)
    requires forall i | 0 <= i < 257 :: size'[i] <= 257
    requires c1 < 257 && c2 < 257 && c1 != c2 && freq[c1] > 0 && freq[c2] > 0
    ensures Weighed(count, Merged(freq, c1, c2), size', Joined(owner, c1, c2))
    ensures Cost(count, size') == Cost(count, size) + freq[c1] + freq[c2]
  {
    MergeCost(count, size, size', owner, c1, c2);
    JoinedWeights(count, owner, c1, c2);
    JoinedTree(size, size', owner, c1, c2);
    forall c | 0 <= c < 257 && Merged(freq, c1, c2)[c] > 0 && c != c1
      ensures Total(Part(Joined(owner, c1, c2), c, count)) == freq[c]
      ensures Total(Part(Joined(owner, c1, c2), c, Halves(size'))) == Shl(1, 257)
    {
      OtherGroup(size, size', owner, c1, c2, c, count);
    }
  }

  // -------------------------------------------------------------- the algorithm

  /** The rarest of the first `n` symbols, apart from `skip`: the last one among equals, or -1
      when there is none whose count is at most 10^9. */
  function Rarest(freq: Table, skip: int, n: nat): (c: int)
    requires n <= 257
    ensures -1 <= c < n && (c >= 0 ==> c != skip && 0 < freq[c] <= MAX_COUNT)
  {
    if n == 0 then -1
    else
      var c := Rarest(freq, skip, n - 1);
      if freq[n - 1] != 0 && freq[n - 1] <= (if c < 0 then MAX_COUNT else freq[c]) && n - 1 != skip then n - 1 else c
  }

  /** One more bit for every symbol in the groups of `c1` and `c2`. */
  function Longer(size: Table, owner: seq<int>, c1: int, c2: int): Table
    requires |owner| == 257
  {
    seq(257, i requires 0 <= i < 257 => size[i] + if owner[i] == c1 || owner[i] == c2 then 1 else 0)
  }

  /** The code sizes when all groups have been merged. */
  function MergedSizes(freq: Table, owner: seq<int>, size: Table): Table
    requires |owner| == 257
    decreases Live(freq)
  {
    var c1 := Rarest(freq, -1, 257);
    var c2 := Rarest(freq, c1, 257);
    if c1 < 0 || c2 < 0 then size
    else
      MergedTotals(freq, c1, c2);
      MergedSizes(Merged(freq, c1, c2), Joined(owner, c1, c2), Longer(size, owner, c1, c2))
  }

  /** At first, each symbol that occurs is a group of its own. */
  function Owners(count: Table): (owner: seq<int>)
    ensures |owner| == 257
  {
    seq(257, i requires 0 <= i < 257 => if count[i] > 0 then i else -1)
  }

  /** The code sizes that Huffman's algorithm gives for these counts. */
  function CodeSizes(count: Table): Table {
    MergedSizes(count, Owners(count), seq(257, _ => 0))
  }

  /** `FindRarest` on the array. */
  method FindRarest(freq: array<nat>, skip: int) returns (c: int)
    requires freq.Length == 257
    ensures c == Rarest(freq[..], skip, 257)
    ensures -1 <= c < 257
    ensures c == -1 ==> forall i | 0 <= i < 257 && i != skip :: freq[i] == 0 || freq[i] > MAX_COUNT
    ensures c >= 0 ==> c != skip && freq[c] > 0
                       && (forall i | 0 <= i < 257 && i != skip && freq[i] > 0 :: freq[c] <= freq[i])
                       && forall i | c < i < 257 && i != skip && freq[i] > 0 :: freq[c] < freq[i]
  {
    c := -1;
    var v := MAX_COUNT;
    for i := 0 to 257
      invariant -1 <= c < i && v <= MAX_COUNT && c == Rarest(freq[..], skip, i) && v == if c < 0 then MAX_COUNT else freq[c]
      invariant c == -1 ==> v == MAX_COUNT
                            && forall j | 0 <= j < i && j != skip :: freq[j] == 0 || freq[j] > MAX_COUNT
      invariant c >= 0 ==> c != skip && freq[c] == v > 0
                           && (forall j | 0 <= j < i && j != skip && freq[j] > 0 :: v <= freq[j])
                           && forall j | c < j < i && j != skip && freq[j] > 0 :: v < freq[j]
    {
      if freq[i] != 0 && freq[i] <= v && i != skip {
        v := freq[i];
        c := i;
      }
    }
  }

  /** Increments the code size of everything in the branch of `c`; returns its end. */
  method LengthenBranch(codesize: array<nat>, others: array<int>, c: nat, ghost chain: seq<nat>) returns (last: nat)
    requires codesize.Length == 257 && others.Length == 257 && codesize as object != others as object
    requires Linked(others[..], chain) && chain[0] == c
    modifies codesize
    ensures last == chain[|chain| - 1]
    ensures forall i | 0 <= i < 257 :: codesize[i] == old(codesize[i]) + if i in chain then 1 else 0
  {
    last := c;
    codesize[last] := codesize[last] + 1;
    ghost var k, links := 0, others[..];
    while others[last] >= 0
      invariant 0 <= k < |chain| && last == chain[k] && others[..] == links
      invariant forall i | 0 <= i < 257 :: codesize[i] == old(codesize[i]) + if i in chain[..k + 1] then 1 else 0
      decreases |chain| - k
    {
      NextInChain(links, chain, k);
      last := others[last];
      k := k + 1;
      codesize[last] := codesize[last] + 1;
    }
    NextInChain(links, chain, k);
  }

  lemma NextInChain(others: seq<int>, chain: seq<nat>, k: nat)
    requires Linked(others, chain) && k < |chain|
    ensures others[chain[k]] >= 0 ==> k + 1 < |chain| && others[chain[k]] == chain[k + 1]
    ensures others[chain[k]] < 0 ==> k + 1 == |chain| && chain[..k + 1] == chain
    ensures k + 1 < |chain| ==> chain[..k + 2] == chain[..k + 1] + [chain[k + 1]] && chain[k + 1] !in chain[..k + 1]
  {
  }

  // ------------------------------------------------------------- the merge loop

  /** The number of live symbols. */
  function Live(freq: Table): nat {
    Total(Marks(freq))
  }

  function Marks(freq: Table): (v: Table) {
    seq(257, i requires 0 <= i < 257 => if freq[i] > 0 then 1 else 0)
  }

  /** Whatever bounds the cost from here on bounds it from the start. */
  ghost predicate CarriesBounds(count: Table, freq: Table, spent: nat) {
    forall bound: nat | CostsAtLeast(freq, bound) :: CostsAtLeast(count, bound + spent)
  }

  ghost predicate MergeInvariant(count: Table, freq: Table, size: Table, others: seq<int>,
                                 owner: seq<int>, chain: seq<seq<nat>>) {
    && Grouped(count, freq, others, owner, chain)
    && Weighed(count, freq, size, owner)
    && Total(freq) == Total(count)
    && CarriesBounds(count, freq, Cost(count, size))
    && (forall i | 0 <= i < 257 :: size[i] + Live(freq) <= 257)
    && (forall i | 0 <= i < 257 && count[i] == 0 :: size[i] == 0)
  }

  lemma OnlyEntry(vals: Table, k: nat)
    requires k < 257 && forall i | 0 <= i < 257 && i != k :: vals[i] == 0
    ensures Total(vals) == vals[k]
  {
    var none: Table := seq(257, _ => 0);
    SumZero(none, 257);
    SumChange(none, vals, k, 257);
  }

  lemma LiveAtMost(freq: Table)
    ensures Live(freq) <= 257
  {
    var ones: Table := seq(257, _ => 1);
    SumOrder(Marks(freq), ones, 257);
    assert Total(ones) == 257 by { AllOnesSum(ones, 257); }
  }

  lemma {:induction false} AllOnesSum(ones: Table, n: nat)
    requires n <= 257 && forall i | 0 <= i < n :: ones[i] == 1
    ensures Sum(ones, n) == n
  {
    if n > 0 { AllOnesSum(ones, n - 1); }
  }

  lemma InitialInvariant(count: Table, others: seq<int>, owner: seq<int>, chain: seq<seq<nat>>)
    requires |others| == |owner| == |chain| == 257
    requires forall i | 0 <= i < 257 :: others[i] == -1 && chain[i] == [i] && owner[i] == if count[i] > 0 then i else -1
    ensures MergeInvariant(count, count, seq(257, _ => 0), others, owner, chain)
  {
    var zero: Table := seq(257, _ => 0);
    LiveAtMost(count);
    SumZero(Costs(count, zero), 257);
    forall c | 0 <= c < 257 && count[c] > 0
      ensures Total(Part(owner, c, count)) == count[c] && Total(Part(owner, c, Halves(zero))) == Shl(1, 257)
    {
      OnlyEntry(Part(owner, c, count), c);
      OnlyEntry(Part(owner, c, Halves(zero)), c);
    }
  }

  lemma MergedTotals(freq: Table, c1: nat, c2: nat)
    requires c1 < 257 && c2 < 257 && c1 != c2 && freq[c1] > 0 && freq[c2] > 0
    ensures Total(Merged(freq, c1, c2)) == Total(freq)
    ensures Live(Merged(freq, c1, c2)) == Live(freq) - 1
  {
    var half := freq[c1 := freq[c1] + freq[c2]];
    SumChange(freq, half, c1, 257);
    SumChange(half, Merged(freq, c1, c2), c2, 257);
    SumChange(Marks(freq), Marks(Merged(freq, c1, c2)), c2, 257);
  }

  lemma MergedBounds(count: Table, freq: Table, c1: nat, c2: nat, spent: nat)
    requires TwoRarest(freq, c1, c2) && CarriesBounds(count, freq, spent)
    ensures CarriesBounds(count, Merged(freq, c1, c2), spent + freq[c1] + freq[c2])
  {
    forall bound: nat | CostsAtLeast(Merged(freq, c1, c2), bound)
      ensures CostsAtLeast(count, bound + (spent + freq[c1] + freq[c2]))
    {
      MergeBound(freq, c1, c2, bound);
      assert CostsAtLeast(count, bound + freq[c1] + freq[c2] + spent);
    }
  }

  /** One round of the loop. */
  lemma MergeStep(count: Table, freq: Table, size: Table, size': Table, others: seq<int>,
                  owner: seq<int>, chain: seq<seq<nat>>, c1: nat, c2: nat, last: nat)
    requires MergeInvariant(count, freq, size, others, owner, chain)
    requires TwoRarest(freq, c1, c2)
    requires chain[c1] != [] && last == chain[c1][|chain[c1]| - 1] < 257
    requires forall i | 0 <= i < 257 ::
               size'[i] == size[i] + (if i in chain[c1] then 1 else 0) + if i in chain[c2] then 1 else 0
    ensures MergeInvariant(count, Merged(freq, c1, c2), size', others[last := c2],
                           Joined(owner, c1, c2), chain[c1 := chain[c1] + chain[c2]])
    ensures |owner| == 257 && size' == Longer(size, owner, c1, c2)
  {
    hide Grouped, Weighed, TwoRarest, CarriesBounds, Cost, Live;
    RarestAreLive(freq, c1, c2);
    LengthenedSizes(count, freq, size, size', others, owner, chain, c1, c2);
    MergedTotals(freq, c1, c2);
    MergedGroups(count, freq, others, owner, chain, c1, c2, last);
    MergedWeights(count, freq, size, size', owner, c1, c2);
    MergedBounds(count, freq, c1, c2, Cost(count, size));
  }

  lemma LengthenedSizes(count: Table, freq: Table, size: Table, size': Table, others: seq<int>,
                        owner: seq<int>, chain: seq<seq<nat>>, c1: nat, c2: nat)
    requires Grouped(count, freq, others, owner, chain) && TwoRarest(freq, c1, c2)
    requires forall i | 0 <= i < 257 ::
               size'[i] == size[i] + (if i in chain[c1] then 1 else 0) + if i in chain[c2] then 1 else 0
    ensures Lengthened(size, size', owner, c1, c2)
    ensures forall i | 0 <= i < 257 :: size'[i] <= size[i] + 1 && (count[i] == 0 ==> size'[i] == size[i])
  {
    BranchMembers(count, freq, others, owner, chain, c1);
    BranchMembers(count, freq, others, owner, chain, c2);
  }

  lemma RarestAreLive(freq: Table, c1: nat, c2: nat)
    requires TwoRarest(freq, c1, c2)
    ensures c1 < 257 && c2 < 257 && c1 != c2 && freq[c1] > 0 && freq[c2] > 0
  {
  }

  /** The chain of a live symbol holds exactly the symbols of its group. */
  lemma BranchMembers(count: Table, freq: Table, others: seq<int>, owner: seq<int>, chain: seq<seq<nat>>, c: nat)
    requires Grouped(count, freq, others, owner, chain) && c < 257 && freq[c] > 0
    ensures forall i | 0 <= i < 257 :: i in chain[c] <==> owner[i] == c
    ensures forall i | 0 <= i < 257 && owner[i] == c :: count[i] > 0
  {
  }

  /** The code lengths form a whole tree over the symbols that occur, and no lengths that
      a binary code can have cost less. */
  ghost predicate Optimal(count: Table, size: Table) {
    && Shorter(count, size, 257)
    && Total(Shares(count, size, 257)) == Shl(1, 257)
    && CostsAtLeast(count, Cost(count, size))
    && forall i | 0 <= i < 257 && count[i] == 0 :: size[i] == 0
  }

  /** With one live symbol left, its tree is the optimal one. */
  lemma MergedAll(count: Table, freq: Table, size: Table, others: seq<int>,
                  owner: seq<int>, chain: seq<seq<nat>>, c: nat)
    requires MergeInvariant(count, freq, size, others, owner, chain)
    requires c < 257 && freq[c] > 0 && forall i | 0 <= i < 257 && i != c :: freq[i] == 0
    ensures Optimal(count, size)
  {
    assert CostsAtLeast(freq, 0);
    assert CostsAtLeast(count, 0 + Cost(count, size));
    assert Part(owner, c, Halves(size)) == Shares(count, size, 257);
  }

  /** No count is too large for the search, and at least one is not zero. */
  lemma Searchable(count: Table, freq: Table, size: Table, others: seq<int>, owner: seq<int>, chain: seq<seq<nat>>)
    requires MergeInvariant(count, freq, size, others, owner, chain)
    requires count[256] > 0 && Total(count) <= MAX_COUNT
    ensures forall i | 0 <= i < 257 :: freq[i] <= MAX_COUNT
    ensures exists i :: 0 <= i < 257 && freq[i] > 0
  {
    forall i | 0 <= i < 257 ensures freq[i] <= MAX_COUNT {
      SumEntry(freq, i, 257);
    }
    assert freq[owner[256]] > 0;
  }

  lemma HeadOfChain(count: Table, freq: Table, size: Table, others: seq<int>, owner: seq<int>, chain: seq<seq<nat>>, c: nat)
    requires MergeInvariant(count, freq, size, others, owner, chain) && c < 257 && freq[c] > 0
    ensures |others| == |owner| == |chain| == 257 && Linked(others, chain[c]) && chain[c][0] == c
  {
  }

  /** Merges the trees of `c1` and `c2`. */
  method MergeTrees(freq: array<nat>, codesize: array<nat>, others: array<int>, c1: nat, c2: nat,
                    ghost count: Table, ghost owner: seq<int>, ghost chain: seq<seq<nat>>)
    requires freq.Length == codesize.Length == others.Length == 257
    requires freq != codesize && codesize as object != others as object && freq as object != others as object
    requires MergeInvariant(count, freq[..], codesize[..], others[..], owner, chain)
    requires TwoRarest(freq[..], c1, c2)
    modifies freq, codesize, others
    ensures freq[..] == Merged(old(freq[..]), c1, c2)
    ensures |owner| == |chain| == 257
    ensures MergeInvariant(count, freq[..], codesize[..], others[..],
                           Joined(owner, c1, c2), chain[c1 := chain[c1] + chain[c2]])
    ensures codesize[..] == Longer(old(codesize[..]), owner, c1, c2)
  {
    hide MergeInvariant, Merged, Linked;
    ghost var was, sizes, links := freq[..], codesize[..], others[..];
    RarestAreLive(was, c1, c2);
    HeadOfChain(count, was, sizes, links, owner, chain, c1);
    HeadOfChain(count, was, sizes, links, owner, chain, c2);
    LinkedHasLast(links, chain[c1]);
    ghost var end := chain[c1][|chain[c1]| - 1];
    ghost var longer: Table := seq(257, i requires 0 <= i < 257 =>
      sizes[i] + (if i in chain[c1] then 1 else 0) + if i in chain[c2] then 1 else 0);
    MergeStep(count, was, sizes, longer, links, owner, chain, c1, c2, end);
    ApartFromLast(count, was, sizes, links, owner, chain, c1, c2, end);
    freq[c1] := freq[c1] + freq[c2];
    freq[c2] := 0;
    assert freq[..] == Merged(was, c1, c2) by { MergedIs(was, c1, c2); }
    var last := LengthenBranch(codesize, others, c1, chain[c1]);
    others[last] := c2;
    last := LengthenBranch(codesize, others, c2, chain[c2]);
    assert codesize[..] == longer && others[..] == links[end := c2];
  }

  lemma MergedIs(freq: Table, c1: nat, c2: nat)
    requires c1 < 257 && c2 < 257 && c1 != c2
    ensures Merged(freq, c1, c2) == freq[c1 := freq[c1] + freq[c2]][c2 := 0]
  {
  }

  lemma ApartFromLast(count: Table, freq: Table, size: Table, others: seq<int>,
                      owner: seq<int>, chain: seq<seq<nat>>, c1: nat, c2: nat, last: nat)
    requires MergeInvariant(count, freq, size, others, owner, chain) && TwoRarest(freq, c1, c2)
    requires last < 257 && last in chain[c1]
    ensures Linked(others[last := c2], chain[c2])
  {
    ChainsApart(count, freq, others, owner, chain, c1, c2);
    KeptChain(others, chain[c2], last, c2);
  }

  /** Huffman's algorithm: the code sizes of a whole tree over the symbols that occur, and no
      prefix code of these symbols makes the text shorter.  Symbol 256 takes part with count
      1; the counts are clobbered. */
  method AssignSizes(freq: array<nat>) returns (codesize: array<nat>)
    requires freq.Length == 257 && Total(freq[..][256 := 1]) <= MAX_COUNT
    modifies freq
    ensures fresh(codesize) && codesize.Length == 257 && codesize[..] == CodeSizes(old(freq[..])[256 := 1])
    ensures Optimal(old(freq[..])[256 := 1], codesize[..])
    ensures var count: Table := old(freq[..])[256 := 1];
            forall code: Code | PrefixFree(count, code) :: Cost(count, codesize[..]) <= Cost(count, Sizes(code))
  {
    hide MergeInvariant, Optimal, Total, Linked, Merged, Live, Cost, PrefixFree, MergedSizes, Rarest, Longer;
    codesize := new nat[257](_ => 0);
    var others := new int[257](_ => -1);
    freq[256] := 1;
    ghost var count: Table := freq[..];
    ghost var owner := Owners(count);
    ghost var chain: seq<seq<nat>> := seq(257, (i: nat) => [i]);
    InitialInvariant(count, others[..], owner, chain);
    assert codesize[..] == seq(257, _ => 0);
    while true
      invariant MergeInvariant(count, freq[..], codesize[..], others[..], owner, chain)
      invariant |owner| == 257 && MergedSizes(freq[..], owner, codesize[..]) == CodeSizes(count)
      decreases Live(freq[..])
    {
      SizesStep(freq[..], owner, codesize[..]);
      Searchable(count, freq[..], codesize[..], others[..], owner, chain);
      var c1 := FindRarest(freq, -1);
      var c2 := FindRarest(freq, c1);
      if c2 < 0 {
        MergedAll(count, freq[..], codesize[..], others[..], owner, chain, c1);
        break;
      }
      MergedTotals(freq[..], c1, c2);
      MergeTrees(freq, codesize, others, c1, c2, count, owner, chain);
      owner, chain := Joined(owner, c1, c2), chain[c1 := chain[c1] + chain[c2]];
    }
    OptimalBeatsAll(count, codesize[..]);
  }

  /** One round, as a function. */
  lemma SizesStep(freq: Table, owner: seq<int>, size: Table)
    requires |owner| == 257
    ensures var c1 := Rarest(freq, -1, 257);
            var c2 := Rarest(freq, c1, 257);
            MergedSizes(freq, owner, size)
            == if c1 < 0 || c2 < 0 then size
               else MergedSizes(Merged(freq, c1, c2), Joined(owner, c1, c2), Longer(size, owner, c1, c2))
  {
    hide Rarest, Longer, Merged, Joined;
  }

  /** What the search finds. */
  lemma {:induction false} RarestIs(freq: Table, skip: int, n: nat)
    requires n <= 257
    ensures var c := Rarest(freq, skip, n);
            && (c == -1 ==> forall i | 0 <= i < n && i != skip :: freq[i] == 0 || freq[i] > MAX_COUNT)
            && (c >= 0 ==> forall i | 0 <= i < n && i != skip && freq[i] > 0 :: freq[c] <= freq[i])
  {
    if n > 0 { RarestIs(freq, skip, n - 1); }
  }

  /** The code sizes are optimal, whatever the groups merged so far. */
  lemma {:induction false} MergedSizesOptimal(count: Table, freq: Table, size: Table, others: seq<int>, owner: seq<int>,
                                              chain: seq<seq<nat>>)
    requires MergeInvariant(count, freq, size, others, owner, chain) && |owner| == 257
    requires count[256] > 0 && Total(count) <= MAX_COUNT
    ensures Optimal(count, MergedSizes(freq, owner, size))
    decreases Live(freq)
  {
    hide MergeInvariant, Optimal, Total, Linked, Merged, Live, Longer, MergedSizes, Rarest, Joined;
    Searchable(count, freq, size, others, owner, chain);
    SizesStep(freq, owner, size);
    var c1 := Rarest(freq, -1, 257);
    var c2 := Rarest(freq, c1, 257);
    RarestIs(freq, -1, 257);
    RarestIs(freq, c1, 257);
    if c2 < 0 {
      MergedAll(count, freq, size, others, owner, chain, c1);
    } else {
      var links, chain' := Merging(count, freq, size, others, owner, chain, c1, c2);
      MergedTotals(freq, c1, c2);
      MergedSizesOptimal(count, Merged(freq, c1, c2), Longer(size, owner, c1, c2), links, Joined(owner, c1, c2), chain');
    }
  }

  lemma Merging(count: Table, freq: Table, size: Table, others: seq<int>, owner: seq<int>, chain: seq<seq<nat>>, c1: nat, c2: nat)
    returns (links: seq<int>, chain': seq<seq<nat>>)
    requires MergeInvariant(count, freq, size, others, owner, chain) && |owner| == 257 && TwoRarest(freq, c1, c2)
    ensures MergeInvariant(count, Merged(freq, c1, c2), Longer(size, owner, c1, c2), links, Joined(owner, c1, c2), chain')
  {
    hide MergeInvariant, Linked, Merged;
    RarestAreLive(freq, c1, c2);
    HeadOfChain(count, freq, size, others, owner, chain, c1);
    HeadOfChain(count, freq, size, others, owner, chain, c2);
    LinkedHasLast(others, chain[c1]);
    var end := chain[c1][|chain[c1]| - 1];
    var longer: Table := seq(257, i requires 0 <= i < 257 =>
      size[i] + (if i in chain[c1] then 1 else 0) + if i in chain[c2] then 1 else 0);
    MergeStep(count, freq, size, longer, others, owner, chain, c1, c2, end);
    links, chain' := others[end := c2], chain[c1 := chain[c1] + chain[c2]];
  }

  /** The code sizes for any counts, symbol 256 included, are optimal. */
  lemma CodeSizesOptimal(count: Table)
    requires count[256] > 0 && Total(count) <= MAX_COUNT
    ensures Optimal(count, CodeSizes(count))
    ensures forall code: Code | PrefixFree(count, code) :: Cost(count, CodeSizes(count)) <= Cost(count, Sizes(code))
  {
    hide MergeInvariant, Optimal, Total, Linked, Cost, PrefixFree, MergedSizes;
    var others, chain: seq<seq<nat>> := seq(257, _ => -1), seq(257, (i: nat) => [i]);
    InitialInvariant(count, others, Owners(count), chain);
    MergedSizesOptimal(count, count, seq(257, _ => 0), others, Owners(count), chain);
    OptimalBeatsAll(count, CodeSizes(count));
  }

  lemma OptimalBeatsAll(count: Table, size: Table)
    requires Optimal(count, size)
    ensures forall code: Code | PrefixFree(count, code) :: Cost(count, size) <= Cost(count, Sizes(code))
  {
    BeatsEveryCode(count, size);
  }
}
