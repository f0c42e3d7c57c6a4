/** Tables from `jpeg_gen_optimal_table` in the two builders of derived tables. */
module OptimalTables {
  import opened Shifts
  import opened Totals
  import opened HuffmanCost
  import opened HuffmanMerge
  import opened CodeLengths
  import opened HuffmanLimit
  import opened CanonicalCodes
  import opened HuffmanTables
  import opened Wrappers

  lemma {:induction false} CodesAreSum(bits: seq<nat>, l: nat)
    requires l < |bits| && bits[0] == 0
    ensures CodesUpTo(bits, l) == Sum(bits, l + 1)
  {
    if l > 0 { CodesAreSum(bits, l - 1); }
  }

  lemma CodesCounted(count: Table, size: Table, bits: seq<byte>, top: nat)
    requires CountsFor(count, size, bits, top)
    ensures Legal(bits) && CodesUpTo(bits, 16) == Live(count) - 1
    ensures top <= 16 && forall k | top < k <= 16 :: bits[k] == 0
  {
    LiveAtMost(count);
    CodesAreSum(bits, 16);
    ShlPositive(16 - top);
  }

  /** No symbol can be made to exceed its range by listing it. */
  lemma ListedAreCounted(count: Table, size: Table)
    requires Optimal(count, size) && Live(count) >= 2 && count[256] > 0
    requires forall i | 0 <= i < 257 :: size[i] <= MAX_CLEN
    ensures forall s: byte :: count[s] > 0 <==> s in BySize(size, MAX_CLEN)
  {
    WholeList(count, size);
    CodedSymbols(count, size);
  }

  /** Both builders accept the table, and exactly the symbols that were counted get a code,
      of 1 to 16 bits. */
  lemma Accepted(count: Table, size: Table, bits: seq<byte>, huffval: seq<byte>, isDC: bool)
    requires Optimal(count, size) && count[256] > 0 && forall i | 0 <= i < 257 :: size[i] <= MAX_CLEN
    requires TableFor(count, size, bits, huffval)
    requires forall s: byte | count[s] > 0 :: s as int <= MaxSymbol(isDC)
    ensures Legal(bits) && Distinct(huffval, CodesUpTo(bits, 16), MaxSymbol(isDC))
    ensures CodesUpTo(bits, 16) == Live(count) - 1
    ensures forall s: byte :: count[s] > 0 <==> s in huffval[..CodesUpTo(bits, 16)]
  {
    hide CountsFor, Optimal, Live;
    var top: nat :| CountsFor(count, size, bits, top);
    CodesCounted(count, size, bits, top);
    ListedAreCounted(count, size);
    WholeList(count, size);
    var list := BySize(size, MAX_CLEN);
    forall p | 0 <= p < |list| ensures huffval[p] == list[p] { assert huffval[p] == huffval[..Live(count) - 1][p]; }
    forall p, q | 0 <= p < q < |list| ensures huffval[p] != huffval[q] { assert Before(size, list[p], list[q]); }
  }

  /** So whatever was counted while gathering statistics can be coded: the error exit for
      a missing code is out of reach. */
  lemma CountedIsCoded(count: Table, bits: seq<byte>, huffval: seq<byte>, n: nat, table: EncoderTable, s: byte)
    requires |bits| == 17 && n == CodesUpTo(bits, 16) && EncodesBy(bits, huffval, n, table.ehufco, table.ehufsi)
    requires forall t: byte :: count[t] > 0 <==> t in huffval[..n]
    ensures count[s] > 0 <==> 1 <= table.ehufsi[s] <= 16
  {
    if s in huffval[..n] {
      var p :| 0 <= p < n && huffval[..n][p] == s;
      var l := LengthExists(bits, p, 16);
      assert HasCode(bits, p, l) && huffval[p] == s;
    }
  }

  // ---------------------------------------------------- optimality of the table

  lemma {:induction false} AtLeastReal(size: Table, bits: seq<nat>, top: nat, l: nat)
    requires |bits| == 17 && l < top <= 16 && Unlimited(bits, top, size)
    ensures Sum(RealCounts(size), l + 1) <= CodesUpTo(bits, l)
  {
    if l > 0 { AtLeastReal(size, bits, top, l - 1); }
  }

  lemma {:induction false} NothingAbove(bits: seq<nat>, top: nat, l: nat)
    requires |bits| == 17 && top <= l <= 16 && forall k | top < k <= 16 :: bits[k] == 0
    ensures CodesUpTo(bits, l) == CodesUpTo(bits, top)
    decreases l
  {
    if top < l { NothingAbove(bits, top, l - 1); }
  }

  /** Symbols with codes of up to `l` bits stand at the front of the list. */
  lemma RankBelow(size: Table, p: nat, l: nat)
    requires p < |BySize(size, MAX_CLEN)| && l <= MAX_CLEN && size[BySize(size, MAX_CLEN)[p]] <= l
    requires Lists(BySize(size, MAX_CLEN), size)
    ensures p < Sum(RealCounts(size), l + 1)
  {
    var list, front := BySize(size, MAX_CLEN), BySize(size, l);
    BySizeList(size, RealCounts(size), l);
    BySizePrefix(size, l, MAX_CLEN);
    var q :| 0 <= q < |front| && front[q] == list[p];
    assert list[q] == front[q];
    if q < p { assert Before(size, list[q], list[p]); }
    if p < q { assert Before(size, list[p], list[q]); }
  }

  /** Unless the lengths had to be limited, no symbol has a longer code than in the optimal
      tree, so the table codes the text in as few bits as any binary prefix code that
      leaves room for one more symbol. */
  lemma NotLonger(count: Table, size: Table, bits: seq<byte>, huffval: seq<byte>, p: nat, l: nat)
    requires Optimal(count, size) && count[256] > 0 && forall i | 0 <= i < 257 :: size[i] <= 16
    requires TableFor(count, size, bits, huffval) && HasCode(bits, p, l) && p < Live(count) - 1
    ensures l <= size[huffval[p]]
  {
    hide Live, Optimal, OneUnused;
    WholeList(count, size);
    var top: nat :| CountsFor(count, size, bits, top);
    CodesCounted(count, size, bits, top);
    UnlimitedCounts(count, size, bits, top);
    var list := BySize(size, MAX_CLEN);
    assert huffval[p] == huffval[..Live(count) - 1][p] == list[p];
    var n := size[list[p]];
    RankBelow(size, p, n);
    if n < top {
      AtLeastReal(size, bits, top, n);
    } else {
      NothingAbove(bits, top, 16);
      NothingAbove(bits, top, n);
    }
    if n < l { CodesOrder(bits, n, l - 1); }
  }

  /** The same of the table that the encoder derives: no symbol takes more bits. */
  lemma CodedNotLonger(count: Table, size: Table, bits: seq<byte>, huffval: seq<byte>, n: nat, table: EncoderTable, s: byte)
    requires Optimal(count, size) && count[256] > 0 && forall i | 0 <= i < 257 :: size[i] <= 16
    requires TableFor(count, size, bits, huffval) && |bits| == 17 && |huffval| == 256
    requires n == CodesUpTo(bits, 16) == Live(count) - 1 && EncodesBy(bits, huffval, n, table.ehufco, table.ehufsi)
    requires count[s] > 0 && (forall t: byte :: count[t] > 0 <==> t in huffval[..n])
    ensures table.ehufsi[s] <= size[s]
  {
    hide Live, Optimal, TableFor, CodesUpTo;
    var p :| 0 <= p < n && huffval[..n][p] == s;
    var l := LengthExists(bits, p, 16);
    assert HasCode(bits, p, l) && huffval[p] == s;
    NotLonger(count, size, bits, huffval, p, l);
  }

  /** Behind the symbols there are only zeros. */
  lemma ListedOrZero(bits: seq<byte>, huffval: seq<byte>, n: nat, max: int)
    requires |huffval| == 256 && n <= 256 && max >= 0 && (forall p | n <= p < 256 :: huffval[p] == 0)
    requires |bits| == 17 && Distinct(huffval, n, max)
    ensures forall p | 0 <= p < 256 :: huffval[p] as int <= max
  {
  }

  /** Making a table from the statistics and deriving both coders' tables from it succeeds
      exactly when no code length that Huffman's algorithm gives is over 32. */
  method TablesFromCounts(freq: array<nat>, isDC: bool) returns (tables: Option<(EncoderTable, DecoderTable)>)
    requires freq.Length == 257 && Total(freq[..][256 := 1]) <= MAX_COUNT
    requires 2 <= Live(freq[..][256 := 1]) && Countable(CodeSizes(freq[..][256 := 1]))
    requires forall s: byte | freq[s] > 0 :: s as int <= MaxSymbol(isDC)
    modifies freq
    ensures tables.Some? <==> Coded(CodeSizes(old(freq[..])[256 := 1]))
    ensures tables.Some? ==> var (encoder, decoder) := tables.value;
              var size := CodeSizes(old(freq[..])[256 := 1]);
              && decoder.Valid() && |encoder.ehufsi| == 256
              && TableFor(old(freq[..])[256 := 1], size, decoder.bits, decoder.huffval)
              && EncodesBy(decoder.bits, decoder.huffval, CodesUpTo(decoder.bits, 16), encoder.ehufco, encoder.ehufsi)
              && (forall s: byte :: old(freq[s]) > 0 <==> 1 <= encoder.ehufsi[s] <= 16)
              && (forall p | 0 <= p < 256 :: decoder.huffval[p] as int <= MaxSymbol(isDC))
              && ((forall i | 0 <= i < 257 :: size[i] <= 16) ==>
                    forall s: byte | old(freq[s]) > 0 :: encoder.ehufsi[s] <= size[s])
  {
    hide Optimal, Live, Total, TableFor, EncodesBy, DecoderTable.Valid, Legal, CodeSizes;
    ghost var count: Table := freq[..][256 := 1];
    ghost var size := CodeSizes(count);
    CodeSizesOptimal(count);
    var bits, huffval := new byte[17](_ => 0), new byte[256](_ => 0);
    var ok := GenOptimalTable(freq, bits, huffval);
    if !ok { return None; }
    Accepted(count, size, bits[..], huffval[..], isDC);
    var encoder := MakeEncoder(bits[..], huffval[..], isDC);
    assert isDC ==> forall p | 0 <= p < CodesUpTo(bits[..], 16) :: huffval[..][p] <= 15;
    var decoder := MakeDecoder(bits[..], huffval[..], isDC);
    tables := Some((encoder.value, decoder.value));
    ListedOrZero(bits[..], huffval[..], Live(count) - 1, MaxSymbol(isDC));
    forall s: byte ensures old(freq[s]) > 0 <==> 1 <= encoder.value.ehufsi[s] <= 16 {
      CountedIsCoded(count, bits[..], huffval[..], CodesUpTo(bits[..], 16), encoder.value, s);
    }
    if forall i | 0 <= i < 257 :: size[i] <= 16 {
      forall s: byte | old(freq[s]) > 0 ensures encoder.value.ehufsi[s] <= size[s] {
        CodedNotLonger(count, size, bits[..], huffval[..], CodesUpTo(bits[..], 16), encoder.value, s);
      }
    }
  }
}
