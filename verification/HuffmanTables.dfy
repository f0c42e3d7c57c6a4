/** The derived tables of the encoder and of the decoder: `jpeg_make_c_derived_tbl`
  (jchuff.c) and `jpeg_make_d_derived_tbl` (jdhuff.c). */
module HuffmanTables {
  import opened Shifts
  import opened CodeLengths
  import opened BitStrings
  import opened CanonicalCodes
  import opened Wrappers

  /** Codes and code lengths by symbol (`c_derived_tbl`). */
  datatype EncoderTable = EncoderTable(ehufco: seq<nat>, ehufsi: seq<nat>)

  /** What decoding looks up (`d_derived_tbl`). */
  datatype DecoderTable = DecoderTable(
    bits: seq<byte>, huffval: seq<byte>, maxcode: seq<int>, valoffset: seq<int>, lookup: seq<nat>)
  {
    ghost predicate Valid() {
      && |huffval| == 256 && Legal(bits)
      && SearchTable(bits, 17, maxcode, valoffset) && maxcode[17] == MaxCode(bits, 17) && valoffset[17] == 0
      && Lookups(bits, huffval, lookup, CodesUpTo(bits, HUFF_LOOKAHEAD), Used(bits, HUFF_LOOKAHEAD))
    }
  }

  const HUFF_LOOKAHEAD := 8

  /** The table entry for more than 8 bits. */
  const TOO_LONG := 0x900

  // --------------------------------------------------------------- sizes and codes

  /** Figure C.1: the code length of each symbol, terminated by a zero. */
  ghost predicate SizesAre(bits: seq<nat>, n: nat, huffsize: seq<nat>) {
    && |bits| == 17 && |huffsize| == 257 && n <= 256
    && forall p, l :: 0 <= p < n && HasCode(bits, p, l) ==> huffsize[p] == l
  }

  /** Appends the length `l` for each code of that length. */
  method RepeatSize(bits: seq<byte>, l: nat, huffsize: array<nat>, p: nat) returns (end: nat)
    requires |bits| == 17 && 1 <= l <= 16 && huffsize.Length == 257
    requires p == CodesUpTo(bits, l - 1) && p + bits[l] as int <= 256
    requires SizesAre(bits, p, huffsize[..])
    modifies huffsize
    ensures end == CodesUpTo(bits, l) && SizesAre(bits, end, huffsize[..])
  {
    end := p;
    var i: int := bits[l];
    while i > 0
      invariant 0 <= i && end + i == CodesUpTo(bits, l) <= 256 && p <= end
      invariant SizesAre(bits, end, huffsize[..])
    {
      i := i - 1;
      huffsize[end] := l;
      forall m | HasCode(bits, end, m) ensures m == l { LengthUnique(bits, end, l, m); }
      end := end + 1;
    }
  }

  /** Fails when the counts add up to more than 256 symbols. */
  method MakeSizes(bits: seq<byte>, huffsize: array<nat>) returns (ok: bool, count: nat)
    requires |bits| == 17 && huffsize.Length == 257
    modifies huffsize
    ensures ok <==> CodesUpTo(bits, 16) <= 256
    ensures ok ==> count == CodesUpTo(bits, 16) <= 256 && SizesAre(bits, count, huffsize[..]) && huffsize[count] == 0
  {
    count := 0;
    for l := 1 to 17
      invariant count == CodesUpTo(bits, l - 1) && SizesAre(bits, count, huffsize[..])
    {
      if count + bits[l] as int > 256 {
        CodesOrder(bits, l, 16);
        return false, count;
      }
      count := RepeatSize(bits, l, huffsize, count);
    }
    huffsize[count] := 0;
    return true, count;
  }

  /** Figure C.2: the codes themselves. */
  ghost predicate CodesAre(bits: seq<nat>, n: nat, huffcode: seq<nat>) {
    && |huffcode| == 257 && n <= 256
    && forall p, l :: 0 <= p < n && HasCode(bits, p, l) ==> huffcode[p] == Code(bits, p, l)
  }

  /** The sizes tell where the codes of a length end. */
  lemma SizeTells(bits: seq<nat>, count: nat, huffsize: seq<nat>, p: nat, l: nat)
    requires |bits| == 17 && count == CodesUpTo(bits, 16) <= 256 && SizesAre(bits, count, huffsize) && huffsize[count] == 0
    requires 1 <= l && (l <= 16 ==> CodesUpTo(bits, l - 1) <= p) && p <= count
    requires l > 16 ==> p == count
    ensures huffsize[p] == l <==> l <= 16 && p < CodesUpTo(bits, l)
    ensures huffsize[p] == 0 <==> p == count
  {
    if p < count {
      var m := LengthExists(bits, p, 16);
      if l <= 16 && p < CodesUpTo(bits, l) {
        assert HasCode(bits, p, l);
        LengthUnique(bits, p, l, m);
      }
    } else if l <= 16 {
      CodesOrder(bits, l, 16);
    }
  }

  /** Assigns the codes of length `si`. */
  method AssignCodes(bits: seq<byte>, count: nat, huffsize: array<nat>, huffcode: array<nat>, si: nat, p: nat, code: nat)
    returns (end: nat, next: nat)
    requires |bits| == 17 && huffsize.Length == huffcode.Length == 257 && huffsize != huffcode && 1 <= si <= 16
    requires count == CodesUpTo(bits, 16) <= 256 && SizesAre(bits, count, huffsize[..]) && huffsize[count] == 0
    requires p == CodesUpTo(bits, si - 1) && code == 2 * Used(bits, si - 1)
    requires CodesAre(bits, p, huffcode[..])
    modifies huffcode
    ensures end == CodesUpTo(bits, si) && next == Used(bits, si) && CodesAre(bits, end, huffcode[..])
  {
    hide SizesAre;
    end, next := p, code;
    CodesOrder(bits, si, 16);
    SizeTells(bits, count, huffsize[..], end, si);
    while huffsize[end] == si
      invariant p <= end <= CodesUpTo(bits, si) && next == code + (end - p)
      invariant CodesAre(bits, end, huffcode[..])
      invariant huffsize[end] == si <==> end < CodesUpTo(bits, si)
      decreases CodesUpTo(bits, si) - end
    {
      huffcode[end] := next;
      forall m | HasCode(bits, end, m) ensures m == si { LengthUnique(bits, end, si, m); }
      end, next := end + 1, next + 1;
      SizeTells(bits, count, huffsize[..], end, si);
    }
  }

  lemma {:induction false} NoMoreCodes(bits: seq<nat>, l: nat, n: nat)
    requires l <= n < |bits| && CodesUpTo(bits, l) == CodesUpTo(bits, n) && Used(bits, l) < Shl(1, l)
    ensures Used(bits, n) < Shl(1, n)
    decreases n
  {
    if l < n {
      CodesOrder(bits, l, n - 1);
      NoMoreCodes(bits, l, n - 1);
    }
  }

  /** Before the first code. */
  lemma {:induction false} NothingYet(bits: seq<nat>, l: nat)
    requires l < |bits| && CodesUpTo(bits, l) == 0
    ensures Used(bits, l) == 0
  {
    if l > 0 { NothingYet(bits, l - 1); }
  }

  /** Fails when a code would not fit its length, or would consist of ones only. */
  method MakeCodes(bits: seq<byte>, count: nat, huffsize: array<nat>, huffcode: array<nat>) returns (ok: bool)
    requires |bits| == 17 && huffsize.Length == huffcode.Length == 257 && huffsize != huffcode
    requires count == CodesUpTo(bits, 16) <= 256 && SizesAre(bits, count, huffsize[..]) && huffsize[count] == 0
    modifies huffcode
    ensures ok <==> Used(bits, 16) < Shl(1, 16)
    ensures ok ==> CodesAre(bits, count, huffcode[..])
  {
    assert CodesAre(bits, 0, huffcode[..]);
    hide SizesAre, CodesAre;
    var code, p: nat := 0, 0;
    var si := huffsize[0];
    FirstSize(bits, count, huffsize[..]);
    while huffsize[p] != 0
      invariant p <= count && CodesAre(bits, p, huffcode[..])
      invariant huffsize[p] == 0 <==> p == count
      invariant count > 0 ==> 1 <= si <= 17 && p == CodesUpTo(bits, si - 1) && code == 2 * Used(bits, si - 1)
      invariant count > 0 ==> Used(bits, si - 1) < Shl(1, si - 1)
      decreases 17 - (si as int)
    {
      p, code := AssignCodes(bits, count, huffsize, huffcode, si, p, code);
      if code >= Shl(1, si) {
        if Used(bits, 16) < Shl(1, 16) { UsedRoom(bits, si, 16); }
        return false;
      }
      code := 2 * code;
      si := si + 1;
      CodesOrder(bits, si - 1, 16);
      SizeTells(bits, count, huffsize[..], p, si);
    }
    if count == 0 {
      NothingYet(bits, 16);
      ShlPositive(16);
    } else {
      NoMoreCodes(bits, si - 1, 16);
    }
    ok := true;
  }

  lemma FirstSize(bits: seq<nat>, count: nat, huffsize: seq<nat>)
    requires |bits| == 17 && count == CodesUpTo(bits, 16) <= 256 && SizesAre(bits, count, huffsize) && huffsize[count] == 0
    ensures count == 0 ==> huffsize[0] == 0
    ensures count > 0 ==> var l := huffsize[0]; 1 <= l <= 16 && CodesUpTo(bits, l - 1) == 0 == Used(bits, l - 1)
    ensures count > 0 ==> Used(bits, huffsize[0] - 1) < Shl(1, huffsize[0] - 1)
  {
    if count > 0 {
      var l := LengthExists(bits, 0, 16);
      NothingYet(bits, l - 1);
      ShlPositive(l - 1);
    }
  }

  // ------------------------------------------------------- the encoder's table

  /** The symbols of a table are different from each other and at most `max`. */
  ghost predicate Distinct(huffval: seq<byte>, n: nat, max: int) {
    && n <= |huffval|
    && (forall p | 0 <= p < n :: huffval[p] <= max)
    && forall p, q | 0 <= p < q < n :: huffval[p] != huffval[q]
  }

  function MaxSymbol(isDC: bool): int {
    if isDC then 15 else 255
  }

  /** Codes and sizes by symbol: those of the first `n` symbols listed; all other symbols
      have no code. */
  ghost predicate EncodesBy(bits: seq<nat>, huffval: seq<byte>, n: nat, ehufco: seq<nat>, ehufsi: seq<nat>) {
    && |bits| == 17 && n <= |huffval| == |ehufco| == |ehufsi| == 256
    && (forall p, l :: 0 <= p < n && HasCode(bits, p, l) ==>
          ehufco[huffval[p]] == Code(bits, p, l) && ehufsi[huffval[p]] == l)
    && forall s: byte :: s !in huffval[..n] ==> ehufsi[s] == 0
  }

  /** Figure C.3: fails on a symbol that is out of range or listed twice. */
  method FillEncoder(bits: seq<byte>, huffval: seq<byte>, count: nat, max: int, huffsize: array<nat>,
                     huffcode: array<nat>, ehufco: array<nat>, ehufsi: array<nat>) returns (ok: bool)
    requires huffsize.Length == huffcode.Length == 257 && ehufco.Length == ehufsi.Length == |huffval| == 256
    requires ehufco != ehufsi && huffsize !in {ehufco, ehufsi} && huffcode !in {ehufco, ehufsi}
    requires |bits| == 17 && count == CodesUpTo(bits, 16) <= 256
    requires SizesAre(bits, count, huffsize[..]) && CodesAre(bits, count, huffcode[..])
    modifies ehufco, ehufsi
    ensures ok <==> Distinct(huffval, count, max)
    ensures ok ==> EncodesBy(bits, huffval, count, ehufco[..], ehufsi[..])
  {
    ghost var sizes, codes := huffsize[..], huffcode[..];
    for s := 0 to 256
      invariant forall t | 0 <= t < s :: ehufsi[t] == 0
    {
      ehufsi[s] := 0;
    }
    for p := 0 to count
      invariant Distinct(huffval, p, max) && EncodesBy(bits, huffval, p, ehufco[..], ehufsi[..])
      invariant huffsize[..] == sizes && huffcode[..] == codes
    {
      var i := huffval[p];
      if i as int > max || ehufsi[i] != 0 {
        return false;
      }
      var l := SymbolIsNew(bits, huffval, count, p, ehufco[..], ehufsi[..]);
      ehufco[i] := huffcode[p];
      ehufsi[i] := huffsize[p];
    }
    return true;
  }

  lemma SymbolIsNew(bits: seq<nat>, huffval: seq<byte>, count: nat, p: nat, ehufco: seq<nat>, ehufsi: seq<nat>)
    returns (l: nat)
    requires p < count <= 256 && EncodesBy(bits, huffval, p, ehufco, ehufsi) && count == CodesUpTo(bits, 16)
    ensures HasCode(bits, p, l) && forall m | HasCode(bits, p, m) :: m == l
    ensures ehufsi[huffval[p]] == 0 <==> huffval[p] !in huffval[..p]
  {
    l := LengthExists(bits, p, 16);
    forall m | HasCode(bits, p, m) ensures m == l { LengthUnique(bits, p, l, m); }
    if huffval[p] in huffval[..p] {
      var q :| 0 <= q < p && huffval[q] == huffval[p];
      var m := LengthExists(bits, q, 16);
    }
  }

  /** `jpeg_make_c_derived_tbl`: accepts exactly the legal counts with symbols that are in
      range and different, and then gives each symbol its canonical code. */
  method MakeEncoder(bits: seq<byte>, huffval: seq<byte>, isDC: bool) returns (table: Option<EncoderTable>)
    requires |bits| == 17 && |huffval| == 256
    ensures table.Some? <==> Legal(bits) && Distinct(huffval, CodesUpTo(bits, 16), if isDC then 15 else 255)
    ensures table.Some? ==> |table.value.ehufco| == |table.value.ehufsi| == 256
    ensures table.Some? ==> EncodesBy(bits, huffval, CodesUpTo(bits, 16), table.value.ehufco, table.value.ehufsi)
  {
    hide SizesAre, CodesAre, EncodesBy;
    var ehufco, ehufsi := new nat[256](_ => 0), new nat[256](_ => 0);
    var huffsize, huffcode := new nat[257](_ => 0), new nat[257](_ => 0);
    var ok, count := MakeSizes(bits, huffsize);
    if !ok { return None; }
    ghost var sizes := huffsize[..];
    ok := MakeCodes(bits, count, huffsize, huffcode);
    if !ok { return None; }
    assert huffsize[..] == sizes;
    ok := FillEncoder(bits, huffval, count, MaxSymbol(isDC), huffsize, huffcode, ehufco, ehufsi);
    if !ok { return None; }
    return Some(EncoderTable(ehufco[..], ehufsi[..]));
  }

  // ------------------------------------------------------- the decoder's table

  /** Figure F.15: the largest code of each length, and what to add to a code to get the
      index of its symbol. */
  ghost predicate SearchTable(bits: seq<nat>, n: nat, maxcode: seq<int>, valoffset: seq<int>) {
    && |bits| == 17 && |maxcode| == |valoffset| == 18 && n <= 17
    && forall l | 1 <= l < n ::
         && maxcode[l] == MaxCode(bits, l)
         && (bits[l] > 0 ==> valoffset[l] == CodesUpTo(bits, l - 1) - 2 * Used(bits, l - 1))
  }

  method FillSearch(bits: seq<byte>, huffcode: array<nat>, maxcode: array<int>, valoffset: array<int>)
    requires |bits| == 17 && huffcode.Length == 257 && maxcode.Length == valoffset.Length == 18
    requires maxcode != valoffset && huffcode as object !in {maxcode, valoffset}
    requires Legal(bits) && CodesAre(bits, CodesUpTo(bits, 16), huffcode[..])
    modifies maxcode, valoffset
    ensures SearchTable(bits, 17, maxcode[..], valoffset[..]) && maxcode[17] == MaxCode(bits, 17) && valoffset[17] == 0
  {
    ghost var codes := huffcode[..];
    var p: nat := 0;
    for l := 1 to 17
      invariant p == CodesUpTo(bits, l - 1)
      invariant SearchTable(bits, l, maxcode[..], valoffset[..]) && huffcode[..] == codes
    {
      CodesOrder(bits, l, 16);
      if bits[l] != 0 {
        assert HasCode(bits, p, l) && HasCode(bits, p + bits[l] as nat - 1, l);
        valoffset[l] := p - huffcode[p];
        p := p + bits[l] as nat;
        maxcode[l] := huffcode[p - 1];
      } else {
        maxcode[l] := -1;
      }
    }
    valoffset[17] := 0;
    maxcode[17] := 0xFFFFF;
  }

  /** The words of `HUFF_LOOKAHEAD` bits that start with the code of symbol number `p`. */
  ghost predicate StartsWith(bits: seq<nat>, p: nat, l: nat, x: nat) {
    HasCode(bits, p, l) && l <= HUFF_LOOKAHEAD
    && Shl(Code(bits, p, l), HUFF_LOOKAHEAD - l) <= x < Shl(Code(bits, p, l) + 1, HUFF_LOOKAHEAD - l)
  }

  /** The entries for words that start with one of the first `n` codes hold its length and
      symbol; those from `free` on hold `TOO_LONG`. */
  ghost predicate Lookups(bits: seq<nat>, huffval: seq<byte>, lookup: seq<nat>, n: nat, free: nat) {
    && |bits| == 17 && |huffval| == |lookup| == 256
    && (forall p: nat, l: nat, x: nat :: p < n <= 256 && x < 256 && StartsWith(bits, p, l, x) ==>
          lookup[x] == 256 * l + huffval[p] as int)
    && forall x | free <= x < 256 :: lookup[x] == TOO_LONG
  }

  /** The words that start with a code come behind those of all codes before it. */
  lemma WordsInOrder(bits: seq<nat>, p: nat, l: nat, q: nat, m: nat)
    requires Legal(bits) && HasCode(bits, p, l) && HasCode(bits, q, m) && p < q && l <= m <= HUFF_LOOKAHEAD
    ensures Shl(Code(bits, p, l) + 1, HUFF_LOOKAHEAD - l) <= Shl(Code(bits, q, m), HUFF_LOOKAHEAD - m)
  {
    var k := HUFF_LOOKAHEAD;
    if l == m {
      ShlOrder(Code(bits, p, l) + 1, Code(bits, q, m), k - m);
    } else {
      CodeFits(bits, p, l);
      UsedGrows(bits, l, m - 1);
      ShlOrder(Code(bits, p, l) + 1, Used(bits, l), m - l);
      assert Shl(Used(bits, l), m - l) == 2 * Shl(Used(bits, l), m - 1 - l);
      ShlShl(Code(bits, p, l) + 1, m - l, k - m);
      ShlOrder(Shl(Code(bits, p, l) + 1, m - l), Code(bits, q, m), k - m);
    }
  }

  /** The loop over all words that start with the code of symbol number `p`. */
  method FillWords(bits: seq<byte>, huffval: seq<byte>, lookup: array<nat>, p: nat, l: nat, code: nat)
    requires |bits| == 17 && |huffval| == lookup.Length == 256 && Legal(bits)
    requires HasCode(bits, p, l) && l <= HUFF_LOOKAHEAD && code == Code(bits, p, l) && p < 256
    requires Lookups(bits, huffval, lookup[..], p, Shl(code, HUFF_LOOKAHEAD - l))
    modifies lookup
    ensures Lookups(bits, huffval, lookup[..], p + 1, Shl(code + 1, HUFF_LOOKAHEAD - l))
  {
    ghost var was := lookup[..];
    var start := Shl(code, HUFF_LOOKAHEAD - l);
    ShlAdd(code, 1, HUFF_LOOKAHEAD - l);
    WordInTable(bits, p, l);
    var lookbits, ctr := start, Shl(1, HUFF_LOOKAHEAD - l);
    while ctr > 0
      invariant lookbits + ctr == Shl(code + 1, HUFF_LOOKAHEAD - l) && start <= lookbits
      invariant forall x | 0 <= x < 256 ::
                  lookup[x] == if start <= x < lookbits then 256 * l + huffval[p] as int else was[x]
    {
      lookup[lookbits] := 256 * l + huffval[p] as int;
      lookbits := lookbits + 1;
      ctr := ctr - 1;
    }
    LookupsGrow(bits, huffval, was, lookup[..], p, l);
  }

  lemma WordInTable(bits: seq<nat>, p: nat, l: nat)
    requires Legal(bits) && HasCode(bits, p, l) && l <= HUFF_LOOKAHEAD
    ensures Shl(Code(bits, p, l) + 1, HUFF_LOOKAHEAD - l) <= 256
  {
    CodeFits(bits, p, l);
    ShlOrder(Code(bits, p, l) + 1, Shl(1, l), HUFF_LOOKAHEAD - l);
    ShlShl(1, l, HUFF_LOOKAHEAD - l);
    Powers();
  }

  lemma LookupsGrow(bits: seq<nat>, huffval: seq<byte>, was: seq<nat>, lookup: seq<nat>, p: nat, l: nat)
    requires Legal(bits) && HasCode(bits, p, l) && l <= HUFF_LOOKAHEAD && p < 256 && |lookup| == 256
    requires Lookups(bits, huffval, was, p, Shl(Code(bits, p, l), HUFF_LOOKAHEAD - l))
    requires forall x | 0 <= x < 256 ::
               lookup[x] == if StartsWith(bits, p, l, x) then 256 * l + huffval[p] as int else was[x]
    ensures Lookups(bits, huffval, lookup, p + 1, Shl(Code(bits, p, l) + 1, HUFF_LOOKAHEAD - l))
  {
    ShlAdd(Code(bits, p, l), 1, HUFF_LOOKAHEAD - l);
    forall q: nat, m: nat, x: nat | q < p + 1 && x < 256 && StartsWith(bits, q, m, x)
      ensures lookup[x] == 256 * m + huffval[q] as int
    {
      if q == p {
        LengthUnique(bits, p, l, m);
      } else {
        if m > l { CodesOrder(bits, l, m - 1); }
        WordsInOrder(bits, q, m, p, l);
      }
    }
  }

  /** All codes of length `l`. */
  method FillLength(bits: seq<byte>, huffval: seq<byte>, huffcode: array<nat>, lookup: array<nat>, l: nat, p: nat)
    returns (end: nat)
    requires |bits| == 17 && |huffval| == lookup.Length == 256 && huffcode.Length == 257 && huffcode != lookup
    requires Legal(bits) && CodesAre(bits, CodesUpTo(bits, 16), huffcode[..])
    requires 1 <= l <= HUFF_LOOKAHEAD && p == CodesUpTo(bits, l - 1)
    requires Lookups(bits, huffval, lookup[..], p, Shl(2 * Used(bits, l - 1), HUFF_LOOKAHEAD - l))
    modifies lookup
    ensures end == CodesUpTo(bits, l)
    ensures Lookups(bits, huffval, lookup[..], end, Shl(Used(bits, l), HUFF_LOOKAHEAD - l))
  {
    hide Lookups;
    CodesOrder(bits, l, 16);
    end := p;
    for i := 1 to bits[l] as int + 1
      invariant end == p + (i - 1)
      invariant Lookups(bits, huffval, lookup[..], end, Shl(2 * Used(bits, l - 1) + (i - 1), HUFF_LOOKAHEAD - l))
    {
      assert HasCode(bits, end, l);
      FillWords(bits, huffval, lookup, end, l, huffcode[end]);
      end := end + 1;
    }
  }

  lemma NoLookups(bits: seq<nat>, huffval: seq<byte>, lookup: seq<nat>)
    requires |bits| == 17 && |huffval| == |lookup| == 256 && forall x | 0 <= x < 256 :: lookup[x] == TOO_LONG
    ensures Lookups(bits, huffval, lookup, 0, Shl(Used(bits, 0), HUFF_LOOKAHEAD))
  {
  }

  /** The lookahead table. */
  method FillLookup(bits: seq<byte>, huffval: seq<byte>, huffcode: array<nat>, lookup: array<nat>)
    requires |bits| == 17 && |huffval| == lookup.Length == 256 && huffcode.Length == 257 && huffcode != lookup
    requires Legal(bits) && CodesAre(bits, CodesUpTo(bits, 16), huffcode[..])
    modifies lookup
    ensures Lookups(bits, huffval, lookup[..], CodesUpTo(bits, HUFF_LOOKAHEAD), Used(bits, HUFF_LOOKAHEAD))
  {
    hide Lookups;
    ghost var codes := huffcode[..];
    for i := 0 to 256
      invariant forall x | 0 <= x < i :: lookup[x] == TOO_LONG
    {
      lookup[i] := TOO_LONG;
    }
    NoLookups(bits, huffval, lookup[..]);
    var p := 0;
    for l := 1 to HUFF_LOOKAHEAD + 1
      invariant p == CodesUpTo(bits, l - 1) && huffcode[..] == codes
      invariant Lookups(bits, huffval, lookup[..], p, Shl(Used(bits, l - 1), HUFF_LOOKAHEAD - (l - 1)))
    {
      ShlDouble(Used(bits, l - 1), HUFF_LOOKAHEAD - l);
      p := FillLength(bits, huffval, huffcode, lookup, l, p);
    }
  }

  /** `jpeg_make_d_derived_tbl`: accepts exactly the legal counts, for a DC table only with
      symbols up to 15. */
  method MakeDecoder(bits: seq<byte>, huffval: seq<byte>, isDC: bool) returns (table: Option<DecoderTable>)
    requires |bits| == 17 && |huffval| == 256
    ensures table.Some? <==> Legal(bits) && (isDC ==> forall p | 0 <= p < CodesUpTo(bits, 16) :: huffval[p] <= 15)
    ensures table.Some? ==> table.value.Valid() && table.value.bits == bits && table.value.huffval == huffval
  {
    hide SizesAre, CodesAre, SearchTable, Lookups;
    var huffsize, huffcode := new nat[257](_ => 0), new nat[257](_ => 0);
    var maxcode, valoffset, lookup := new int[18](_ => 0), new int[18](_ => 0), new nat[256](_ => 0);
    var ok, count := MakeSizes(bits, huffsize);
    if !ok { return None; }
    ok := MakeCodes(bits, count, huffsize, huffcode);
    if !ok { return None; }
    ghost var codes := huffcode[..];
    FillSearch(bits, huffcode, maxcode, valoffset);
    ghost var largest, offsets := maxcode[..], valoffset[..];
    assert huffcode[..] == codes;
    FillLookup(bits, huffval, huffcode, lookup);
    assert maxcode[..] == largest && valoffset[..] == offsets;
    if isDC {
      for i := 0 to count
        invariant forall p | 0 <= p < i :: huffval[p] <= 15
      {
        if huffval[i] > 15 { return None; }
      }
    }
    return Some(DecoderTable(bits, huffval, maxcode[..], valoffset[..], lookup[..]));
  }

  lemma TableSizes(table: DecoderTable)
    requires table.Valid()
    ensures |table.bits| == 17 && |table.huffval| == 256
  {
  }
}
