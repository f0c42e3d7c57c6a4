/** The code words that the counts of a Huffman table stand for (section C.2 of ITU-T
  T.81): all words of a length are consecutive, and each length starts where the one
  before it stops. */
module CanonicalCodes {
  import opened Shifts
  import opened CodeLengths
  import opened BitStrings

  /** How many symbols have a code of at most `l` bits. */
  function CodesUpTo(bits: seq<nat>, l: nat): nat
    requires l < |bits|
  {
    if l == 0 then 0 else CodesUpTo(bits, l - 1) + bits[l]
  }

  /** There are at most 256 codes, and room for them even when no code of any length may
      consist of ones only. */
  ghost predicate Legal(bits: seq<nat>) {
    |bits| == 17 && CodesUpTo(bits, 16) <= 256 && Used(bits, 16) < Shl(1, 16)
  }

  /** Symbol number `p` has a code of `l` bits. */
  predicate HasCode(bits: seq<nat>, p: nat, l: nat) {
    |bits| == 17 && 1 <= l <= 16 && CodesUpTo(bits, l - 1) <= p < CodesUpTo(bits, l)
  }

  /** The code of symbol number `p`. */
  function Code(bits: seq<nat>, p: nat, l: nat): nat
    requires HasCode(bits, p, l)
  {
    2 * Used(bits, l - 1) + (p - CodesUpTo(bits, l - 1))
  }

  ghost function Word(bits: seq<nat>, p: nat, l: nat): seq<bool>
    requires HasCode(bits, p, l)
  {
    BitsOf(Code(bits, p, l), l)
  }

  lemma {:induction false} CodesOrder(bits: seq<nat>, j: nat, l: nat)
    requires j <= l < |bits|
    ensures CodesUpTo(bits, j) <= CodesUpTo(bits, l)
    decreases l
  {
    if j < l { CodesOrder(bits, j, l - 1); }
  }

  /** The words of up to `l` bits take up at most as much of the code space as `Used`. */
  lemma {:induction false} UsedGrows(bits: seq<nat>, j: nat, l: nat)
    requires j <= l < |bits|
    ensures Shl(Used(bits, j), l - j) <= Used(bits, l)
    decreases l
  {
    if j < l { UsedGrows(bits, j, l - 1); }
  }

  /** Codes are below the bound of their length and leave the word of ones free. */
  lemma CodeFits(bits: seq<nat>, p: nat, l: nat)
    requires Legal(bits) && HasCode(bits, p, l)
    ensures 2 * Used(bits, l - 1) <= Code(bits, p, l) < Used(bits, l)
    ensures Code(bits, p, l) + 1 < Shl(1, l) && bits[l] > 0
  {
    UsedRoom(bits, l, 16);
  }

  /** A shorter code is never the beginning of a longer one. */
  lemma ShorterIsNoPrefix(bits: seq<nat>, p: nat, l: nat, q: nat, m: nat, high: nat, low: nat)
    requires Legal(bits) && HasCode(bits, p, l) && HasCode(bits, q, m) && l < m
    requires Code(bits, q, m) == Shl(high, m - l) + low && low < Shl(1, m - l)
    ensures Code(bits, p, l) < high
  {
    CodeFits(bits, p, l);
    CodeFits(bits, q, m);
    UsedGrows(bits, l, m - 1);
    assert Shl(Used(bits, l), m - l) == 2 * Shl(Used(bits, l), m - 1 - l);
    ShlAdd(high, 1, m - l);
    ShlOrder(high + 1, Used(bits, l), m - l);
  }

  lemma LengthUnique(bits: seq<nat>, p: nat, l: nat, m: nat)
    requires HasCode(bits, p, l) && HasCode(bits, p, m)
    ensures l == m
  {
    if l < m { CodesOrder(bits, l, m - 1); }
    if m < l { CodesOrder(bits, m, l - 1); }
  }

  lemma {:induction false} LengthExists(bits: seq<nat>, p: nat, n: nat) returns (l: nat)
    requires |bits| == 17 && n <= 16 && p < CodesUpTo(bits, n)
    ensures l <= n && HasCode(bits, p, l)
  {
    if CodesUpTo(bits, n - 1) <= p { l := n; } else { l := LengthExists(bits, p, n - 1); }
  }

  /** No code word is the beginning of another one. */
  lemma PrefixFree(bits: seq<nat>, p: nat, l: nat, q: nat, m: nat)
    requires Legal(bits) && HasCode(bits, p, l) && HasCode(bits, q, m)
    requires Word(bits, p, l) <= Word(bits, q, m)
    ensures p == q
  {
    hide Used, NumberAt, CodesUpTo, Shl, BitsOf;
    CodeFits(bits, p, l);
    CodeFits(bits, q, m);
    var w, v := Word(bits, p, l), Word(bits, q, m);
    NumberOfBits(Code(bits, p, l), l);
    NumberOfBits(Code(bits, q, m), m);
    NumberSame(w, v, 0, 0, l);
    if l < m {
      NumberSplit(v, 0, l, m - l);
      NumberBound(v, l, m - l);
      ShorterIsNoPrefix(bits, p, l, q, m, NumberAt(v, 0, l), NumberAt(v, l, m - l));
      assert false;
    }
  }

  /** No code word consists of ones only. */
  lemma NotAllOnes(bits: seq<nat>, p: nat, l: nat)
    requires Legal(bits) && HasCode(bits, p, l)
    ensures exists i :: 0 <= i < l && !Word(bits, p, l)[i]
  {
    CodeFits(bits, p, l);
    NumberOfBits(Code(bits, p, l), l);
    if forall i | 0 <= i < l :: Word(bits, p, l)[i] {
      NumberOnes(Word(bits, p, l), l);
      assert false;
    }
  }

  // ------------------------------------------------------------------ decoding

  /** The largest code of length `l`, or -1; beyond 16 bits the sentinel of the decoder. */
  function MaxCode(bits: seq<nat>, l: nat): int
    requires |bits| == 17 && 1 <= l <= 17
  {
    if l == 17 then 0xFFFFF else if bits[l] > 0 then Used(bits, l) - 1 else -1
  }

  /** Reads the bits at `at` one by one until the number read is a code (figure F.16);
      gives the length read. */
  function ReadLength(bits: seq<nat>, s: seq<bool>, at: nat, l: nat): (n: nat)
    requires |bits| == 17 && 1 <= l <= 17
    ensures l <= n <= 17
    decreases 17 - l
  {
    if l < 17 && NumberAt(s, at, l) > MaxCode(bits, l) then ReadLength(bits, s, at, l + 1) else l
  }

  /** What decoding at `at` gives: a symbol and the position behind it.  When no code
      matches, 17 bits are dropped and 0 stands for the symbol. */
  function DecodeAt(bits: seq<nat>, huffval: seq<byte>, s: seq<bool>, at: nat): (r: (byte, nat))
    requires |bits| == 17 && |huffval| == 256
  {
    var l := ReadLength(bits, s, at, 1);
    if l > 16 then (0, at + 17)
    else
      var index := NumberAt(s, at, l) + CodesUpTo(bits, l - 1) - 2 * Used(bits, l - 1);
      (if 0 <= index < 256 then huffval[index] else 0, at + l)
  }

  /** Decoding always takes at least one bit. */
  lemma DecodeMoves(bits: seq<nat>, huffval: seq<byte>, s: seq<bool>, at: nat)
    requires |bits| == 17 && |huffval| == 256
    ensures at < DecodeAt(bits, huffval, s, at).1
  {
    hide ReadLength;
  }

  /** The code word of symbol number `p` stands at `at`. */
  ghost predicate Spelled(bits: seq<nat>, s: seq<bool>, at: nat, p: nat, l: nat) {
    HasCode(bits, p, l) && NumberAt(s, at, l) == Code(bits, p, l)
  }

  /** As long as no code has matched, the number read is above all codes so far. */
  lemma StaysAbove(bits: seq<nat>, s: seq<bool>, at: nat, l: nat)
    requires |bits| == 17 && 1 <= l <= 16
    requires NumberAt(s, at, l - 1) >= Used(bits, l - 1) && NumberAt(s, at, l) > MaxCode(bits, l)
    ensures NumberAt(s, at, l) >= Used(bits, l)
  {
  }

  /** The loop stops at the first length at which the number read is below `Used`. */
  lemma {:induction false} ReadLengthIs(bits: seq<nat>, s: seq<bool>, at: nat, l: nat)
    requires |bits| == 17 && 1 <= l <= 17
    requires NumberAt(s, at, l - 1) >= Used(bits, l - 1)
    ensures var n := ReadLength(bits, s, at, l);
            && NumberAt(s, at, n - 1) >= Used(bits, n - 1)
            && (n <= 16 ==> NumberAt(s, at, n) < Used(bits, n))
    decreases 17 - l
  {
    hide Used, NumberAt;
    if l < 17 && NumberAt(s, at, l) > MaxCode(bits, l) {
      StaysAbove(bits, s, at, l);
      ReadLengthIs(bits, s, at, l + 1);
    }
  }

  /** If a code is spelled out, the loop stops there. */
  lemma {:induction false} StopsAtCode(bits: seq<nat>, s: seq<bool>, at: nat, p: nat, m: nat, l: nat)
    requires Legal(bits) && Spelled(bits, s, at, p, m) && 1 <= l <= m
    ensures ReadLength(bits, s, at, l) == m
    decreases m - l
  {
    hide Used, NumberAt, CodesUpTo, Shl;
    CodeFits(bits, p, m);
    if l < m {
      NumberSplit(s, at, l, m - l);
      NumberBound(s, at + l, m - l);
      if bits[l] > 0 {
        var last := LastCode(bits, l);
        ShorterIsNoPrefix(bits, last, l, p, m, NumberAt(s, at, l), NumberAt(s, at + l, m - l));
      }
      StopsAtCode(bits, s, at, p, m, l + 1);
    }
  }

  lemma LastCode(bits: seq<nat>, l: nat) returns (last: nat)
    requires |bits| == 17 && 1 <= l <= 16 && bits[l] > 0
    ensures HasCode(bits, last, l) && Code(bits, last, l) == Used(bits, l) - 1
  {
    last := CodesUpTo(bits, l) - 1;
  }

  /** Decoding inverts the code: on a code word followed by anything it gives the symbol
      and consumes the word. */
  lemma DecodesSymbol(bits: seq<nat>, huffval: seq<byte>, s: seq<bool>, at: nat, p: nat, l: nat)
    requires Legal(bits) && |huffval| == 256 && Spelled(bits, s, at, p, l)
    ensures p < 256 && DecodeAt(bits, huffval, s, at) == (huffval[p], at + l)
  {
    StopsAtCode(bits, s, at, p, l, 1);
    CodesOrder(bits, l, 16);
  }

  /** Conversely, whatever is decoded is a code word, unless all 17 bits are dropped
      because none is there. */
  lemma DecodedIsSpelled(bits: seq<nat>, huffval: seq<byte>, s: seq<bool>, at: nat)
    requires Legal(bits) && |huffval| == 256
    ensures DecodeAt(bits, huffval, s, at).1 == at + 17 <==>
            forall p: nat, l: nat :: !Spelled(bits, s, at, p, l)
    ensures DecodeAt(bits, huffval, s, at).1 != at + 17 ==>
            exists p: nat, l: nat :: Spelled(bits, s, at, p, l) && p < 256
                                     && DecodeAt(bits, huffval, s, at) == (huffval[p], at + l)
  {
    var n := ReadLength(bits, s, at, 1);
    ReadLengthIs(bits, s, at, 1);
    if n <= 16 {
      var first := 2 * NumberAt(s, at, n - 1);
      var p := NumberAt(s, at, n) + CodesUpTo(bits, n - 1) - 2 * Used(bits, n - 1);
      assert Spelled(bits, s, at, p, n);
      DecodesSymbol(bits, huffval, s, at, p, n);
    } else {
      forall p: nat, l: nat ensures !Spelled(bits, s, at, p, l) {
        if Spelled(bits, s, at, p, l) { StopsAtCode(bits, s, at, p, l, 1); }
      }
    }
  }

  // ----------------------------------------------------------------- lookahead

  /** A number below `Used` starts with a code. */
  lemma {:induction false} ShortCode(bits: seq<nat>, s: seq<bool>, at: nat, n: nat) returns (p: nat, l: nat)
    requires |bits| == 17 && n <= 16 && NumberAt(s, at, n) < Used(bits, n)
    ensures l <= n && Spelled(bits, s, at, p, l)
    decreases n
  {
    if NumberAt(s, at, n) >= 2 * Used(bits, n - 1) {
      p, l := NumberAt(s, at, n) - 2 * Used(bits, n - 1) + CodesUpTo(bits, n - 1), n;
    } else {
      p, l := ShortCode(bits, s, at, n - 1);
    }
  }

  /** A number that is not below `Used` does not, so decoding may go on behind it. */
  lemma {:induction false} NoShortCode(bits: seq<nat>, s: seq<bool>, at: nat, n: nat, l: nat)
    requires |bits| == 17 && 1 <= l <= n + 1 <= 17 && NumberAt(s, at, n) >= Used(bits, n)
    ensures ReadLength(bits, s, at, l) == ReadLength(bits, s, at, n + 1)
    decreases n + 1 - l
  {
    if l <= n {
      AboveBefore(bits, s, at, l, n);
      NoShortCode(bits, s, at, n, l + 1);
    }
  }

  lemma {:induction false} AboveBefore(bits: seq<nat>, s: seq<bool>, at: nat, l: nat, n: nat)
    requires |bits| == 17 && l <= n <= 16 && NumberAt(s, at, n) >= Used(bits, n)
    ensures NumberAt(s, at, l) >= Used(bits, l)
    decreases n
  {
    if l < n { AboveBefore(bits, s, at, l, n - 1); }
  }


  // ------------------------------------------------------- the order of the codes

  /** The first code consists of zeros (figure C.2). */
  lemma FirstCode(bits: seq<nat>, l: nat)
    requires HasCode(bits, 0, l)
    ensures Code(bits, 0, l) == 0
  {
    NoneUsed(bits, l - 1);
  }

  lemma {:induction false} NoneUsed(bits: seq<nat>, l: nat)
    requires l < |bits| && CodesUpTo(bits, l) == 0
    ensures Used(bits, l) == 0
  {
    if l > 0 { NoneUsed(bits, l - 1); }
  }

  /** Each code is the one before it plus 1, with zeros behind it if it is longer; so the counts
      leave no choice. */
  lemma NextCode(bits: seq<nat>, p: nat, l: nat, m: nat)
    requires HasCode(bits, p, l) && HasCode(bits, p + 1, m)
    ensures l <= m && Code(bits, p + 1, m) == Shl(Code(bits, p, l) + 1, m - l)
  {
    if m < l { CodesOrder(bits, m, l - 1); }
    if l < m {
      CodesOrder(bits, l, m - 1);
      UsedStays(bits, l, m - 1);
    }
  }

  lemma {:induction false} UsedStays(bits: seq<nat>, j: nat, l: nat)
    requires j <= l < |bits| && CodesUpTo(bits, j) == CodesUpTo(bits, l)
    ensures Used(bits, l) == Shl(Used(bits, j), l - j)
    decreases l
  {
    if j < l {
      CodesOrder(bits, j, l - 1);
      UsedStays(bits, j, l - 1);
    }
  }
}
