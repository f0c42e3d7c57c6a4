/** `quantize` of jcdctmgr.c on whole blocks. */
module Quantize {
  import opened Shifts
  import opened PointTransform
  import opened Reciprocal
  import opened ReciprocalEdge

  /** The divisor table holds entries made by `compute_reciprocal`. */
  ghost predicate Prepared(w: nat, dtbl: seq<int>, d: seq<nat>, n: nat) {
    && Width(w) && |dtbl| == 256 && |d| == 64 && n <= 64
    && forall i | 0 <= i < n :: 1 <= d[i] < 0x10000 && Divides(w, d[i], EntryAt(dtbl, i, w))
                                && MadeFor(w, d[i], EntryAt(dtbl, i, w))
  }

  ghost predicate MadeFor(w: nat, d: nat, e: Entry)
    requires d > 0
  {
    if d == 1 then e == Entry(1, 0, 0 - w)
    else exists b: nat :: Shl(1, b) <= d < Shl(1, b + 1) && e == EntryFor(w, d, b)
  }

  /** `start_pass_fdctmgr`: the entries of a quantisation table. */
  method Prepare(w: nat, quantval: seq<nat>, dtbl: array<int>)
    requires Width(w) && |quantval| == 64 && dtbl.Length == 256
    requires forall i | 0 <= i < 64 :: 1 <= quantval[i] < 0x10000
    modifies dtbl
    ensures Prepared(w, dtbl[..], quantval, 64)
  {
    hide Divides, EntryFor, Shl, Unsigned;
    for i := 0 to 64
      invariant Prepared(w, dtbl[..], quantval, i)
    {
      ghost var was := dtbl[..];
      var simd := ComputeReciprocal(w, quantval[i], dtbl, i);
      assert MadeFor(w, quantval[i], EntryAt(dtbl[..], i, w));
      forall j | 0 <= j < i ensures EntryAt(dtbl[..], j, w) == EntryAt(was, j, w) {}
    }
  }

  /** The divisor for which the entry was made decides whether -32768 is divided right. */
  predicate LuckyDivisor(d: nat) {
    exists b | 0 <= b <= 15 :: Shl(1, b) <= d < Shl(1, b + 1) && Lucky(d, b)
  }

  /** Every coefficient is the rounded quotient, cut to 16 bits, except that with 16-bit
      elements -32768 is divided right for the lucky divisors only. */
  ghost predicate Correct(w: nat, t: int, d: nat, c: int)
    requires d > 0
  {
    c == Signed16or32(Rounded(t, d), 16) <==> (w == 16 && t == Smallest(16) ==> LuckyDivisor(d))
  }

  method QuantizeBlock(w: nat, coefs: array<int>, divisors: array<int>, workspace: array<int>, ghost d: seq<nat>)
    requires coefs.Length == workspace.Length == 64 && divisors.Length == 256
    requires coefs != divisors && coefs != workspace
    requires Prepared(w, divisors[..], d, 64)
    requires forall i | 0 <= i < 64 :: Smallest(w) <= workspace[i] < 0 - Smallest(w)
    modifies coefs
    ensures forall i | 0 <= i < 64 :: d[i] > 0 && Correct(w, workspace[i], d[i], coefs[i])
  {
    hide Divides, EntryFor, Shl, Unsigned, MadeFor, Quantized, Descale, Signed16or32, Correct;
    ghost var table, values := divisors[..], workspace[..];
    for i := 0 to 64
      invariant divisors[..] == table && workspace[..] == values
      invariant forall j | 0 <= j < i :: d[j] > 0 && Correct(w, values[j], d[j], coefs[j])
    {
      var e := EntryAt(divisors[..], i, w);
      coefs[i] := QuantizeOne(w, e, workspace[i], d[i]);
    }
  }

  /** One coefficient: the magnitude is divided, and the sign put back. */
  method QuantizeOne(w: nat, e: Entry, t: int, ghost d: nat) returns (c: int)
    requires Width(w) && 1 <= d < 0x10000 && Divides(w, d, e) && MadeFor(w, d, e)
    requires Smallest(w) <= t < 0 - Smallest(w)
    ensures c == Quantized(w, e, t) && Correct(w, t, d, c)
  {
    var temp := t;
    if temp < 0 {
      temp := Signed16or32(-temp, w);
      temp := Descale(w, e, temp);
      temp := Signed16or32(-temp, w);
    } else {
      temp := Descale(w, e, temp);
    }
    c := Signed16or32(temp, 16);
    QuantizedCorrect(w, e, t, d);
  }

  lemma QuantizedCorrect(w: nat, e: Entry, t: int, d: nat)
    requires Width(w) && 1 <= d < 0x10000 && Divides(w, d, e) && MadeFor(w, d, e)
    requires Smallest(w) <= t < 0 - Smallest(w)
    ensures e.shift + w >= 0 && Correct(w, t, d, Quantized(w, e, t))
  {
    hide Quantized, Signed16or32, Shl, Times, Below, Lucky, EntryFor, Rounded;
    if t != Smallest(w) {
      QuantizedExact(w, d, e, t);
    } else if w == 32 {
      SmallestExact(d, e);
    } else if d == 1 {
      UnitExact();
      UnitLucky();
    } else {
      var b: nat :| Shl(1, b) <= d < Shl(1, b + 1) && e == EntryFor(w, d, b);
      LessThanWidth(d, b);
      EdgeExact(d, b);
      OnlyOneBit(d, b);
    }
  }

  lemma UnitLucky()
    ensures LuckyDivisor(1)
  {
    assert Shl(1, 0) <= 1 < Shl(1, 1) && Lucky(1, 0);
  }

  /** The highest bit is unique. */
  lemma OnlyOneBit(d: nat, b: nat)
    requires b <= 15 && Shl(1, b) <= d < Shl(1, b + 1)
    ensures LuckyDivisor(d) <==> Lucky(d, b)
  {
    hide Shl, Lucky;
    forall c | 0 <= c <= 15 && Shl(1, c) <= d < Shl(1, c + 1) ensures c == b {
      if c < b { Steps(c + 1, b); }
      if b < c { Steps(b + 1, c); }
    }
  }

  lemma Steps(a: nat, b: nat)
    requires a <= b
    ensures Shl(1, a) <= Shl(1, b)
  {
    if a < b { ShlExponent(a, b); }
  }
}
