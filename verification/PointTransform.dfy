/** The point transform of successive approximation (section G.1.2.1 of ITU-T T.81) and
  the correction of a coefficient by its next bit. */
module PointTransform {
  import opened Shifts

  /** `v >> k`. */
  function Shr(v: nat, k: nat): nat {
    if k == 0 then v else Shr(v, k - 1) / 2
  }

  /** `v >> k` in two's complement. */
  function ShrInt(v: int, k: nat): int {
    if k == 0 then v else ShrInt(v, k - 1) / 2
  }

  function Abs(v: int): nat {
    if v < 0 then -v else v
  }

  /** `(v & (1 << k)) != 0`. */
  predicate BitSet(v: int, k: nat) {
    ShrInt(v, k) % 2 == 1
  }

  function Signed(negative: bool, m: nat): int {
    if negative then 0 - m else m
  }

  /** An AC coefficient without its `al` lowest bits: the magnitude is shifted. */
  function Point(c: int, al: nat): int {
    Signed(c < 0, Shl(Shr(Abs(c), al), al))
  }

  /** What a correction bit does to a coefficient that is not zero; one that has been
      corrected already is left alone. */
  function Correct(c: int, one: bool, al: nat): int {
    if !one || BitSet(c, al) then c
    else if c >= 0 then c + Shl(1, al) else c - Shl(1, al)
  }

  lemma {:induction false} ShrIntMoves(c: int, m: nat, k: nat)
    ensures ShrInt(c + Shl(m, k), k) == ShrInt(c, k) + m
    ensures ShrInt(c - Shl(m, k), k) == ShrInt(c, k) - m
    decreases k
  {
    if k > 0 {
      ShlDouble(m, k - 1);
      ShrIntMoves(c, 2 * m, k - 1);
    }
  }

  lemma {:induction false} ShrIntZero(k: nat)
    ensures ShrInt(0, k) == 0
  {
    if k > 0 { ShrIntZero(k - 1); }
  }

  /** Correcting twice with the same bit is correcting once, whatever the sign, and it
      never makes a coefficient zero. */
  lemma CorrectTwice(c: int, one: bool, al: nat)
    requires c != 0
    ensures Correct(Correct(c, one, al), one, al) == Correct(c, one, al) != 0
  {
    ShlPositive(al);
    ShrIntMoves(c, 1, al);
  }

  /** One bit more: a coefficient known already takes its next bit as a correction, a new
      one is 1 at the place of that bit. */
  lemma PointRefines(c: int, al: nat)
    ensures Shr(Abs(c), al + 1) != 0 ==> Point(c, al + 1) != 0
    ensures Shr(Abs(c), al + 1) != 0 ==>
              Correct(Point(c, al + 1), Shr(Abs(c), al) % 2 == 1, al) == Point(c, al)
    ensures Shr(Abs(c), al + 1) == 0 ==> Point(c, al + 1) == 0
    ensures Shr(Abs(c), al) == 1 ==> Point(c, al) == Signed(c < 0, Shl(1, al))
    ensures Shr(Abs(c), al) == 0 ==> Point(c, al) == 0
    ensures Shr(Abs(c), al + 1) == Shr(Abs(c), al) / 2
  {
    var a := Shr(Abs(c), al);
    var h := a / 2;
    ShlDouble(h, al);
    ShlZero(al);
    ShlZero(al + 1);
    ShrIntZero(al);
    ShrIntMoves(0, 2 * h, al);
    ShlAdd(2 * h, 1, al);
    ShlPositive(al + 1);
    if h > 0 { ShlOrder(0, h, al + 1); }
  }
}
