/** The zigzag order of the coefficients of a block (`jpeg_natural_order`). */
module Zigzag {

  /** The position in natural order of the `k`th coefficient in zigzag order.  The 16
      extra entries keep a decoder inside the block when a run goes past its end. */
  function Natural(k: nat): (p: nat)
    requires k < 80
    ensures p < 64
    ensures k < 64 ==> Inverse(p) == k
  {
    if k < 16 then Natural0(k) else
    if k < 32 then Natural16(k) else
    if k < 48 then Natural32(k) else
    if k < 64 then Natural48(k) else 63
  }

  function Natural0(k: nat): (p: nat)
    requires 0 <= k < 16
    ensures p < 64 && Inverse(p) == k
  {
    match k
    case 0 => 0 case 1 => 1 case 2 => 8 case 3 => 16 case 4 => 9 case 5 => 2 case 6 => 3 case 7 => 10
    case 8 => 17 case 9 => 24 case 10 => 32 case 11 => 25 case 12 => 18 case 13 => 11 case 14 => 4 case _ => 5
  }

  function Natural16(k: nat): (p: nat)
    requires 16 <= k < 32
    ensures p < 64 && Inverse(p) == k
  {
    match k
    case 16 => 12 case 17 => 19 case 18 => 26 case 19 => 33 case 20 => 40 case 21 => 48 case 22 => 41 case 23 => 34
    case 24 => 27 case 25 => 20 case 26 => 13 case 27 => 6 case 28 => 7 case 29 => 14 case 30 => 21 case _ => 28
  }

  function Natural32(k: nat): (p: nat)
    requires 32 <= k < 48
    ensures p < 64 && Inverse(p) == k
  {
    match k
    case 32 => 35 case 33 => 42 case 34 => 49 case 35 => 56 case 36 => 57 case 37 => 50 case 38 => 43 case 39 => 36
    case 40 => 29 case 41 => 22 case 42 => 15 case 43 => 23 case 44 => 30 case 45 => 37 case 46 => 44 case _ => 51
  }

  function Natural48(k: nat): (p: nat)
    requires 48 <= k < 64
    ensures p < 64 && Inverse(p) == k
  {
    match k
    case 48 => 58 case 49 => 59 case 50 => 52 case 51 => 45 case 52 => 38 case 53 => 31 case 54 => 39 case 55 => 46
    case 56 => 53 case 57 => 60 case 58 => 61 case 59 => 54 case 60 => 47 case 61 => 55 case 62 => 62 case _ => 63
  }

  /** The zigzag index of a position in natural order. */
  function Inverse(k: nat): (p: nat)
    requires k < 64
    ensures p < 64
  {
    if k < 16 then Inverse0(k) else
    if k < 32 then Inverse16(k) else
    if k < 48 then Inverse32(k) else
    Inverse48(k)
  }

  function Inverse0(k: nat): (p: nat)
    requires 0 <= k < 16
    ensures p < 64
  {
    match k
    case 0 => 0 case 1 => 1 case 2 => 5 case 3 => 6 case 4 => 14 case 5 => 15 case 6 => 27 case 7 => 28
    case 8 => 2 case 9 => 4 case 10 => 7 case 11 => 13 case 12 => 16 case 13 => 26 case 14 => 29 case _ => 42
  }

  function Inverse16(k: nat): (p: nat)
    requires 16 <= k < 32
    ensures p < 64
  {
    match k
    case 16 => 3 case 17 => 8 case 18 => 12 case 19 => 17 case 20 => 25 case 21 => 30 case 22 => 41 case 23 => 43
    case 24 => 9 case 25 => 11 case 26 => 18 case 27 => 24 case 28 => 31 case 29 => 40 case 30 => 44 case _ => 53
  }

  function Inverse32(k: nat): (p: nat)
    requires 32 <= k < 48
    ensures p < 64
  {
    match k
    case 32 => 10 case 33 => 19 case 34 => 23 case 35 => 32 case 36 => 39 case 37 => 45 case 38 => 52 case 39 => 54
    case 40 => 20 case 41 => 22 case 42 => 33 case 43 => 38 case 44 => 46 case 45 => 51 case 46 => 55 case _ => 60
  }

  function Inverse48(k: nat): (p: nat)
    requires 48 <= k < 64
    ensures p < 64
  {
    match k
    case 48 => 21 case 49 => 34 case 50 => 37 case 51 => 47 case 52 => 50 case 53 => 56 case 54 => 59 case 55 => 61
    case 56 => 35 case 57 => 36 case 58 => 48 case 59 => 49 case 60 => 57 case 61 => 58 case 62 => 62 case _ => 63
  }

  /** The coefficients of a block in zigzag order. */
  function Coefs(block: seq<int>): (z: seq<int>)
    requires |block| == 64
    ensures |z| == 64
  {
    seq(64, k requires 0 <= k < 64 => block[Natural(k)])
  }

  lemma CoefsAt(block: seq<int>, k: nat)
    requires |block| == 64 && k < 64
    ensures Coefs(block)[k] == block[Natural(k)]
  {
  }

  /** No two zigzag indices share a position. */
  lemma NaturalInjective(j: nat, k: nat)
    requires j < 64 && k < 64 && Natural(j) == Natural(k)
    ensures j == k
  {
    assert j == Inverse(Natural(j)) == Inverse(Natural(k)) == k;
  }

  /** Every position is reached, so a block is determined by its zigzag coefficients. */
  lemma CoefsDetermine(a: seq<int>, b: seq<int>)
    requires |a| == |b| == 64 && Coefs(a) == Coefs(b)
    ensures a == b
  {
    forall p | 0 <= p < 64 ensures a[p] == b[p] {
      InverseNatural(p);
      assert Coefs(a)[Inverse(p)] == Coefs(b)[Inverse(p)];
    }
  }

  lemma InverseNatural(p: nat)
    requires p < 64
    ensures Natural(Inverse(p)) == p
  {
  }

  /** Only the DC coefficient comes first. */
  lemma OnlyDcFirst(k: nat)
    requires k < 64
    ensures Natural(k) == 0 <==> k == 0
  {
    assert Inverse(Natural(k)) == k;
    assert Inverse(0) == 0;
  }

  // ------------------------------------------------------------ the way through the block

  /** A place in the block. */
  datatype Place = Place(row: nat, col: nat) {
    predicate At(p: nat) {
      row < 8 && col < 8 && p == 8 * row + col
    }
  }

  /** The next place (figure 5 of ITU-T T.81): up and to the right along an even diagonal, down
      and to the left along an odd one, and along the edge of the block to the next. */
  function NextPlace(p: Place): Place {
    if (p.row + p.col) % 2 == 0 then
      if p.col == 7 then Place(p.row + 1, 7) else if p.row == 0 then Place(0, p.col + 1) else Place(p.row - 1, p.col + 1)
    else
      if p.row == 7 then Place(7, p.col + 1) else if p.col == 0 then Place(p.row + 1, 0) else Place(p.row + 1, p.col - 1)
  }

  /** Where the way is after `k` steps. */
  function PlaceAt(k: nat): Place {
    if k == 0 then Place(0, 0) else NextPlace(PlaceAt(k - 1))
  }

  lemma Walk0(k: nat, p: Place)
    requires k < 8 && p.At(Natural(k))
    ensures NextPlace(p).At(Natural(k + 1))
  {
    match k {
      case 0 => assert p == Place(0, 0); case 1 => assert p == Place(0, 1);
      case 2 => assert p == Place(1, 0); case 3 => assert p == Place(2, 0);
      case 4 => assert p == Place(1, 1); case 5 => assert p == Place(0, 2);
      case 6 => assert p == Place(0, 3); case _ => assert p == Place(1, 2);
    }
  }

  lemma Walk8(k: nat, p: Place)
    requires 8 <= k < 16 && p.At(Natural(k))
    ensures NextPlace(p).At(Natural(k + 1))
  {
    match k {
      case 8 => assert p == Place(2, 1); case 9 => assert p == Place(3, 0);
      case 10 => assert p == Place(4, 0); case 11 => assert p == Place(3, 1);
      case 12 => assert p == Place(2, 2); case 13 => assert p == Place(1, 3);
      case 14 => assert p == Place(0, 4); case _ => assert p == Place(0, 5);
    }
  }

  lemma Walk16(k: nat, p: Place)
    requires 16 <= k < 24 && p.At(Natural(k))
    ensures NextPlace(p).At(Natural(k + 1))
  {
    match k {
      case 16 => assert p == Place(1, 4); case 17 => assert p == Place(2, 3);
      case 18 => assert p == Place(3, 2); case 19 => assert p == Place(4, 1);
      case 20 => assert p == Place(5, 0); case 21 => assert p == Place(6, 0);
      case 22 => assert p == Place(5, 1); case _ => assert p == Place(4, 2);
    }
  }

  lemma Walk24(k: nat, p: Place)
    requires 24 <= k < 32 && p.At(Natural(k))
    ensures NextPlace(p).At(Natural(k + 1))
  {
    match k {
      case 24 => assert p == Place(3, 3); case 25 => assert p == Place(2, 4);
      case 26 => assert p == Place(1, 5); case 27 => assert p == Place(0, 6);
      case 28 => assert p == Place(0, 7); case 29 => assert p == Place(1, 6);
      case 30 => assert p == Place(2, 5); case _ => assert p == Place(3, 4);
    }
  }

  lemma Walk32(k: nat, p: Place)
    requires 32 <= k < 40 && p.At(Natural(k))
    ensures NextPlace(p).At(Natural(k + 1))
  {
    match k {
      case 32 => assert p == Place(4, 3); case 33 => assert p == Place(5, 2);
      case 34 => assert p == Place(6, 1); case 35 => assert p == Place(7, 0);
      case 36 => assert p == Place(7, 1); case 37 => assert p == Place(6, 2);
      case 38 => assert p == Place(5, 3); case _ => assert p == Place(4, 4);
    }
  }

  lemma Walk40(k: nat, p: Place)
    requires 40 <= k < 48 && p.At(Natural(k))
    ensures NextPlace(p).At(Natural(k + 1))
  {
    match k {
      case 40 => assert p == Place(3, 5); case 41 => assert p == Place(2, 6);
      case 42 => assert p == Place(1, 7); case 43 => assert p == Place(2, 7);
      case 44 => assert p == Place(3, 6); case 45 => assert p == Place(4, 5);
      case 46 => assert p == Place(5, 4); case _ => assert p == Place(6, 3);
    }
  }

  lemma Walk48(k: nat, p: Place)
    requires 48 <= k < 56 && p.At(Natural(k))
    ensures NextPlace(p).At(Natural(k + 1))
  {
    match k {
      case 48 => assert p == Place(7, 2); case 49 => assert p == Place(7, 3);
      case 50 => assert p == Place(6, 4); case 51 => assert p == Place(5, 5);
      case 52 => assert p == Place(4, 6); case 53 => assert p == Place(3, 7);
      case 54 => assert p == Place(4, 7); case _ => assert p == Place(5, 6);
    }
  }

  lemma Walk56(k: nat, p: Place)
    requires 56 <= k < 63 && p.At(Natural(k))
    ensures NextPlace(p).At(Natural(k + 1))
  {
    match k {
      case 56 => assert p == Place(6, 5); case 57 => assert p == Place(7, 4);
      case 58 => assert p == Place(7, 5); case 59 => assert p == Place(6, 6);
      case 60 => assert p == Place(5, 7); case 61 => assert p == Place(6, 7);
      case _ => assert p == Place(7, 6);
    }
  }

  lemma Walk(k: nat, p: Place)
    requires k < 63 && p.At(Natural(k))
    ensures NextPlace(p).At(Natural(k + 1))
  {
    hide Natural, NextPlace;
    if k < 8 { Walk0(k, p); } else if k < 16 { Walk8(k, p); } else if k < 24 { Walk16(k, p); } else if k < 32 { Walk24(k, p); }
    else if k < 40 { Walk32(k, p); } else if k < 48 { Walk40(k, p); } else if k < 56 { Walk48(k, p); } else { Walk56(k, p); }
  }

  /** The zigzag order is that way, and behind its end stands its last place. */
  lemma {:induction false} ZigzagWalk(k: nat)
    requires k < 80
    ensures PlaceAt(if k < 64 then k else 63).At(Natural(k))
  {
    Ends();
    hide Natural, NextPlace;
    if 0 < k < 64 {
      ZigzagWalk(k - 1);
      Walk(k - 1, PlaceAt(k - 1));
    } else if k >= 64 {
      ZigzagWalk(63);
    }
  }

  lemma Ends()
    ensures Natural(0) == 0 && forall k | 63 <= k < 80 :: Natural(k) == 63
  {
  }

  /** Along it the diagonals come one after the other. */
  lemma Diagonals(k: nat)
    requires k < 63
    ensures var p, q := PlaceAt(k), PlaceAt(k + 1);
            && p.At(Natural(k)) && q.At(Natural(k + 1)) && p.row + p.col <= q.row + q.col <= p.row + p.col + 1
            && (q.row + q.col == p.row + p.col ==> if (p.row + p.col) % 2 == 1 then q.row == p.row + 1 else p.row == q.row + 1)
  {
    hide Natural, Place.At;
    ZigzagWalk(k);
    ZigzagWalk(k + 1);
    InBlock(PlaceAt(k), Natural(k));
  }

  lemma InBlock(p: Place, n: nat)
    requires p.At(n)
    ensures p.row < 8 && p.col < 8
  {
  }
}
