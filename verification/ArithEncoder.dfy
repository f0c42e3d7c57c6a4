/** The arithmetic encoder of jcarith.c: registers, carry handling, byte output with
  "Pacman" termination.  Its contract is stated on the exact coding interval. */
module ArithEncoder {
  import opened Shifts
  import opened Aritab
  import opened QmInterval
  import opened JpegLimits

  /** No trailing zero bytes: the decoder supplies them. */
  ghost predicate Shortest(data: seq<byte>) {
    data != [] ==> data[|data| - 1] != 0
  }

  /** The code value with the most trailing zero bits in the interval (section D.1.8):
      a multiple of 0x10000 when there is one, else an odd multiple of 0x8000. */
  function FinalCode(base: nat, range: nat): nat
    requires 0x8000 <= range
  {
    var top := (base + range - 1) / 0x10000 * 0x10000;
    if top < base then top + 0x8000 else top
  }

  lemma FinalCodeInside(base: nat, range: nat)
    requires 0x8000 <= range
    ensures base <= FinalCode(base, range) < base + range
    ensures FinalCode(base, range) == 0x800 * (FinalCode(base, range) / 0x800)
  {
    var q := (base + range - 1) / 0x10000;
    assert q * 0x10000 <= base + range - 1 < q * 0x10000 + 0x10000;
    assert q * 0x10000 == 0x800 * (q * 0x20) && q * 0x10000 + 0x8000 == 0x800 * (q * 0x20 + 0x10);
  }

  /** It has 15 zero bits at the end, and 16 if any number in the interval has. */
  lemma FinalCodeBest(base: nat, range: nat, w: nat) returns (q: nat)
    requires 0x8000 <= range
    ensures FinalCode(base, range) == 0x8000 * q
    ensures base <= 0x10000 * w < base + range ==> q % 2 == 0
  {
    var u := (base + range - 1) / 0x10000;
    assert FinalCode(base, range) == if u * 0x10000 < base then u * 0x10000 + 0x8000 else u * 0x10000;
    assert base <= 0x10000 * w < base + range ==> w <= u;
    q := if u * 0x10000 < base then 2 * u + 1 else 2 * u;
  }

  /** `data` is the shortest byte string that denotes the final code of `iv`; the
      first `k` bytes reach the precision of the interval. */
  ghost predicate EndsAt(data: seq<byte>, iv: Interval, k: nat)
    requires Normal(iv)
  {
    && Shortest(data)
    && |data| <= k && 8 * k >= iv.scale
    && Prefix(data, k) == Shl(FinalCode(iv.base, iv.range), 8 * k - iv.scale)
  }

  /** A terminated segment denotes a value inside its final interval. */
  lemma TerminatedInside(data: seq<byte>, iv: Interval, k: nat)
    requires Normal(iv) && EndsAt(data, iv, k)
    ensures Inside(iv, data, k)
  {
    FinalCodeInside(iv.base, iv.range);
    ShlOrder(iv.base, FinalCode(iv.base, iv.range), 8 * k - iv.scale);
    ShlOrder(FinalCode(iv.base, iv.range), iv.base + iv.range, 8 * k - iv.scale);
  }

  /** The registers never outgrow 28 bits: after the first byte the bound on `c + a`
      is what the three spacer bits buy. */
  ghost predicate HasRoom(digits: nat, top: nat, ct: nat) {
    if digits == 0 then ct <= 11 && top <= Shl(1, 27 - ct)
    else ct <= 8 && top <= 9 * Shl(1, 24 - ct)
  }

  /** A carry never arrives before a byte below 0xFF is held: it would take the
      interval out of the unit interval. */
  lemma NoCarryOverOnes(sc: nat, c: nat, ct: nat)
    requires ct <= 11 && InUnit(Registers(Fill(255, sc), c, 1, ct))
    ensures Shl(c, ct) < 0x8000000
  {
    var v := Value(Fill(255, sc));
    assert c < Shl(1, 27 - ct) by {
      AllOnes(sc);
      ShlShl(1, 8 * sc, 27 - ct);
      ShlAdd(v, 1, 27 - ct);
      assert 8 * sc + (27 - ct) == 8 * |Fill(255, sc)| + 27 - ct;
    }
    ShlOrder(c, Shl(1, 27 - ct), ct);
    ShlShl(1, 27 - ct, ct);
    ShlBy27(1);
  }

  /** What the shifted register looks like before the last bytes go out. */
  lemma FinishedRegister(digits: seq<byte>, c: nat, a: nat, ct: nat, code: nat)
    requires HasRoom(|digits|, c + a, ct) && InUnit(Registers(digits, c, a, ct))
    requires c <= code < c + a
    ensures Shl(code, ct) < 0x10000000
    ensures Shl(code, ct) >= 0x8000000 ==> digits != Fill(255, |digits|)
  {
    if digits == Fill(255, |digits|) {
      NoCarryOverOnes(|digits|, code, ct);
    } else {
      assert |digits| > 0;
      SpacerBits(code, ct);
    }
  }

  lemma SpacerBits(code: nat, ct: nat)
    requires ct <= 8 && code < 9 * Shl(1, 24 - ct)
    ensures Shl(code, ct) < 0x9000000
  {
    Powers();
    ShlOrder(code, 9 * Shl(1, 24 - ct), ct);
    ShlNine(Shl(1, 24 - ct), ct);
    ShlShl(1, 24 - ct, ct);
  }

  /** Only the low bits of the base matter for the choice of the final code. */
  lemma FinalCodeInRegister(digits: seq<byte>, c: nat, a: nat, ct: nat)
    requires ct <= 11 && 0x8000 <= a
    ensures FinalCode(Shl(Value(digits), 27 - ct) + c, a) == Shl(Value(digits), 27 - ct) + FinalCode(c, a)
  {
    var high := Shl(Value(digits), 11 - ct);
    ShlBy8(high, 0);
    ShlBy8(high, 8);
    ShlShl(Value(digits), 11 - ct, 16);
    assert Shl(Value(digits), 27 - ct) == 0x10000 * high;
    assert (0x10000 * high + c + a - 1) / 0x10000 == high + (a - 1 + c) / 0x10000;
  }

  /** The two bytes left in the register complete the final code. */
  lemma FinalValue(digits: seq<byte>, settled: seq<byte>, code: nat, ct: nat)
    requires ct <= 11 && |settled| == |digits| && code == 0x800 * (code / 0x800)
    requires Value(settled) == Value(digits) + Shl(code, ct) / 0x8000000
    ensures var c := Shl(code, ct);
            Prefix(settled + [c / 0x80000 % 0x100, c / 0x800 % 0x100], |settled| + 4)
            == Shl(Shl(Value(digits), 27 - ct) + code, ct + 5)
  {
    var c, v := Shl(code, ct), Value(digits);
    ShlMultiple(code / 0x800, ct);
    FinalTarget(v, code, ct);
    FinalBytes(settled, c / 0x80000 % 0x100, c / 0x800 % 0x100);
    SplitRegister(Shl(code / 0x800, ct));
  }

  /** The carry, the two output bytes and eleven zero bits. */
  lemma SplitRegister(low: nat)
    ensures var c := 0x800 * low;
            c == c / 0x8000000 * 0x8000000 + c / 0x80000 % 0x100 * 0x80000 + c / 0x800 % 0x100 * 0x800
  {
    var c, high := 0x800 * low, low / 0x100;
    assert c / 0x800 == low;
    assert c / 0x80000 == high;
    assert c / 0x8000000 == high / 0x100;
  }

  lemma TopTwoBytes(c: nat)
    ensures c / 0x800 % 0x10000 == 0x100 * (c / 0x80000 % 0x100) + c / 0x800 % 0x100
  {
    var low := c / 0x800;
    assert c / 0x80000 == low / 0x100;
    assert low % 0x10000 == 0x100 * (low / 0x100 % 0x100) + low % 0x100;
  }

  lemma FinalTarget(v: nat, code: nat, ct: nat)
    requires ct <= 27
    ensures Shl(Shl(v, 27 - ct) + code, ct + 5) == 32 * (0x8000000 * v + Shl(code, ct))
  {
    ShlBy27(v);
    ShlAdd(Shl(v, 27 - ct), code, ct + 5);
    ShlShl(v, 27 - ct, ct + 5);
    ShlShl(v, 27, 5);
    ShlShl(code, ct, 5);
    FiveShifts(Shl(v, 27));
    FiveShifts(Shl(code, ct));
  }

  lemma FinalBytes(settled: seq<byte>, first: byte, second: byte)
    ensures Prefix(settled + [first, second], |settled| + 4)
         == 0x10000 * (0x100 * (0x100 * Value(settled) + first) + second)
  {
    ValueSnoc(settled, first);
    ValueSnoc(settled + [first], second);
    assert settled + [first, second] == settled + [first] + [second];
    TwoZeros(settled + [first, second]);
  }

  lemma FiveShifts(v: nat)
    ensures Shl(v, 5) == 32 * v
  {
    ShlBy2(v, 0);
    ShlBy2(v, 2);
    assert Shl(v, 5) == 2 * Shl(v, 4);
  }

  lemma TwoZeros(d: seq<byte>)
    ensures Prefix(d, |d| + 2) == 0x10000 * Value(d)
  {
    assert Prefix(d, |d| + 1) == 0x100 * Value(d);
  }

  lemma DropZeros(d: seq<byte>, e: seq<byte>)
    requires |d| <= |e| && d == e[..|d|] && forall i | |d| <= i < |e| :: e[i] == 0
    ensures forall k: nat :: Prefix(d, k) == Prefix(e, k)
  {
    forall k: nat ensures Prefix(d, k) == Prefix(e, k) {
      PrefixSame(d, e, k);
    }
  }

  /** Bytes sent, pending zeros, the byte that may still change, and stacked bytes. */
  ghost function Held(data: seq<byte>, zc: nat, buffer: int, sc: nat): seq<byte>
    requires -1 <= buffer <= 255
  {
    data + Fill(0, zc) + (if buffer >= 0 then [buffer] else []) + Fill(255, sc)
  }

  ghost function Registers(digits: seq<byte>, c: nat, a: nat, ct: nat): Interval
    requires ct <= 11
  {
    Interval(Shl(Value(digits), 27 - ct) + c, a, 8 * |digits| + 27 - ct)
  }

  class Encoder {
    var c: nat         // low part of the base of the coding interval
    var a: nat         // size of the coding interval
    var sc: nat        // stacked 0xFF bytes that a carry may still change
    var zc: nat        // pending zero bytes that may still be discarded
    var ct: nat        // shifts left until the next byte is complete
    var buffer: int    // latest byte that is not 0xFF, or -1
    var stats: Stats
    var output: seq<byte>

    ghost var earlier: seq<byte>  // output of the segments before this one
    ghost var data: seq<byte>     // bytes of this segment sent so far, before stuffing

    /** All bytes this segment has produced, sent or still held back. */
    ghost function Digits(): seq<byte>
      requires -1 <= buffer <= 255
      reads this`data, this`zc, this`buffer, this`sc
    {
      Held(data, zc, buffer, sc)
    }

    /** The interval the registers and the bytes stand for. */
    ghost function Current(): Interval
      requires -1 <= buffer <= 255 && ct <= 11
      reads this`data, this`zc, this`buffer, this`sc, this`c, this`a, this`ct
    {
      Registers(Digits(), c, a, ct)
    }

    ghost predicate Matches()
      reads this`output, this`earlier, this`data
    {
      output == earlier + Stuff(data)
    }

    ghost predicate Sent()
      reads this`output, this`earlier, this`data
    {
      Matches() && Shortest(data)
    }

    /** Registers and bytes fit together, whether or not a byte is due (`ct == 0`).
        The bound on `c + a` after the first byte is what the three spacer bits buy. */
    ghost predicate Coherent()
      reads this`output, this`earlier, this`data, this`zc, this`buffer, this`sc, this`c, this`a, this`ct
    {
      && Sent()
      && -1 <= buffer <= 254
      && (buffer == -1 ==> zc == 0 && data == [])
      && 1 <= a <= 0x10000
      && HasRoom(|Digits()|, c + a, ct)
      && InUnit(Current())
    }

    /** Between decisions. */
    ghost predicate Valid()
      reads this`output, this`earlier, this`data, this`zc, this`buffer, this`sc, this`c, this`a, this`ct
    {
      Coherent() && Normal(Current()) && ct > 0
    }

    ghost function State(): (s: Coding)
      requires Valid()
      reads this`output, this`earlier, this`data, this`zc, this`buffer, this`sc, this`c, this`a, this`ct, this`stats
      ensures Normal(s.iv)
    {
      Coding(Current(), stats)
    }

    constructor ()
      ensures Valid() && State() == START
      ensures output == earlier == []
    {
      c, a, sc, zc, ct, buffer := 0, 0x10000, 0, 0, 11, -1;
      stats := map[];
      output, earlier, data := [], [], [];
      new;
      Powers();
      assert Digits() == [] && Shl(0, 16) == 0;
    }

    method EmitByte(b: byte)
      modifies this`output
      ensures output == old(output) + [b]
    {
      output := output + [b];
    }

    /** Sends the pending zero bytes. */
    method EmitZeros()
      modifies this`output, this`zc
      ensures output == old(output) + Stuff(Fill(0, old(zc))) && zc == 0
    {
      while zc > 0
        invariant zc <= old(zc)
        invariant output == old(output) + Stuff(Fill(0, old(zc) - zc))
      {
        StuffFill(0, old(zc) - zc);
        EmitByte(0);
        zc := zc - 1;
      }
    }

    /** Sends the stacked 0xFF bytes, each with its stuffed zero. */
    method EmitStack()
      modifies this`output, this`sc
      ensures output == old(output) + Stuff(Fill(255, old(sc))) && sc == 0
    {
      while sc > 0
        invariant sc <= old(sc)
        invariant output == old(output) + Stuff(Fill(255, old(sc) - sc))
      {
        StuffFill(255, old(sc) - sc);
        EmitByte(0xFF);
        EmitByte(0);
        sc := sc - 1;
      }
    }

    /** Sends the pending zeros and one byte. */
    method EmitData(b: byte)
      modifies this`output, this`zc
      ensures output == old(output) + Stuff(Fill(0, old(zc))) + Stuffed(b) && zc == 0
    {
      EmitZeros();
      EmitByte(b);
      if b == 0xFF {
        EmitByte(0);
      }
    }

    /** `EmitData`, seen as an extension of the data sent. */
    method Send(b: byte)
      requires Matches()
      modifies this`output, this`zc, this`data
      ensures Matches() && zc == 0 && data == old(data) + Fill(0, old(zc)) + [b]
    {
      ghost var stuffed, zeros := Stuff(data), Stuff(Fill(0, zc));
      StuffData(data, zc, b);
      data := data + Fill(0, zc) + [b];
      EmitData(b);
      assert output == earlier + stuffed + zeros + Stuffed(b) == earlier + (stuffed + zeros + Stuffed(b));
    }

    /** Sends the pending zeros and the stacked bytes. */
    method SendStack()
      requires Sent() && sc > 0
      modifies this`output, this`zc, this`sc, this`data
      ensures Sent() && zc == 0 && sc == 0
      ensures data == old(data) + Fill(0, old(zc)) + Fill(255, old(sc))
    {
      ghost var stuffed, zeros, stack := Stuff(data), Stuff(Fill(0, zc)), Stuff(Fill(255, sc));
      StuffStack(data, zc, sc);
      data := data + Fill(0, zc) + Fill(255, sc);
      EmitZeros();
      EmitStack();
      assert output == earlier + stuffed + zeros + stack == earlier + (stuffed + zeros + stack);
    }

    /** A carry goes into `buffer`, which is sent, and turns the stacked bytes to zero. */
    method PropagateCarry()
      requires Sent() && 0 <= buffer <= 254
      modifies this`output, this`zc, this`sc, this`data
      ensures Sent() && sc == 0
      ensures |data| + zc == old(|Digits()|)
      ensures Value(data + Fill(0, zc)) == old(Value(Digits())) + 1
    {
      CarryThroughStack(data + Fill(0, zc), buffer, sc);
      if buffer >= 0 {
        Send(buffer + 1);
      }
      zc := zc + sc;
      sc := 0;
    }

    /** Without a carry the held bytes go out as they are; zeros stay pending. */
    method ReleaseStack()
      requires Sent() && -1 <= buffer <= 254 && (buffer == -1 ==> zc == 0)
      modifies this`output, this`zc, this`sc, this`data
      ensures Sent() && sc == 0
      ensures data + Fill(0, zc) == old(Digits())
    {
      ReleaseBuffer();
      assert Fill(255, 0) == [] && Fill(0, 0) == [];
      if sc > 0 {
        SendStack();
      }
    }

    /** The first half: a zero byte joins the pending zeros, any other is sent. */
    method ReleaseBuffer()
      requires Sent() && -1 <= buffer <= 254 && (buffer == -1 ==> zc == 0)
      modifies this`output, this`zc, this`data
      ensures Sent()
      ensures data + Fill(0, zc) + Fill(255, sc) == old(Digits())
    {
      ghost var stack := Fill(255, sc);
      if buffer == 0 {
        FillSnoc(0, zc);
        zc := zc + 1;
        assert data + Fill(0, zc) == old(data + Fill(0, zc)) + [buffer];
      } else if buffer >= 0 {
        Send(buffer);
        assert data + Fill(0, zc) == old(data + Fill(0, zc)) + [buffer];
      }
    }

    /** Takes over the finished byte, settling what was held back before it. */
    method HoldByte(temp: nat)
      requires Coherent() && ct == 0 && temp == c / 0x80000
      modifies this`output, this`zc, this`sc, this`data, this`buffer
      ensures Sent() && -1 <= buffer <= 254 && (buffer == -1 ==> zc == 0 && data == [])
      ensures Value(Digits()) == 256 * old(Value(Digits())) + temp
      ensures |Digits()| == old(|Digits()|) + 1
    {
      ghost var digits := Digits();
      if temp > 0xFF {
        if buffer == -1 {
          assert digits == Fill(255, sc);
          NoCarryOverOnes(sc, c, 0);
        }
        TopByte();
        PropagateCarry();
        ValueSnoc(data + Fill(0, zc), temp - 0x100);
        buffer := temp % 0x100;
        assert Digits() == data + Fill(0, zc) + [temp - 0x100];
      } else if temp == 0xFF {
        ValueSnoc(digits, 255);
        FillSnoc(255, sc);
        sc := sc + 1;
        assert Digits() == digits + [255];
      } else {
        ReleaseStack();
        ValueSnoc(digits, temp);
        buffer := temp;
        assert Digits() == digits + [temp];
      }
    }

    /** Takes the finished byte off the top of `c`; the interval stays what it was. */
    method OutputByte()
      requires Coherent() && ct == 0
      modifies this`c, this`ct, this`output, this`zc, this`sc, this`data, this`buffer
      ensures Coherent() && ct == 8 && Current() == old(Current())
    {
      Powers();
      ByteMoves(Value(Digits()), c);
      HoldByte(c / 0x80000);
      c := c % 0x80000;
      ct := ct + 8;
    }

    /** The byte that comes with a carry is far below 0xFF. */
    lemma TopByte()
      requires Coherent() && ct == 0
      ensures c / 0x80000 < 0x100 + 0x21
    {
      Powers();
    }

    /** One shift of the registers doubles the interval. */
    lemma Doubling(iv: Interval)
      requires Coherent() && ct > 0 && iv == Current()
      ensures Interval(Shl(Value(Digits()), 28 - ct) + 2 * c, 2 * a, 8 * |Digits()| + 28 - ct)
           == Interval(2 * iv.base, 2 * iv.range, iv.scale + 1)
      ensures 2 * (iv.base + iv.range) <= Shl(1, iv.scale + 1)
    {
    }

    method Shift()
      requires Coherent() && ct > 0 && a < 0x8000
      modifies this`a, this`c, this`ct
      ensures Coherent()
      ensures var iv := old(Current()); Current() == Interval(2 * iv.base, 2 * iv.range, iv.scale + 1)
    {
      Doubling(Current());
      a := 2 * a;
      c := 2 * c;
      ct := ct - 1;
    }

    /** Renormalisation and data output (section D.1.6). */
    method Renormalize()
      requires Coherent() && ct > 0 && a < 0x8000
      modifies this`c, this`a, this`ct, this`output, this`zc, this`sc, this`data, this`buffer
      ensures Valid() && Current() == Normalize(old(Current()))
    {
      while true
        invariant Coherent() && ct > 0 && a < 0x8000
        invariant Normalize(Current()) == Normalize(old(Current()))
        decreases 0x10000 - a
      {
        Shift();
        if ct == 0 {
          OutputByte();
        }
        if a >= 0x8000 {
          break;
        }
      }
    }

    /** Replaces the interval by the part of size `size` that starts at `offset`. */
    method Keep(offset: nat, size: nat)
      requires Coherent() && 1 <= size && offset + size <= a
      modifies this`c, this`a
      ensures Coherent()
      ensures var iv := old(Current()); Current() == Interval(iv.base + offset, size, iv.scale)
    {
      c := c + offset;
      a := size;
    }

    /** The encoding and estimation procedures (sections D.1.4 and D.1.5). */
    method Select(sv: Stat, val: bool) returns (estimate: Stat)
      requires Valid()
      modifies this`c, this`a
      ensures Coherent() && Current() == Narrow(old(Current()), sv, val)
      ensures estimate == Adapt(old(Current()), sv, val)
    {
      var qe, lps, mps := Fetch(sv);
      var rest := a - qe;
      if val != Mps(sv) {
        // the bit that was less expected takes the smaller part
        if rest >= qe {
          Keep(rest, qe);
        } else {
          Keep(0, rest);
        }
        estimate := lps;
      } else {
        // the bit that was more expected takes the larger part
        if rest < qe {
          Keep(rest, qe);
        } else {
          Keep(0, rest);
        }
        estimate := if rest >= 0x8000 then sv else mps;
      }
    }

    /** `emit_restart`: the segment is terminated, a marker written, and coding begins anew. */
    method EmitRestart(num: nat) returns (ghost d: seq<byte>, ghost k: nat)
      requires Valid() && num < 8
      modifies this
      ensures Valid() && State() == START && EndsAt(d, old(State()).iv, k)
      ensures earlier == old(earlier) + Stuff(d) + [0xFF, (RST0 + num) as byte]
    {
      k := FinishPass();
      d := data;
      output := output + [0xFF, (RST0 + num) as byte];
      Begin();
    }

    /** A new segment, with no statistics. */
    method Begin()
      modifies this
      ensures Valid() && State() == START && output == earlier == old(output)
    {
      hide Valid, State, Held;
      c, a, sc, zc, ct, buffer := 0, 0x10000, 0, 0, 11, -1;
      stats := map[];
      earlier, data := output, [];
      Begun();
    }

    lemma Begun()
      requires c == sc == zc == 0 && a == 0x10000 && ct == 11 && buffer == -1 && stats == map[]
      requires output == earlier && data == []
      ensures Valid() && State() == START
    {
      Powers();
      assert Digits() == [] && Shl(0, 16) == 0;
    }

    /** `arith_encode`: codes one binary decision in the statistics bin `st`. */
    method ArithEncode(st: Bin, val: bool)
      requires Valid()
      modifies this`c, this`a, this`ct, this`output, this`zc, this`sc, this`data, this`buffer, this`stats
      ensures Valid() && State() == Step(old(State()), Decision(st, val))
    {
      var estimate := Select(StatOf(stats, st), val);
      stats := stats[st := estimate];
      if a < 0x8000 {
        Renormalize();
      }
    }

    method SendTwo(first: byte, second: byte)
      requires Matches() && (first != 0 || second != 0)
      modifies this`output, this`zc, this`data
      ensures Sent()
      ensures data == old(data + Fill(0, zc)) + if second != 0 then [first, second] else [first]
    {
      Send(first);
      if second != 0 {
        Send(second);
      }
    }

    /** Sends the last two bytes, as far as they are not zero. */
    method SendFinal()
      requires Sent()
      modifies this`output, this`zc, this`data
      ensures Sent() && |data| <= old(|data| + zc) + 2
      ensures forall k: nat :: Prefix(data, k) ==
                Prefix(old(data + Fill(0, zc)) + [c / 0x80000 % 0x100, c / 0x800 % 0x100], k)
    {
      var first, second := c / 0x80000 % 0x100, c / 0x800 % 0x100;
      ghost var whole := data + Fill(0, zc) + [first, second];
      TopTwoBytes(c);
      if c / 0x800 % 0x10000 != 0 {
        SendTwo(first, second);
      }
      DropZeros(data, whole);
    }

    /** One final overflow may have to be handled. */
    method Settle()
      requires Sent() && -1 <= buffer <= 254 && (buffer == -1 ==> zc == 0 && data == [])
      requires c < 0x10000000 && (c >= 0x8000000 ==> buffer >= 0)
      modifies this`output, this`zc, this`sc, this`data
      ensures Sent() && |data| + zc == old(|Digits()|)
      ensures Value(data + Fill(0, zc)) == old(Value(Digits())) + c / 0x8000000
    {
      if c / 0x8000000 > 0 {
        PropagateCarry();
      } else {
        ReleaseStack();
      }
    }

    /** `finish_pass`: sends the shortest byte string that decodes like this segment
        (section D.1.8).  The registers are stale afterwards. */
    method FinishPass() returns (ghost k: nat)
      requires Valid()
      modifies this`c, this`output, this`zc, this`sc, this`data
      ensures Sent() && EndsAt(data, old(State()).iv, k)
    {
      ghost var digits, code := Digits(), FinalCode(c, a);
      FinalCodeInRegister(digits, c, a, ct);
      FinalCodeInside(c, a);
      FinishedRegister(digits, c, a, ct, code);
      var temp := (a - 1 + c) / 0x10000 * 0x10000;
      c := if temp < c then temp + 0x8000 else temp;
      c := Shl(c, ct);
      Settle();
      FinalValue(digits, data + Fill(0, zc), code, ct);
      k := |digits| + 4;
      SendFinal();
    }
  }
}
