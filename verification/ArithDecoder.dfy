/** The arithmetic decoder of jdarith.c.  Its register holds the distance from the base
  of the coding interval to the code value, with a floating cut-point. */
module ArithDecoder {
  import opened Shifts
  import opened Aritab
  import opened QmInterval
  import opened JpegLimits
  import opened ArithEncoder
  import opened EntropySource
  import opened Resync
  import opened Wrappers

  class Decoder {
    var c: nat             // code value less interval base, and the next `ct` bits
    var a: nat             // size of the coding interval, or 0 before the first two bytes
    var ct: int            // bits left in the bit buffer part of `c`, or -16, -8 initially
    var stats: Stats
    const input: seq<byte>
    var pos: nat
    var unreadMarker: byte // the marker that ended the segment, or 0

    ghost var iv: Interval        // the interval before renormalisation
    ghost var seen: seq<byte>     // data bytes fetched in this segment, supplied zeros included
    ghost var segment: seq<byte>  // the data the segment was made of, if it is well-formed,
    ghost var marker: byte        // and the marker that follows it
    ghost var pending: Plan           // decisions the encoder coded and not decoded yet
    ghost var reach: nat              // bytes that determine all of them
    ghost var goal: Coding            // where the encoder stood after them

    /** Nothing has been decoded and at most one of the two initial bytes is in. */
    ghost predicate Filling()
      reads this`a, this`c, this`ct, this`seen
    {
      a == 0 && |seen| <= 1 && ct == 8 * |seen| - 16 && c == Value(seen)
    }

    /** The register is the code value less the base, cut to the bytes seen, and the
        code value lies in the interval. */
    ghost predicate Standing()
      reads this`a, this`c, this`ct, this`seen, this`iv
    {
      && 0 <= ct <= 7
      && 1 <= a <= 0x10000 && a == iv.range
      && 8 * |seen| == iv.scale + ct
      && c + Shl(iv.base, ct) == Value(seen)
      && c < Shl(a, ct)
    }

    ghost predicate Valid()
      reads this`a, this`c, this`ct, this`seen, this`iv
    {
      (Filling() && seen == []) || Standing()
    }

    /** The interval the next decision will narrow. */
    ghost function Due(): (n: Interval)
      requires Valid()
      reads this`a, this`c, this`ct, this`seen, this`iv
      ensures Normal(n)
    {
      if a == 0 then WHOLE else Normalize(iv)
    }

    ghost function State(): (s: Coding)
      requires Valid()
      reads this`a, this`c, this`ct, this`seen, this`iv, this`stats
      ensures Normal(s.iv)
    {
      Coding(Due(), stats)
    }

    constructor (source: seq<byte>, ghost data: seq<byte>, ghost m: byte)
      ensures segment == data && marker == m && pending == Nil
      ensures Valid() && State() == START
      ensures input == source && pos == 0 && unreadMarker == 0 && seen == [] && Met() == Ending(source, 0)
      ensures m != 0 && Holds(source, 0, data, m) ==> OnSegment()
    {
      c, a, ct := 0, 0, -16;
      stats := map[];
      input, pos, unreadMarker := source, 0, 0;
      iv, seen, segment, marker, pending := WHOLE, [], data, m, Nil;
    }

    /** What ends the segment, whether it has been met already or not. */
    function Met(): Read
      reads this`pos, this`unreadMarker
    {
      if unreadMarker == 0 then Ending(input, pos) else Marker(unreadMarker, pos)
    }

    /** The bytes fetched so far, and those still to come, are those of `segment`
        followed by its marker, and zeros for ever. */
    ghost predicate OnSegment()
      reads this`pos, this`unreadMarker, this`seen, this`segment, this`marker
    {
      && marker != 0
      && (forall i: nat | i < |seen| :: seen[i] == Digit(segment, i))
      && (if unreadMarker == 0 then |seen| <= |segment| && Holds(input, pos, segment[|seen|..], marker)
          else unreadMarker == marker && |seen| >= |segment|)
    }

    /** `read_restart_marker` and `process_restart`: a segment begins, with no statistics, or
        an empty one at a marker that is left unread; false is the error exit at the end of the
        input.  `d` and `m` are what the segment should hold and what should follow. */
    method Restart(num: nat, ghost d: seq<byte>, ghost m: byte) returns (ok: bool)
      requires num < 8
      modifies this
      ensures ok <==> !Recovered(input, old(Met()), num).Wait?
      ensures ok ==> Valid() && State() == START && segment == d && marker == m && pending == Nil
      ensures ok ==> Met() == NextEnding(input, Recovered(input, old(Met()), num))
      ensures var r := Recovered(input, old(Met()), num);
              r.GoOn? && m != 0 && Holds(input, r.next, d, m) ==> OnSegment()
    {
      hide Recovered;
      var r := Recovered(input, Met(), num);
      match r {
        case Wait => return false;
        case GoOn(next) => pos, unreadMarker := next, 0;
        case Stay(code, next) => pos, unreadMarker := next, code;
      }
      stats := map[];
      c, a, ct := 0, 0, -16;
      iv, seen, segment, marker, pending := WHOLE, [], d, m, Nil;
      ok := true;
    }

    /** The next data byte; zeros are supplied once a marker has been met, and `None`
        is the error exit when the input ends without one. */
    method NextData() returns (r: Option<byte>)
      modifies this`pos, this`unreadMarker, this`seen
      ensures seen == if r.Some? then old(seen) + [r.value] else old(seen)
      ensures old(OnSegment()) ==> r.Some? && OnSegment()
      ensures Met() == old(Met()) && (r.None? ==> Met().Exhausted?)
    {
      if unreadMarker != 0 {
        r := Some(0);
      } else {
        match ReadData(input, pos)
        case Data(b, next) =>
          pos := next;
          r := Some(b);
        case Marker(code, next) =>
          pos := next;
          unreadMarker := code;
          r := Some(0);
        case Exhausted =>
          return None;
      }
      seen := seen + [r.value];
    }

    /** Renormalisation and data input (section D.2.6).  False is the error exit. */
    method Renormalize() returns (ok: bool)
      requires Valid()
      modifies this`a, this`c, this`ct, this`pos, this`unreadMarker, this`seen, this`iv
      ensures old(seen) <= seen
      ensures ok ==> Standing() && iv == old(Due())
      ensures old(OnSegment()) ==> ok && OnSegment()
      ensures Met() == old(Met()) && (!ok ==> Met().Exhausted?)
    {
      hide Met;
      ghost var due := Due();
      while a < 0x8000
        invariant Filling() || (Standing() && Normalize(iv) == due)
        invariant old(seen) <= seen && (Filling() ==> due == WHOLE)
        invariant old(OnSegment()) ==> OnSegment()
        invariant Met() == old(Met())
        decreases if a == 0 then 0x20000 - ct else 0x10000 - a
      {
        ghost var was := iv;
        assert a > 0 ==> Normalize(was) == Normalize(Interval(2 * was.base, 2 * was.range, was.scale + 1));
        ok := ShiftIn();
        if !ok {
          return;
        }
      }
      return true;
    }

    /** One round of the loop above. */
    method ShiftIn() returns (ok: bool)
      requires (Filling() || Standing()) && a < 0x8000
      modifies this`a, this`c, this`ct, this`pos, this`unreadMarker, this`seen, this`iv
      ensures old(seen) <= seen
      ensures ok && old(Filling()) ==> if |old(seen)| == 0 then Filling() && |seen| == 1 else Standing() && iv == WHOLE
      ensures ok && old(Standing()) ==>
                Standing() && iv == Interval(2 * old(iv).base, 2 * old(iv).range, old(iv).scale + 1)
      ensures old(OnSegment()) ==> ok && OnSegment()
      ensures Met() == old(Met()) && (!ok ==> Met().Exhausted?)
    {
      hide OnSegment, Normalize, Met;
      if a > 0 {
        Moved(ct);
      }
      ghost var before := seen;
      assert |before| == 1 ==> Value(before) == 0x100 * Prefix(before, 0) + before[0];
      ct := ct - 1;
      if ct < 0 {
        // the bits of the last byte are used up
        var data := NextData();
        if data.None? {
          return false;
        }
        ValueSnoc(before, data.value);
        c := 0x100 * c + data.value;
        ct := ct + 8;
        if ct < 0 {
          // of the first two bytes there is only one so far
          ct := ct + 1;
          if ct == 0 {
            a := 0x8000;
            iv := Interval(0, 0x8000, 15);
          }
        }
      }
      a := 2 * a;
      iv := Interval(2 * iv.base, 2 * iv.range, iv.scale + 1);
      return true;
    }

    /** The cut-point moves by one bit, or a byte is shifted in below it. */
    lemma Moved(k: int)
      requires Standing() && k == ct
      ensures k > 0 ==> Shl(2 * iv.base, k - 1) == Shl(iv.base, k) && Shl(2 * a, k - 1) == Shl(a, k)
      ensures k == 0 ==> Shl(2 * iv.base, 7) == 0x100 * Shl(iv.base, k) && Shl(2 * a, 7) == 0x100 * Shl(a, k)
    {
      if k > 0 {
        ShlDouble(iv.base, k - 1);
        ShlDouble(a, k - 1);
      } else {
        ShlDouble(iv.base, 7);
        ShlDouble(a, 7);
        ShlBy8(iv.base, 0);
        ShlBy8(a, 0);
      }
    }

    /** The code value is in the upper part: the base moves up to it. */
    method KeepUpper(rest: nat)
      requires Standing() && rest < a && Shl(rest, ct) <= c
      modifies this`a, this`c, this`iv
      ensures Standing() && iv == Interval(old(iv).base + rest, old(a) - rest, old(iv).scale)
    {
      ShlAdd(rest, a - rest, ct);
      ShlAdd(iv.base, rest, ct);
      iv := Interval(iv.base + rest, a - rest, iv.scale);
      c := c - Shl(rest, ct);
      a := a - rest;
    }

    method KeepLower(rest: nat)
      requires Standing() && 1 <= rest <= a && c < Shl(rest, ct)
      modifies this`a, this`iv
      ensures Standing() && iv == Interval(old(iv).base, rest, old(iv).scale)
    {
      iv := iv.(range := rest);
      a := rest;
    }

    /** Decoding and estimation (sections D.2.4 and D.2.5): the decision is the one
        whose part of the interval holds the code value. */
    method Decide(sv: Stat) returns (bit: bool, estimate: Stat)
      requires Standing() && Normal(iv)
      modifies this`a, this`c, this`iv
      ensures Standing() && iv == Narrow(old(iv), sv, bit)
      ensures estimate == Adapt(old(iv), sv, bit)
    {
      var qe, lps, mps := Fetch(sv);
      bit, estimate := Mps(sv), sv;
      var rest := a - qe;
      if c >= Shl(rest, ct) {
        // upper part: the symbol less expected, unless that part is the larger one
        KeepUpper(rest);
        if rest < qe {
          estimate := mps;
        } else {
          estimate := lps;
          bit := !bit;
        }
      } else {
        KeepLower(rest);
        if rest < 0x8000 {
          // lower part: the symbol more expected, unless that part is the smaller one
          if rest < qe {
            estimate := lps;
            bit := !bit;
          } else {
            estimate := mps;
          }
        }
      }
    }

    /** The code value always lies in the interval, whatever the input. */
    lemma CodeInside()
      requires Standing()
      ensures Inside(iv, seen, |seen|)
    {
      ShlAdd(iv.base, iv.range, ct);
    }

    /** The segment is the work of an encoder that went on from here with the decisions
        in `pending`: its data lie in the interval after all of them. */
    ghost predicate Expecting()
      reads this`pos, this`unreadMarker, this`seen, this`segment, this`marker
      reads this`a, this`c, this`ct, this`iv, this`stats, this`pending, this`reach, this`goal
    {
      Valid() && OnSegment() && Run(State(), pending) == goal && Inside(goal.iv, segment, reach)
    }

    lemma NotExpecting()
      requires ct == -1
      ensures !Expecting()
    {
    }

    /** A segment that an encoder terminated is one the decoder expects, from its start. */
    ghost method Expect(plan: Plan, k: nat)
      requires Valid() && State() == START && OnSegment()
      requires EndsAt(segment, Run(START, plan).iv, k)
      modifies this`pending, this`reach, this`goal
      ensures Expecting() && pending == plan && goal == Run(START, plan)
    {
      TerminatedInside(segment, Run(START, plan).iv, k);
      pending, reach, goal := plan, k, Run(START, plan);
    }

    /** The decision found is the one the encoder coded. */
    lemma Agrees(s: Coding, sv: Stat, bit: bool)
      requires Normal(s.iv) && Standing() && OnSegment() && iv == Narrow(s.iv, sv, bit)
      requires pending.Cons? && sv == StatOf(s.stats, pending.head.bin)
      requires Inside(Run(s, pending).iv, segment, reach)
      ensures bit == pending.head.bit
    {
      var coded := Narrow(s.iv, sv, pending.head.bit);
      assert Inside(coded, segment, reach) by {
        RunInside(Step(s, pending.head), pending.tail, segment, reach);
        NormalizeInside(coded, segment, reach);
      }
      CodeInside();
      PrefixSame(seen, segment, |seen|);
      assert Inside(iv, segment, |seen|);
      if reach <= |seen| {
        InsideAny(coded, segment, reach, |seen|);
        PartsDisjoint(s.iv, sv, bit, pending.head.bit, segment, |seen|);
      } else {
        InsideAny(iv, segment, |seen|, reach);
        PartsDisjoint(s.iv, sv, bit, pending.head.bit, segment, reach);
      }
    }

    /** `arith_decode`: the next binary decision, in the statistics bin `st`; `None` is
        the error exit.  Whatever the input, the interval moves as in the encoder for
        the decision returned; and on the encoder's own output that decision is the
        encoder's. */
    method ArithDecode(st: Bin) returns (r: Option<bool>)
      requires Valid()
      modifies this`a, this`c, this`ct, this`pos, this`unreadMarker, this`seen, this`iv, this`stats, this`pending
      ensures old(seen) <= seen
      ensures r.Some? ==> Valid() && State() == Step(old(State()), Decision(st, r.value))
      ensures Met() == old(Met()) && (r.None? ==> Met().Exhausted?)
      ensures old(Expecting()) && old(pending).Cons? && old(pending).head.bin == st ==>
                r == Some(old(pending).head.bit) && pending == old(pending).tail && Expecting()
    {
      hide Met;
      ghost var s, sv := State(), StatOf(stats, st);
      r := NextDecision(st);
      if old(Expecting()) && pending.Cons? && pending.head.bin == st {
        Agrees(s, sv, r.value);
        pending := pending.tail;
      }
    }

    method NextDecision(st: Bin) returns (r: Option<bool>)
      requires Valid()
      modifies this`a, this`c, this`ct, this`pos, this`unreadMarker, this`seen, this`iv, this`stats
      ensures old(seen) <= seen
      ensures old(OnSegment()) ==> r.Some? && OnSegment()
      ensures Met() == old(Met()) && (r.None? ==> Met().Exhausted?)
      ensures r.Some? ==>
                && Standing()
                && iv == Narrow(old(Due()), StatOf(old(stats), st), r.value)
                && stats == old(stats)[st := Adapt(old(Due()), StatOf(old(stats), st), r.value)]
    {
      hide Met;
      var sv := StatOf(stats, st);
      var ok := Renormalize();
      if !ok {
        return None;
      }
      var bit, estimate := Decide(sv);
      stats := stats[st := estimate];
      return Some(bit);
    }
  }
}
