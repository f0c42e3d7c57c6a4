/** Fetching bits and Huffman symbols from a stuffed byte stream (jdhuff.c, jdhuff.h). */
module BitReader {
  import opened JpegLimits
  import opened Shifts
  import opened EntropySource
  import opened Resync
  import opened BitStrings
  import opened CodeLengths
  import opened CanonicalCodes
  import opened HuffmanTables
  import opened Wrappers

  const BIT_BUF_SIZE := 64
  const MIN_GET_BITS := 57

  /** The bits of the data bytes from `pos` on, up to a marker or the end of the input. */
  function Coming(input: seq<byte>, pos: nat): seq<bool>
    decreases |input| - pos
  {
    match ReadData(input, pos)
    case Data(b, next) => BitsOf(b, 8) + Coming(input, next)
    case _ => []
  }

  /** The bits of the segment in which decoding goes on; an empty one has none. */
  function NextStream(input: seq<byte>, r: Recovery): seq<bool> {
    match r
    case GoOn(next) => Coming(input, next)
    case _ => []
  }

  /** A register of 64 bits. */
  function Register(v: nat): (r: nat)
    ensures r < Shl(1, BIT_BUF_SIZE)
  {
    ShlPositive(BIT_BUF_SIZE);
    v % Shl(1, BIT_BUF_SIZE)
  }

  /** The lowest `left` bits of the register are the bits of `stream` at `at`; above them
      is what has been used up, `spent`. */
  ghost predicate Buffered(stream: seq<bool>, at: nat, buffer: nat, left: nat, spent: nat) {
    buffer == Shl(spent, left) + NumberAt(stream, at, left)
  }

  /** The bits behind those are still to come from the input, and once a marker has been
      met, are zeros. */
  ghost predicate InStep(stream: seq<bool>, at: nat, left: nat, input: seq<byte>, pos: nat, marker: byte) {
    if marker == 0 then at + left <= |stream| && stream[at + left..] == Coming(input, pos)
    else at + left >= |stream|
  }

  lemma Divide(v: nat, k: nat) returns (q: nat, r: nat)
    ensures v == Shl(q, k) + r && r < Shl(1, k)
  {
    ShlPositive(k);
    q, r := DivMod(v, Shl(1, k));
    ShlIsProduct(q, k);
  }

  lemma DivMod(v: nat, h: nat) returns (q: nat, r: nat)
    requires h > 0
    ensures v == q * h + r && r < h
  {
    q, r := v / h, v % h;
  }

  /** Shifting `n` more bits into the register; what falls out at the top was used up. */
  lemma ShiftIn(stream: seq<bool>, at: nat, buffer: nat, left: nat, spent: nat, n: nat) returns (spent': nat)
    requires Buffered(stream, at, buffer, left, spent) && left + n <= BIT_BUF_SIZE
    ensures Buffered(stream, at, Register(Shl(buffer, n) + NumberAt(stream, at + left, n)), left + n, spent')
  {
    hide NumberAt, Shl;
    var x, k := NumberAt(stream, at + left, n), BIT_BUF_SIZE - left - n;
    var low := NumberAt(stream, at, left + n);
    NumberSplit(stream, at, left, n);
    ShlAdd(Shl(spent, left), NumberAt(stream, at, left), n);
    ShlShl(spent, left, n);
    assert Shl(buffer, n) + x == Shl(spent, left + n) + low;
    var q;
    q, spent' := Divide(spent, k);
    ShlAdd(Shl(q, k), spent', left + n);
    ShlShl(q, k, left + n);
    NumberBound(stream, at, left + n);
    ShlAdd(spent', 1, left + n);
    ShlOrder(spent' + 1, Shl(1, k), left + n);
    ShlShl(1, k, left + n);
    HighPart(q, Shl(spent', left + n) + low, BIT_BUF_SIZE);
  }

  /** The bits at the front of the register. */
  lemma FrontBits(stream: seq<bool>, at: nat, buffer: nat, left: nat, spent: nat, n: nat)
    requires Buffered(stream, at, buffer, left, spent) && n <= left
    ensures Shl(1, left - n) > 0 && Shl(1, n) > 0
    ensures buffer / Shl(1, left - n) % Shl(1, n) == NumberAt(stream, at, n)
    ensures Buffered(stream, at + n, buffer, left - n, Shl(spent, n) + NumberAt(stream, at, n))
  {
    hide NumberAt, Shl;
    var l := left - n;
    ShlPositive(l);
    ShlPositive(n);
    NumberSplit(stream, at, n, l);
    ShlAdd(Shl(spent, n), NumberAt(stream, at, n), l);
    ShlShl(spent, n, l);
    NumberBound(stream, at + n, l);
    HighPart(Shl(spent, n) + NumberAt(stream, at, n), NumberAt(stream, at + n, l), l);
    NumberBound(stream, at, n);
    HighPart(spent, NumberAt(stream, at, n), n);
  }

  /** The next byte of the input holds the next 8 bits of the stream. */
  lemma NextByte(stream: seq<bool>, at: nat, left: nat, input: seq<byte>, pos: nat, b: byte, next: nat)
    requires InStep(stream, at, left, input, pos, 0) && ReadData(input, pos) == Data(b, next)
    ensures NumberAt(stream, at + left, 8) == b && InStep(stream, at, left + 8, input, next, 0)
  {
    hide ReadData, NumberAt, BitsOf;
    Powers();
    BitsFollow(stream, at + left, b, 8, Coming(input, next));
  }

  lemma BitsFollow(stream: seq<bool>, i: nat, v: nat, n: nat, rest: seq<bool>)
    requires i <= |stream| && stream[i..] == BitsOf(v, n) + rest && v < Shl(1, n)
    ensures i + n <= |stream| && stream[i + n..] == rest && NumberAt(stream, i, n) == v
  {
    hide BitsOf;
    var tail := stream[i..];
    assert tail[n..] == rest && stream[i + n..] == tail[n..];
    forall k | i <= k < i + n ensures BitAt(stream, k) == BitAt(BitsOf(v, n), k - i) {
      assert stream[k] == tail[k - i];
    }
    NumberOfBits(v, n);
    NumberSame(stream, BitsOf(v, n), i, 0, n);
  }

  lemma NextMarker(stream: seq<bool>, at: nat, left: nat, input: seq<byte>, pos: nat, code: byte, next: nat)
    requires InStep(stream, at, left, input, pos, 0) && ReadData(input, pos) == Marker(code, next)
    ensures code != 0 && InStep(stream, at, left, input, next, code) && at + left == |stream|
  {
  }

  /** What ends the segment lies ahead, or has been met. */
  ghost predicate Ends(input: seq<byte>, pos: nat, marker: byte, ending: Read, plain: bool) {
    if marker == 0 then Ending(input, pos) == ending && (plain ==> NoFill(input, pos)) else ending == Marker(marker, pos)
  }

  datatype Loaded = Full | Met(marker: byte) | Starved

  /** What can be read from the bytes that are there does not depend on those to come. */
  lemma ReadsSame(data: seq<byte>, input: seq<byte>, pos: nat)
    requires data <= input && !ReadData(data, pos).Exhausted?
    ensures ReadData(input, pos) == ReadData(data, pos)
  {
    if data[pos] == 0xFF { SkipsSame(data, input, pos + 1); }
  }

  lemma {:induction false} SkipsSame(data: seq<byte>, input: seq<byte>, pos: nat)
    requires data <= input && SkipFill(data, pos) < |data|
    ensures SkipFill(input, pos) == SkipFill(data, pos)
    decreases |data| - pos
  {
    if pos < |data| && data[pos] == 0xFF { SkipsSame(data, input, pos + 1); }
  }

  lemma NextRead(input: seq<byte>, pos: nat)
    ensures match ReadData(input, pos)
            case Data(_, next) => |Coming(input, pos)| == 8 + |Coming(input, next)| && Ending(input, pos) == Ending(input, next)
            case other => Coming(input, pos) == [] && Ending(input, pos) == other
  {
  }

  lemma WithinStream(stream: seq<bool>, at: nat, left: nat, input: seq<byte>, pos: nat)
    requires InStep(stream, at, left, input, pos, 0)
    ensures at + left <= |stream|
  {
  }

  /** Loads bytes until there are at least 57 bits in the register; `data` is the part of
      the input that is there. */
  method LoadBytes(data: seq<byte>, ghost input: seq<byte>, pos: nat, getBuffer: nat, bitsLeft: nat,
                   ghost stream: seq<bool>, ghost at: nat, ghost spent: nat)
    returns (r: Loaded, next: nat, buffer: nat, left: nat, ghost used: nat)
    requires data <= input
    requires Buffered(stream, at, getBuffer, bitsLeft, spent) && InStep(stream, at, bitsLeft, input, pos, 0)
    ensures r.Full? ==> left >= MIN_GET_BITS && InStep(stream, at, left, input, next, 0)
                        && Ending(input, next) == Ending(input, pos) && (NoFill(input, pos) ==> NoFill(input, next))
    ensures r.Met? ==> r.marker != 0 && InStep(stream, at, left, input, next, r.marker)
                       && Ending(input, pos) == Marker(r.marker, next)
    ensures r.Starved? ==> data < input || Ending(input, pos).Exhausted?
    ensures r.Starved? <==> Ending(data, pos).Exhausted? && bitsLeft + |Coming(data, pos)| < MIN_GET_BITS
    ensures bitsLeft <= left && at + left <= |stream| && Buffered(stream, at, buffer, left, used)
    ensures bitsLeft <= BIT_BUF_SIZE ==> left <= BIT_BUF_SIZE
  {
    hide Buffered, InStep, ReadData, Coming, Ending, NoFill, NumberAt;
    next, buffer, left, used := pos, getBuffer, bitsLeft, spent;
    WithinStream(stream, at, left, input, next);
    while left < MIN_GET_BITS
      invariant bitsLeft <= left && (bitsLeft <= BIT_BUF_SIZE ==> left <= BIT_BUF_SIZE) && at + left <= |stream|
      invariant Ending(input, next) == Ending(input, pos) && (NoFill(input, pos) ==> NoFill(input, next))
      invariant Ending(data, next) == Ending(data, pos) && left + |Coming(data, next)| == bitsLeft + |Coming(data, pos)|
      invariant Buffered(stream, at, buffer, left, used) && InStep(stream, at, left, input, next, 0)
      decreases MIN_GET_BITS - left
    {
      if !ReadData(data, next).Exhausted? { ReadsSame(data, input, next); }
      if NoFill(input, next) { FillFree(input, next); }
      NextRead(data, next);
      NextRead(input, next);
      match ReadData(data, next) {
        case Exhausted =>
          assert data == input ==> Ending(input, pos).Exhausted?;
          r := Starved;
          return;
        case Marker(code, behind) =>
          NextMarker(stream, at, left, input, next, code, behind);
          r, next := Met(code), behind;
          return;
        case Data(b, behind) =>
          NextByte(stream, at, left, input, next, b, behind);
          WithinStream(stream, at, left + 8, input, behind);
          used := ShiftIn(stream, at, buffer, left, used, 8);
          ShlBy8(buffer, 0);
          buffer, left, next := Register(256 * buffer + b as nat), left + 8, behind;
      }
    }
    r := Full;
  }

  /** The code length and the symbol in an entry of the lookahead table. */
  function EntryLength(e: nat): nat {
    e / 256
  }

  function EntrySymbol(e: nat): byte {
    e % 256
  }

  class Reader {
    var input: seq<byte>           // the whole input, of which the first `available` bytes
    var available: nat             // have been supplied so far
    var pos: nat
    var unreadMarker: byte         // the marker that ended the segment, or 0
    var getBuffer: nat
    var bitsLeft: nat
    var insufficientData: bool
    var savedPos: nat              // the state at the last complete MCU
    var savedBuffer: nat
    var savedLeft: nat

    ghost var stream: seq<bool>    // all bits of the segment,
    ghost var at: nat              // the position of the next one,
    ghost var spent: nat           // and what is left of bits used up
    ghost var ending: Read         // what ends the segment,
    ghost var plain: bool          // and whether there are no fill bytes before it
    ghost var savedAt: nat
    ghost var savedSpent: nat

    ghost predicate Valid()
      reads this`input, this`available, this`pos, this`unreadMarker, this`getBuffer, this`bitsLeft
      reads this`stream, this`at, this`spent, this`ending, this`plain, this`insufficientData
    {
      && available <= |input| && bitsLeft <= BIT_BUF_SIZE && (at + bitsLeft > |stream| ==> insufficientData)
      && Buffered(stream, at, getBuffer, bitsLeft, spent)
      && InStep(stream, at, bitsLeft, input, pos, unreadMarker) && Ends(input, pos, unreadMarker, ending, plain)
    }

    /** The state to which an MCU that is not complete goes back. */
    ghost predicate Saved()
      reads this`input, this`available, this`savedPos, this`unreadMarker, this`savedBuffer, this`savedLeft
      reads this`stream, this`savedAt, this`savedSpent, this`ending, this`plain, this`insufficientData
    {
      && available <= |input| && savedLeft <= BIT_BUF_SIZE && (savedAt + savedLeft > |stream| ==> insufficientData)
      && Buffered(stream, savedAt, savedBuffer, savedLeft, savedSpent)
      && InStep(stream, savedAt, savedLeft, input, savedPos, unreadMarker) && Ends(input, savedPos, unreadMarker, ending, plain)
    }

    /** The segment ends with a marker, and all of it is there, so there is no need to wait. */
    ghost predicate Complete()
      reads this`input, this`available, this`pos, this`unreadMarker
    {
      unreadMarker != 0 || (available == |input| && Ending(input, pos).Marker?)
    }

    /** The same for the state saved. */
    ghost predicate Settled()
      reads this`input, this`available, this`savedPos, this`unreadMarker
    {
      unreadMarker != 0 || (available == |input| && Ending(input, savedPos).Marker?)
    }

    constructor (source: seq<byte>, n: nat)
      requires n <= |source|
      ensures Valid() && Saved() && input == source && available == n && pos == 0 && unreadMarker == 0
      ensures stream == Coming(source, 0) && at == 0 == savedAt
      ensures savedPos == pos && !insufficientData && ending == Ending(source, 0) && plain == NoFill(source, 0)
    {
      input, available, pos, unreadMarker := source, n, 0, 0;
      getBuffer, bitsLeft, insufficientData := 0, 0, false;
      savedPos, savedBuffer, savedLeft := 0, 0, 0;
      stream, at, spent, savedAt, savedSpent := Coming(source, 0), 0, 0, 0, 0;
      ending, plain := Ending(source, 0), NoFill(source, 0);
    }

    /** More of the input arrives. */
    method Supply(n: nat)
      requires Saved() && available <= n <= |input|
      modifies this`available
      ensures Saved() && available == n
    {
      available := n;
    }

    /** `next_marker`: everything before the next marker is discarded. */
    method NextMarker() returns (ok: bool)
      requires available <= |input|
      modifies this`savedPos, this`unreadMarker
      ensures ok ==> Ending(input, old(savedPos)) == Marker(unreadMarker, savedPos) && unreadMarker != 0
      ensures !ok ==> unreadMarker == old(unreadMarker) && Ending(input, savedPos) == Ending(input, old(savedPos))
                      && (available < |input| || Ending(input, savedPos).Exhausted?)
    {
      hide ReadData;
      var data := input[..available];
      assert available == |input| ==> data == input;
      while true
        invariant Ending(input, savedPos) == Ending(input, old(savedPos)) && unreadMarker == old(unreadMarker)
        decreases |data| - savedPos
      {
        if !ReadData(data, savedPos).Exhausted? { ReadsSame(data, input, savedPos); }
        match ReadData(data, savedPos) {
          case Exhausted => return false;
          case Marker(code, next) =>
            savedPos, unreadMarker := next, code;
            return true;
          case Data(_, next) => savedPos := next;
        }
      }
    }

    /** `jpeg_resync_to_restart`: a call that has to wait for input can be repeated. */
    method ResyncToRestart(desired: nat) returns (ok: bool)
      requires available <= |input| && unreadMarker != 0
      modifies this`savedPos, this`unreadMarker
      ensures ok ==> match Resynchronized(input, old(unreadMarker), old(savedPos), desired)
                     case GoOn(next) => unreadMarker == 0 && savedPos == next
                     case Stay(code, next) => unreadMarker == code != 0 && savedPos == next
                     case Wait => false
      ensures !ok ==> unreadMarker != 0
                      && Resynchronized(input, unreadMarker, savedPos, desired)
                         == Resynchronized(input, old(unreadMarker), old(savedPos), desired)
                      && (available < |input| || Resynchronized(input, unreadMarker, savedPos, desired).Wait?)
    {
      hide Ending, ActionFor;
      while true
        invariant unreadMarker != 0
        invariant Resynchronized(input, unreadMarker, savedPos, desired)
                  == Resynchronized(input, old(unreadMarker), old(savedPos), desired)
        decreases |input| - savedPos
      {
        match ActionFor(unreadMarker, desired) {
          case Discard =>
            unreadMarker := 0;
            return true;
          case Leave =>
            return true;
          case Advance =>
            ok := NextMarker();
            if !ok { return; }
        }
      }
    }

    /** `read_restart_marker`. */
    method ReadRestartMarker(num: nat) returns (ok: bool)
      requires num < 8 && available <= |input| && Ends(input, savedPos, unreadMarker, ending, false)
      modifies this`savedPos, this`unreadMarker
      ensures ok ==> match Recovered(input, ending, num)
                     case GoOn(next) => unreadMarker == 0 && savedPos == next
                     case Stay(code, next) => unreadMarker == code != 0 && savedPos == next
                     case Wait => false
      ensures !ok ==> Recovered(input, if unreadMarker == 0 then Ending(input, savedPos) else Marker(unreadMarker, savedPos), num)
                      == Recovered(input, ending, num)
      ensures !ok ==> available < |input| || Recovered(input, ending, num).Wait?
    {
      hide Ending, Resynchronized;
      if unreadMarker == 0 {
        ok := NextMarker();
        if !ok { return; }
      }
      ok := true;
      if unreadMarker as nat == RST0 + num {
        unreadMarker := 0;
      } else {
        ok := ResyncToRestart(num);
        if !ok { RecoveredIs(input, unreadMarker, savedPos, num); }
      }
    }

    /** `read_restart_marker` and what `process_restart` does to the bit buffer: the bits that
        are left are thrown away, and the segment behind the marker begins, or an empty one
        if that marker is left unread. */
    method Restart(num: nat) returns (ok: bool)
      requires Saved() && num < 8
      modifies this
      ensures Saved() && input == old(input) && available == old(available) && savedAt == 0
      ensures ok ==> !Recovered(input, old(ending), num).Wait? && ending == NextEnding(input, Recovered(input, old(ending), num))
                     && stream == NextStream(input, Recovered(input, old(ending), num))
      ensures ok ==> match Recovered(input, old(ending), num)
                     case GoOn(next) =>
                       unreadMarker == 0 && !insufficientData && savedPos == next && plain == NoFill(input, next)
                     case Stay(code, _) => unreadMarker == code != 0 && insufficientData == old(insufficientData)
                     case Wait => false
      ensures !ok ==> Recovered(input, ending, num) == Recovered(input, old(ending), num)
                      && insufficientData == old(insufficientData)
                      && (available < |input| || Recovered(input, ending, num).Wait?)
    {
      hide Buffered, InStep, Coming, Ending, Shl, NumberAt, Recovered;
      savedLeft := 0;
      ok := ReadRestartMarker(num);
      ending := if unreadMarker == 0 then Ending(input, savedPos) else Marker(unreadMarker, savedPos);
      savedAt, savedSpent, stream := 0, savedBuffer, if unreadMarker == 0 then Coming(input, savedPos) else [];
      if ok && unreadMarker == 0 {
        insufficientData := false;
        plain := NoFill(input, savedPos);
      } else if unreadMarker == 0 {
        plain := false;
      }
      NothingBuffered(input, savedPos, savedBuffer);
    }

    /** `BITREAD_LOAD_STATE`. */
    method Load()
      requires Saved()
      modifies this`pos, this`getBuffer, this`bitsLeft, this`at, this`spent
      ensures Valid() && at == savedAt && pos == savedPos && (Settled() ==> Complete())
    {
      pos, getBuffer, bitsLeft := savedPos, savedBuffer, savedLeft;
      at, spent := savedAt, savedSpent;
    }

    /** `BITREAD_SAVE_STATE`. */
    method Save()
      requires Valid()
      modifies this`savedPos, this`savedBuffer, this`savedLeft, this`savedAt, this`savedSpent
      ensures Saved() && savedAt == at && savedPos == pos && (Complete() ==> Settled())
    {
      savedPos, savedBuffer, savedLeft := pos, getBuffer, bitsLeft;
      savedAt, savedSpent := at, spent;
    }

    /** `jpeg_fill_bit_buffer`: loads at least `nbits` bits, zeros if a marker has been met, and
        then remembers that there were not enough; fails, without any change, exactly when the
        input that is there ends before the register is full and before a marker. */
    method FillBitBuffer(nbits: nat) returns (ok: bool)
      requires Valid() && nbits <= MIN_GET_BITS
      modifies this`pos, this`unreadMarker, this`getBuffer, this`bitsLeft, this`insufficientData, this`spent
      ensures Valid() && bitsLeft >= old(bitsLeft)
      ensures ok ==> bitsLeft >= nbits && (unreadMarker != 0 || bitsLeft >= MIN_GET_BITS)
      ensures !ok ==> unreadMarker == 0
                      && pos == old(pos) && getBuffer == old(getBuffer) && bitsLeft == old(bitsLeft)
      ensures old(unreadMarker) != 0 ==> unreadMarker != 0
      ensures unreadMarker == 0 ==> insufficientData == old(insufficientData)
      ensures insufficientData <==> old(insufficientData) || (ok && at + nbits > |stream|)
      ensures ok <==> old(unreadMarker) != 0 || Ending(input[..available], old(pos)).Marker?
                      || old(bitsLeft) + |Coming(input[..available], old(pos))| >= MIN_GET_BITS
      ensures old(Complete()) ==> ok && Complete()
    {
      hide Buffered, InStep, Ending, NoFill, Coming, ReadData, Shl, NumberAt;
      if unreadMarker == 0 {
        assert input[..|input|] == input;
        var r, next, buffer, left, used := LoadBytes(input[..available], input, pos, getBuffer, bitsLeft, stream, at, spent);
        if r.Starved? { return false; }
        pos, getBuffer, bitsLeft, spent := next, buffer, left, used;
        if r.Met? { unreadMarker := r.marker; }
      }
      if nbits > bitsLeft {
        insufficientData := true;
        spent := ZeroFill(stream, at, getBuffer, bitsLeft, spent, input, pos, unreadMarker);
        getBuffer := Register(Shl(getBuffer, MIN_GET_BITS - bitsLeft));
        bitsLeft := MIN_GET_BITS;
      }
      ok := true;
    }

    /** `CHECK_BIT_BUFFER`. */
    method CheckBits(n: nat) returns (ok: bool)
      requires Valid() && n <= MIN_GET_BITS
      modifies this`pos, this`unreadMarker, this`getBuffer, this`bitsLeft, this`insufficientData, this`spent
      ensures Valid() && (ok ==> bitsLeft >= n)
      ensures !ok ==> unreadMarker == 0
      ensures old(unreadMarker) != 0 ==> unreadMarker != 0
      ensures unreadMarker == 0 ==> insufficientData == old(insufficientData)
      ensures insufficientData ==> old(insufficientData) || at + n > |stream|
      ensures old(Complete()) ==> ok && Complete()
    {
      ok := true;
      if bitsLeft < n {
        ok := FillBitBuffer(n);
      }
    }

    /** `PEEK_BITS`. */
    method PeekBits(n: nat) returns (v: nat)
      requires Valid() && n <= bitsLeft
      ensures v == NumberAt(stream, at, n)
    {
      FrontBits(stream, at, getBuffer, bitsLeft, spent, n);
      v := getBuffer / Shl(1, bitsLeft - n) % Shl(1, n);
    }

    /** `DROP_BITS`. */
    method DropBits(n: nat)
      requires Valid() && n <= bitsLeft
      modifies this`bitsLeft, this`at, this`spent
      ensures Valid() && at == old(at) + n && bitsLeft == old(bitsLeft) - n
    {
      hide NoFill, Ending, Coming, ReadData, Shl, NumberAt;
      FrontBits(stream, at, getBuffer, bitsLeft, spent, n);
      spent := Shl(spent, n) + NumberAt(stream, at, n);
      at := at + n;
      bitsLeft := bitsLeft - n;
    }

    /** `CHECK_BIT_BUFFER` and `GET_BITS`: the next `n` bits, or `None` to suspend. */
    method GetBits(n: nat) returns (r: Option<nat>)
      requires Valid() && n <= MIN_GET_BITS
      modifies this`pos, this`unreadMarker, this`getBuffer, this`bitsLeft, this`insufficientData, this`spent, this`at
      ensures Valid()
      ensures r.Some? ==> r.value == NumberAt(stream, old(at), n) && at == old(at) + n
      ensures r.None? ==> unreadMarker == 0
      ensures old(unreadMarker) != 0 ==> unreadMarker != 0
      ensures unreadMarker == 0 ==> insufficientData == old(insufficientData)
      ensures r.Some? && insufficientData ==> old(insufficientData) || at > |stream|
      ensures old(Complete()) ==> r.Some? && Complete()
    {
      var ok := CheckBits(n);
      if !ok { return None; }
      var v := PeekBits(n);
      DropBits(n);
      r := Some(v);
    }

    /** `jpeg_huff_decode`: the first `minBits` bits are known not to hold a shorter code. */
    method SlowDecode(table: DecoderTable, minBits: nat) returns (r: Option<byte>)
      requires Valid() && table.Valid() && 1 <= minBits <= 16
      requires NumberAt(stream, at, minBits - 1) >= Used(table.bits, minBits - 1)
      modifies this`pos, this`unreadMarker, this`getBuffer, this`bitsLeft, this`insufficientData, this`spent, this`at
      ensures Valid()
      ensures r.Some? ==> (r.value, at) == DecodeAt(table.bits, table.huffval, stream, old(at))
      ensures r.None? ==> unreadMarker == 0
      ensures old(unreadMarker) != 0 ==> unreadMarker != 0
      ensures unreadMarker == 0 ==> insufficientData == old(insufficientData)
      ensures r.Some? && insufficientData ==> old(insufficientData) || at > |stream|
      ensures old(Complete()) ==> r.Some? && Complete()
    {
      hide Valid, Complete, NumberAt, Used, ReadLength, CodesUpTo;
      ghost var start := at;
      NoShortCode(table.bits, stream, start, minBits - 1, 1);
      var l := minBits;
      var bits := GetBits(l);
      if bits.None? { return None; }
      var code := bits.value;
      while code > table.maxcode[l]
        invariant Valid() && minBits <= l <= 17 && at == start + l && code == NumberAt(stream, start, l)
        invariant ReadLength(table.bits, stream, start, 1) == ReadLength(table.bits, stream, start, l)
        invariant old(Complete()) ==> Complete()
        invariant old(unreadMarker) != 0 ==> unreadMarker != 0
        invariant unreadMarker == 0 ==> insufficientData == old(insufficientData)
        invariant insufficientData ==> old(insufficientData) || at > |stream|
        decreases 17 - l
      {
        SearchStep(table, stream, start, l);
        bits := GetBits(1);
        if bits.None? { return None; }
        code := 2 * code + bits.value;
        l := l + 1;
      }
      SearchEnd(table, stream, start, l);
      if l > 16 { return Some(0); }
      r := Some(table.huffval[code + table.valoffset[l]]);
    }

    /** `HUFF_DECODE`: looks up the next 8 bits, and goes on bit by bit when there is no code
        that short or there are not enough bits.  It gives what decoding bit by bit from
        the start would give, on any bits. */
    method HuffDecode(table: DecoderTable) returns (r: Option<byte>)
      requires Valid() && table.Valid()
      modifies this`pos, this`unreadMarker, this`getBuffer, this`bitsLeft, this`insufficientData, this`spent, this`at
      ensures Valid()
      ensures r.Some? ==> (r.value, at) == DecodeAt(table.bits, table.huffval, stream, old(at))
      ensures r.None? ==> unreadMarker == 0
      ensures old(unreadMarker) != 0 ==> unreadMarker != 0
      ensures unreadMarker == 0 ==> insufficientData == old(insufficientData)
      ensures r.Some? && insufficientData ==> old(insufficientData) || at > |stream|
      ensures old(Complete()) ==> r.Some? && Complete()
    {
      assert NumberAt(stream, at, 0) >= Used(table.bits, 0);
      hide Valid, Complete, DecoderTable.Valid, DecodeAt, NumberAt, Used;
      if bitsLeft < HUFF_LOOKAHEAD {
        var ok := FillBitBuffer(0);
        if !ok { return None; }
        if bitsLeft < HUFF_LOOKAHEAD {
          r := SlowDecode(table, 1);
          return;
        }
      }
      r := LookAhead(table);
    }

    /** Decoding with at least 8 bits in the register. */
    method LookAhead(table: DecoderTable) returns (r: Option<byte>)
      requires Valid() && table.Valid() && bitsLeft >= HUFF_LOOKAHEAD
      modifies this`pos, this`unreadMarker, this`getBuffer, this`bitsLeft, this`insufficientData, this`spent, this`at
      ensures Valid()
      ensures r.Some? ==> (r.value, at) == DecodeAt(table.bits, table.huffval, stream, old(at))
      ensures r.None? ==> unreadMarker == 0
      ensures old(unreadMarker) != 0 ==> unreadMarker != 0
      ensures unreadMarker == 0 ==> insufficientData == old(insufficientData)
      ensures r.Some? && insufficientData ==> old(insufficientData) || at > |stream|
      ensures old(Complete()) ==> r.Some? && Complete()
    {
      hide Valid, DecoderTable.Valid, DecodeAt, NumberAt, Used, EntryLength, EntrySymbol, Ending;
      var look := PeekBits(HUFF_LOOKAHEAD);
      LookupDecodes(table, stream, at, look);
      var nb := EntryLength(table.lookup[look]);
      if nb <= HUFF_LOOKAHEAD {
        var symbol := EntrySymbol(table.lookup[look]);
        DropBits(nb);
        r := Some(symbol);
      } else {
        r := SlowDecode(table, nb);
      }
    }
  }

  /** A short entry of the lookahead table is what decoding bit by bit gives; otherwise
      there is no code of up to 8 bits. */
  lemma LookupDecodes(table: DecoderTable, s: seq<bool>, at: nat, look: nat)
    requires table.Valid() && look == NumberAt(s, at, HUFF_LOOKAHEAD)
    ensures look < 256 == |table.lookup|
    ensures var nb := EntryLength(table.lookup[look]);
            if nb <= HUFF_LOOKAHEAD
            then DecodeAt(table.bits, table.huffval, s, at) == (EntrySymbol(table.lookup[look]), at + nb)
            else nb == HUFF_LOOKAHEAD + 1 && look >= Used(table.bits, HUFF_LOOKAHEAD)
  {
    hide NumberAt, Used, CodesUpTo, DecodeAt, SearchTable, HasCode;
    var k := HUFF_LOOKAHEAD;
    NumberBound(s, at, k);
    Powers();
    if look < Used(table.bits, k) {
      var p, l := ShortCode(table.bits, s, at, k);
      DecodesSymbol(table.bits, table.huffval, s, at, p, l);
      ShortIndex(table.bits, p, l);
      NumberSplit(s, at, l, k - l);
      NumberBound(s, at + l, k - l);
      ShlAdd(NumberAt(s, at, l), 1, k - l);
      assert StartsWith(table.bits, p, l, look);
      assert table.lookup[look] == 256 * l + table.huffval[p] as int;
    } else {
      assert table.lookup[look] == TOO_LONG;
    }
  }

  lemma ShortIndex(bits: seq<nat>, p: nat, l: nat)
    requires HasCode(bits, p, l) && l <= HUFF_LOOKAHEAD && Legal(bits)
    ensures p < CodesUpTo(bits, HUFF_LOOKAHEAD) <= 256
  {
    CodesOrder(bits, l, HUFF_LOOKAHEAD);
    CodesOrder(bits, HUFF_LOOKAHEAD, 16);
  }

  lemma SearchStep(table: DecoderTable, s: seq<bool>, at: nat, l: nat)
    requires table.Valid() && 1 <= l <= 17 && NumberAt(s, at, l) > table.maxcode[l]
    ensures l < 17 && ReadLength(table.bits, s, at, l) == ReadLength(table.bits, s, at, l + 1)
    ensures NumberAt(s, at, l + 1) == 2 * NumberAt(s, at, l) + NumberAt(s, at + l, 1)
  {
    NumberSplit(s, at, l, 1);
    if l == 17 {
      NumberBound(s, at, 17);
      Powers();
    }
  }

  lemma SearchEnd(table: DecoderTable, s: seq<bool>, at: nat, l: nat)
    requires table.Valid() && 1 <= l <= 17 && NumberAt(s, at, l) <= table.maxcode[l]
    requires ReadLength(table.bits, s, at, 1) == ReadLength(table.bits, s, at, l)
    ensures DecodeAt(table.bits, table.huffval, s, at).1 == at + l
    ensures l > 16 ==> DecodeAt(table.bits, table.huffval, s, at).0 == 0
    ensures l <= 16 ==> var i := NumberAt(s, at, l) + table.valoffset[l];
                        0 <= i < 256 && DecodeAt(table.bits, table.huffval, s, at).0 == table.huffval[i]
  {
    assert ReadLength(table.bits, s, at, l) == l;
    hide NumberAt, Used, CodesUpTo, Lookups, ReadLength, DecodeAt;
    FoundAt(table.bits, table.huffval, s, at, l);
    if l <= 16 { assert MaxCode(table.bits, l) >= 0; }
  }

  lemma FoundAt(bits: seq<nat>, huffval: seq<byte>, s: seq<bool>, at: nat, l: nat)
    requires Legal(bits) && |huffval| == 256 && l == ReadLength(bits, s, at, 1)
    ensures DecodeAt(bits, huffval, s, at).1 == at + l
    ensures l > 16 ==> DecodeAt(bits, huffval, s, at).0 == 0
    ensures l <= 16 ==> var i := NumberAt(s, at, l) + CodesUpTo(bits, l - 1) - 2 * Used(bits, l - 1);
                        0 <= i < 256 && DecodeAt(bits, huffval, s, at).0 == huffval[i]
  {
    hide NumberAt, Used, CodesUpTo, ReadLength;
    if l <= 16 {
      FirstLength(bits, s, at, l);
      ReadLengthIs(bits, s, at, 1);
      CodeIndex(bits, NumberAt(s, at, l - 1), NumberAt(s, at, l), l);
    }
  }

  lemma FirstLength(bits: seq<nat>, s: seq<bool>, at: nat, l: nat)
    requires |bits| == 17 && l > 0
    ensures NumberAt(s, at, 0) == 0 == Used(bits, 0) && NumberAt(s, at, l) >= 2 * NumberAt(s, at, l - 1)
  {
  }

  /** A number that is neither too small nor too large is the code of a symbol. */
  lemma CodeIndex(bits: seq<nat>, before: nat, code: nat, l: nat)
    requires Legal(bits) && 1 <= l <= 16 && before >= Used(bits, l - 1) && 2 * before <= code < Used(bits, l)
    ensures bits[l] > 0 && 0 <= code + CodesUpTo(bits, l - 1) - 2 * Used(bits, l - 1) < CodesUpTo(bits, l) <= 256
  {
    CodesOrder(bits, l, 16);
  }

  /** At the start of a segment, whatever the register holds. */
  lemma NothingBuffered(input: seq<byte>, pos: nat, buffer: nat)
    ensures Buffered(Coming(input, pos), 0, buffer, 0, buffer) && InStep(Coming(input, pos), 0, 0, input, pos, 0)
    ensures Buffered([], 0, buffer, 0, buffer) && forall code: byte | code != 0 :: InStep([], 0, 0, input, pos, code)
  {
  }

  /** Behind a marker, zeros are supplied. */
  lemma ZeroFill(stream: seq<bool>, at: nat, buffer: nat, left: nat, spent: nat, input: seq<byte>, pos: nat, marker: byte)
    returns (spent': nat)
    requires Buffered(stream, at, buffer, left, spent) && marker != 0 && InStep(stream, at, left, input, pos, marker)
    requires left <= MIN_GET_BITS
    ensures at + left >= |stream|
    ensures Buffered(stream, at, Register(Shl(buffer, MIN_GET_BITS - left)), MIN_GET_BITS, spent')
    ensures InStep(stream, at, MIN_GET_BITS, input, pos, marker)
  {
    NumberZeros(stream, at + left, MIN_GET_BITS - left);
    spent' := ShiftIn(stream, at, buffer, left, spent, MIN_GET_BITS - left);
  }
}
