/** Emitting bits: the 24-bit accumulator of jcphuff.c and the 64-bit one of jchuff.c.
  Both turn the bits written into the same bytes. */
module BitWriter {
  import opened Shifts
  import opened BitStrings
  import opened BitReader

  /** Bitwise or. */
  function Or(a: nat, b: nat): nat {
    if a == 0 then b else if b == 0 then a else 2 * Or(a / 2, b / 2) + if a % 2 == 1 || b % 2 == 1 then 1 else 0
  }

  /** Of numbers without common bits it is the sum. */
  lemma {:induction false} OrIsSum(h: nat, r: nat, n: nat)
    requires r < Shl(1, n)
    ensures Or(Shl(h, n), r) == Or(r, Shl(h, n)) == Shl(h, n) + r
    decreases n
  {
    if n > 0 && r > 0 && h > 0 {
      assert Shl(h, n) == 2 * Shl(h, n - 1);
      OrIsSum(h, r / 2, n - 1);
      OrHalves(Shl(h, n - 1), r / 2, r % 2);
    } else if h == 0 {
      ShlZero(n);
    }
  }

  lemma OrHalves(u: nat, q: nat, bit: nat)
    requires bit <= 1
    ensures Or(2 * u, 2 * q + bit) == 2 * Or(u, q) + bit && Or(2 * q + bit, 2 * u) == 2 * Or(q, u) + bit
  {
    assert 2 * u / 2 == u && 2 * u % 2 == 0;
    assert (2 * q + bit) / 2 == q && (2 * q + bit) % 2 == bit;
  }

  /** The bytes of `data` are the first bits written. */
  ghost predicate Packed(written: seq<bool>, data: seq<byte>) {
    && 8 * |data| <= |written|
    && forall i | 0 <= i < |data| :: NumberAt(written, 8 * i, 8) == data[i]
  }

  /** The number in the bits that do not fill a byte of `data`. */
  ghost function Pending(written: seq<bool>, data: seq<byte>): nat
    requires Packed(written, data)
  {
    NumberAt(written, 8 * |data|, |written| - 8 * |data|)
  }

  /** Writing `n` more bits. */
  lemma WriteBits(written: seq<bool>, data: seq<byte>, v: nat, n: nat)
    requires Packed(written, data) && v < Shl(1, n)
    ensures Packed(written + BitsOf(v, n), data)
    ensures Pending(written + BitsOf(v, n), data) == Shl(Pending(written, data), n) + v
  {
    hide NumberAt, BitsOf, Shl;
    var more := written + BitsOf(v, n);
    forall i | 0 <= i < |data| ensures NumberAt(more, 8 * i, 8) == data[i] {
      NumberSame(more, written, 8 * i, 8 * i, 8);
    }
    var at, k := 8 * |data|, |written| - 8 * |data|;
    NumberSame(more, written, at, at, k);
    NumberSplit(more, at, k, n);
    AppendedNumber(written, v, n);
  }

  lemma AppendedNumber(written: seq<bool>, v: nat, n: nat)
    requires v < Shl(1, n)
    ensures NumberAt(written + BitsOf(v, n), |written|, n) == v
  {
    NumberSame(written + BitsOf(v, n), BitsOf(v, n), |written|, 0, n);
    NumberOfBits(v, n);
  }

  /** The first 8 pending bits make the next byte. */
  lemma PackByte(written: seq<bool>, data: seq<byte>, high: nat, low: nat)
    requires Packed(written, data) && |written| >= 8 * |data| + 8
    requires Pending(written, data) == Shl(high, |written| - 8 * |data| - 8) + low
    requires low < Shl(1, |written| - 8 * |data| - 8)
    ensures high < 256 && Packed(written, data + [high]) && Pending(written, data + [high]) == low
  {
    hide NumberAt, Shl, Packed;
    var at, k := 8 * |data|, |written| - 8 * |data| - 8;
    NumberSplit(written, at, 8, k);
    NumberBound(written, at, 8);
    NumberBound(written, at + 8, k);
    HighPart(high, low, k);
    HighPart(NumberAt(written, at, 8), NumberAt(written, at + 8, k), k);
    Powers();
    PackedMore(written, data, high);
    assert 8 * |data + [high]| == at + 8;
  }

  // ----------------------------------------------------- the 24-bit accumulator

  /** `put_buffer` of jcphuff.c: the pending bits are left-justified in the right 24 bits;
      above those is whatever has been shifted out. */
  ghost predicate LeftJustified(buffer: nat, pending: nat, bits: nat) {
    bits <= 24 && exists g: nat :: buffer == Shl(g, 24) + Shl(pending, 24 - bits)
  }

  /** Aligning incoming bits and merging them with the old contents. */
  lemma Merges(buffer: nat, pending: nat, bits: nat, v: nat, n: nat)
    requires LeftJustified(buffer, pending, bits) && bits + n <= 24 && v < Shl(1, n)
    ensures LeftJustified(Or(Shl(v, 24 - bits - n), buffer), Shl(pending, n) + v, bits + n)
  {
    hide Shl;
    var g: nat :| buffer == Shl(g, 24) + Shl(pending, 24 - bits);
    var k := 24 - bits - n;
    ShlShl(1, n, k);
    ShlOrder(v, Shl(1, n), k);
    ShlOrder(Shl(1, n), v, k);
    ShlShl(g, bits, 24 - bits);
    ShlAdd(Shl(g, bits), pending, 24 - bits);
    OrIsSum(Shl(g, bits) + pending, Shl(v, k), 24 - bits);
    ShlShl(pending, n, k);
    ShlAdd(Shl(pending, n), v, k);
    assert Or(Shl(v, k), buffer) == Shl(g, 24) + Shl(Shl(pending, n) + v, k);
  }

  /** The byte at the top of the 24 bits, and what is left after shifting it out. */
  lemma TopByte(buffer: nat, pending: nat, bits: nat) returns (high: byte, low: nat)
    requires LeftJustified(buffer, pending, bits) && 8 <= bits && pending < Shl(1, bits)
    ensures high == buffer / 0x10000 % 256 && pending == Shl(high, bits - 8) + low && low < Shl(1, bits - 8)
    ensures LeftJustified(256 * buffer, low, bits - 8)
  {
    hide Shl;
    var g: nat :| buffer == Shl(g, 24) + Shl(pending, 24 - bits);
    var h;
    h, low := Divide(pending, bits - 8);
    HighFits(h, low, bits);
    var k := 24 - bits;
    ShlAdd(Shl(h, bits - 8), low, k);
    ShlShl(h, bits - 8, k);
    ShlShl(g, 8, 16);
    ShlAdd(Shl(g, 8), h, 16);
    ShlShl(1, bits - 8, k);
    ShlOrder(Shl(1, bits - 8), low, k);
    MiddleByte(g, h, Shl(low, k));
    high := h;
    ShiftedOut(buffer, Shl(g, 8) + h, low, bits);
  }

  lemma MiddleByte(g: nat, h: nat, rest: nat)
    requires h < 256 && rest < Shl(1, 16)
    ensures (Shl(Shl(g, 8) + h, 16) + rest) / 0x10000 % 256 == h
  {
    hide Shl;
    Powers();
    HighPart(Shl(g, 8) + h, rest, 16);
    HighPart(g, h, 8);
  }

  lemma ShiftedOut(buffer: nat, top: nat, low: nat, bits: nat)
    requires 8 <= bits <= 24 && buffer == Shl(top, 16) + Shl(low, 24 - bits)
    ensures LeftJustified(256 * buffer, low, bits - 8)
  {
    assert Shl(buffer, 0) == buffer;
    hide Shl;
    ShlBy8(buffer, 0);
    ShlAdd(Shl(top, 16), Shl(low, 24 - bits), 8);
    ShlShl(top, 16, 8);
    ShlShl(low, 24 - bits, 8);
    assert 256 * buffer == Shl(top, 24) + Shl(low, 24 - (bits - 8));
  }

  lemma HighFits(h: nat, low: nat, bits: nat)
    requires 8 <= bits && Shl(h, bits - 8) + low < Shl(1, bits)
    ensures h < 256
  {
    Powers();
    ShlShl(1, 8, bits - 8);
    ShlOrder(Shl(1, 8), h, bits - 8);
  }

  /** What `Stuffed` bytes are appended for. */
  lemma StuffedMore(output: seq<byte>, start: seq<byte>, data: seq<byte>, b: byte)
    requires output == start + Stuff(data)
    ensures output + Stuffed(b) == start + Stuff(data + [b])
  {
    StuffSnoc(data, b);
  }

  /** The bit output of jcphuff.c. */
  class PhuffWriter {
    var putBuffer: nat
    var putBits: nat
    var output: seq<byte>

    ghost var written: seq<bool>   // the bits of this segment
    ghost var data: seq<byte>      // the bytes they have filled
    ghost var earlier: seq<byte>   // the output before this segment

    ghost predicate Valid()
      reads this`putBuffer, this`putBits, this`output, this`written, this`data, this`earlier
    {
      && Packed(written, data) && |written| == 8 * |data| + putBits && putBits <= 7
      && LeftJustified(putBuffer, Pending(written, data), putBits)
      && output == earlier + Stuff(data)
    }

    constructor ()
      ensures Valid() && written == [] && earlier == []
    {
      putBuffer, putBits, output, written, data, earlier := 0, 0, [], [], [], [];
      new;
      ShlZero(24);
      assert putBuffer == Shl(0, 24) + Shl(Pending(written, data), 24);
    }

    /** The loop that emits whole bytes. */
    method EmitBytes(buffer: nat, bits: nat)
      requires Packed(written, data) && |written| == 8 * |data| + bits && bits <= 24
      requires LeftJustified(buffer, Pending(written, data), bits)
      requires output == earlier + Stuff(data)
      modifies this`putBuffer, this`putBits, this`output, this`data
      ensures Valid() && old(data) <= data
    {
      hide LeftJustified, Packed, Pending;
      putBuffer, putBits := buffer, bits;
      while putBits >= 8
        invariant Packed(written, data) && |written| == 8 * |data| + putBits && putBits <= 24
        invariant LeftJustified(putBuffer, Pending(written, data), putBits)
        invariant output == earlier + Stuff(data) && old(data) <= data
        decreases putBits
      {
        var c := putBuffer / 0x10000 % 256;
        PendingFits(written, data);
        ghost var high, low := TopByte(putBuffer, Pending(written, data), putBits);
        PackByte(written, data, high, low);
        StuffedMore(output, earlier, data, c);
        output := output + Stuffed(c);
        data := data + [c];
        putBuffer := 256 * putBuffer;
        putBits := putBits - 8;
      }
    }

    /** `emit_bits`: appends the lowest `size` bits of `code`.  False is the error exit for a
        symbol without a code. */
    method EmitBits(code: nat, size: nat) returns (ok: bool)
      requires Valid() && size <= 16
      modifies this`putBuffer, this`putBits, this`output, this`data, this`written
      ensures Valid() && old(data) <= data
      ensures ok <==> size > 0
      ensures written == if ok then old(written) + BitsOf(code, size) else old(written)
    {
      hide LeftJustified, Packed, Pending;
      if size == 0 { return false; }
      var v := LowBits(code, size);
      var bits := putBits + size;
      Merges(putBuffer, Pending(written, data), putBits, v, size);
      WriteBits(written, data, v, size);
      written := written + BitsOf(v, size);
      EmitBytes(Or(Shl(v, 24 - bits), putBuffer), bits);
      ok := true;
    }

    /** `flush_bits`: fills the last byte with ones; what is written is then exactly the
        bytes in `data`. */
    method FlushBits() returns (ghost d: seq<byte>)
      requires Valid()
      modifies this
      ensures Valid() && written == [] && data == [] && earlier == output
      ensures output == old(earlier) + Stuff(d) && PaddedBytes(old(written), d)
    {
      hide BitsOf, Packed, LeftJustified, NumberAt, Shl, Stuff;
      ghost var was := written;
      var ok := EmitBits(0x7F, 7);
      d := data;
      putBuffer, putBits := 0, 0;
      written, data, earlier := [], [], output;
      NothingJustified();
    }

    /** A marker behind a segment that has been flushed. */
    method EmitMarker(code: byte)
      requires Valid() && written == [] && data == []
      modifies this`output, this`earlier
      ensures Valid() && output == earlier == old(output) + [0xFF, code]
    {
      assert Stuff([]) == [];
      output := output + [0xFF, code];
      earlier := output;
    }
  }

  lemma NothingJustified()
    ensures Packed([], []) && LeftJustified(0, Pending([], []), 0) && Stuff([]) == []
  {
    ShlZero(24);
    assert 0 == Shl(0, 24) + Shl(Pending([], []), 24);
  }

  /** `v & ((1 << n) - 1)`. */
  function LowBits(v: nat, n: nat): (r: nat)
    ensures r < Shl(1, n)
    ensures BitsOf(r, n) == BitsOf(v, n)
    ensures v < Shl(1, n) ==> r == v
  {
    if n == 0 then 0 else 2 * LowBits(v / 2, n - 1) + v % 2
  }

  /** `data` holds the bits written and then fewer than 8 ones. */
  ghost predicate PaddedBytes(written: seq<bool>, data: seq<byte>) {
    && |written| <= 8 * |data| < |written| + 8
    && Packed(written + BitsOf(0x7F, 7), data)
  }

  lemma PendingFits(written: seq<bool>, data: seq<byte>)
    requires Packed(written, data)
    ensures Pending(written, data) < Shl(1, |written| - 8 * |data|)
  {
    NumberBound(written, 8 * |data|, |written| - 8 * |data|);
  }

  // ----------------------------------------------------- the 64-bit accumulator

  /** `PUT_BITS`: the register shifted left, with `v` in the places that become free. */
  lemma ShiftOr(buffer: nat, v: nat, n: nat)
    requires v < Shl(1, n) && n <= BIT_BUF_SIZE
    ensures Or(Register(Shl(buffer, n)), v) == Register(Shl(buffer, n) + v)
  {
    hide Shl, Or;
    var k := BIT_BUF_SIZE - n;
    var q, r := Divide(buffer, k);
    ShlAdd(Shl(q, k), r, n);
    ShlShl(q, k, n);
    ShlShl(1, k, n);
    ShlAdd(r, 1, n);
    ShlOrder(r + 1, Shl(1, k), n);
    OrIsSum(r, v, n);
    HighPart(q, Shl(r, n) + v, BIT_BUF_SIZE);
    HighPart(q, Shl(r, n), BIT_BUF_SIZE);
  }

  lemma RegisterDrops(top: nat, v: nat)
    ensures Register(Shl(top, BIT_BUF_SIZE) + v) == Register(v)
  {
    hide Shl;
    var q, r := Divide(v, BIT_BUF_SIZE);
    ShlAdd(top, q, BIT_BUF_SIZE);
    HighPart(top + q, r, BIT_BUF_SIZE);
    HighPart(q, r, BIT_BUF_SIZE);
  }

  lemma RegisterFits(v: nat)
    ensures v < Shl(1, BIT_BUF_SIZE) ==> Register(v) == v
    ensures v >= Shl(1, BIT_BUF_SIZE) ==> Register(v) + Shl(1, BIT_BUF_SIZE) <= v
  {
    hide Shl;
    ShlZero(BIT_BUF_SIZE);
    var q, r := Divide(v, BIT_BUF_SIZE);
    HighPart(q, r, BIT_BUF_SIZE);
    if q > 0 {
      ShlAdd(1, q - 1, BIT_BUF_SIZE);
    }
  }

  lemma Shl7()
    ensures Shl(1, 7) == 0x80
  {
  }

  /** What the register holds when 7 ones are put behind 57 or more pending bits: nothing is
      lost if and only if the pending number is below 2^57. */
  lemma SevenOnes(buffer: nat, pending: nat, bits: nat, spent: nat)
    requires buffer == Shl(spent, bits) + pending && bits >= 57
    ensures Register(Shl(buffer, 7) + 0x7F) == Register(Shl(pending, 7) + 0x7F)
    ensures pending < Shl(1, 57) <==> Shl(pending, 7) + 0x7F < Shl(1, BIT_BUF_SIZE)
  {
    hide Shl, Register;
    Shl7();
    ShlAdd(Shl(spent, bits), pending, 7);
    ShlShl(spent, bits, 7);
    ShlShl(spent, bits - 57, BIT_BUF_SIZE);
    RegisterDrops(Shl(spent, bits - 57), Shl(pending, 7) + 0x7F);
    ShlShl(1, 57, 7);
    ShlAdd(pending, 1, 7);
    ShlOrder(pending, Shl(1, 57), 7);
    ShlOrder(pending + 1, Shl(1, 57), 7);
  }

  /** The bit output of jchuff.c on a machine with 64-bit words. */
  class HuffWriter {
    var putBuffer: nat
    var putBits: nat
    var output: seq<byte>

    ghost var written: seq<bool>   // the bits of this segment
    ghost var data: seq<byte>      // the bytes they have filled
    ghost var earlier: seq<byte>   // the output before this segment
    ghost var spent: nat           // what the register still holds of those bytes

    ghost predicate Valid()
      reads this`putBuffer, this`putBits, this`output, this`written, this`data, this`earlier, this`spent
    {
      && Packed(written, data) && |written| == 8 * |data| + putBits && putBits <= 63
      && Buffered(written, 8 * |data|, putBuffer, putBits, spent)
      && output == earlier + Stuff(data)
    }

    constructor ()
      ensures Valid() && written == [] && earlier == []
    {
      hide Packed, Buffered, Stuff, NumberAt, Shl;
      putBuffer, putBits, output, written, data, earlier, spent := 0, 0, [], [], [], [], 0;
      NothingWritten();
    }

    /** `EMIT_BYTE`, for a register whose bits are those of `bits`. */
    method EmitByte(ghost bits: seq<bool>)
      requires Packed(bits, data) && |bits| == 8 * |data| + putBits && putBits >= 8
      requires Buffered(bits, 8 * |data|, putBuffer, putBits, spent) && output == earlier + Stuff(data)
      modifies this`putBits, this`output, this`data, this`spent
      ensures Packed(bits, data) && |bits| == 8 * |data| + putBits && putBits == old(putBits) - 8
      ensures Buffered(bits, 8 * |data|, putBuffer, putBits, spent) && output == earlier + Stuff(data)
      ensures |data| == |old(data)| + 1 && old(data) <= data
    {
      hide Packed, Buffered, NumberAt, Shl, Stuff;
      FrontBits(bits, 8 * |data|, putBuffer, putBits, spent, 8);
      PackNext(bits, data);
      spent := Shl(spent, 8) + NumberAt(bits, 8 * |data|, 8);
      putBits := putBits - 8;
      var c := putBuffer / Shl(1, putBits) % 256;
      StuffedMore(output, earlier, data, c);
      output := output + Stuffed(c);
      data := data + [c];
    }

    /** `PUT_BITS`. */
    method PutBits(code: nat, size: nat)
      requires Valid() && code < Shl(1, size) && putBits + size <= 63
      modifies this`putBuffer, this`putBits, this`written, this`spent
      ensures Valid() && written == old(written) + BitsOf(code, size) && putBits == old(putBits) + size
    {
      hide Packed, Pending, Register, Or, Buffered, Shl, BitsOf, NumberAt, Stuff;
      ghost var at := 8 * |data|;
      WriteBits(written, data, code, size);
      ghost var was := written;
      written := written + BitsOf(code, size);
      AppendedBits(was, at, putBuffer, putBits, spent, code, size);
      ShiftOr(putBuffer, code, size);
      spent := ShiftIn(written, at, putBuffer, putBits, spent, size);
      putBuffer := Or(Register(Shl(putBuffer, size)), code);
      putBits := putBits + size;
    }

    /** `CHECKBUF31` and `CHECKBUF47`: makes room when more than `8 * n - 1` bits are held. */
    method CheckBuf(n: nat)
      requires Valid() && 0 < n <= 6
      modifies this`putBits, this`output, this`data, this`spent
      ensures Valid() && old(data) <= data
      ensures putBits == if old(putBits) > 8 * n - 1 then old(putBits) - 8 * n else old(putBits)
    {
      hide Packed, Buffered, Stuff;
      if putBits > 8 * n - 1 {
        for i := 0 to n
          invariant Valid() && old(data) <= data && putBits == old(putBits) - 8 * i
        {
          EmitByte(written);
        }
      }
    }

    /** `EMIT_BITS`. */
    method EmitBits(code: nat, size: nat)
      requires Valid() && code < Shl(1, size) && size <= 16
      modifies this`putBuffer, this`putBits, this`output, this`data, this`written, this`spent
      ensures Valid() && written == old(written) + BitsOf(code, size) && old(data) <= data
      ensures putBits == (if old(putBits) > 47 then old(putBits) - 48 else old(putBits)) + size
    {
      CheckBuf(6);
      PutBits(code, size);
    }

    /** `EMIT_CODE`: a code and then `nbits` more bits. */
    method EmitCode(code: nat, size: nat, temp2: nat, nbits: nat)
      requires Valid() && code < Shl(1, size) && size <= 16 && nbits <= 16
      modifies this`putBuffer, this`putBits, this`output, this`data, this`written, this`spent
      ensures Valid() && written == old(written) + BitsOf(code, size) + BitsOf(temp2, nbits) && old(data) <= data
      ensures putBits == (if old(putBits) > 31 then old(putBits) - 32 else old(putBits)) + size + nbits
    {
      hide BitsOf;
      CheckBuf(4);
      PutBits(code, size);
      PutBits(LowBits(temp2, nbits), nbits);
    }

    /** `flush_bits`: the bytes hold the bits written and then ones, if and only if at most
        57 bits were pending or those in excess were zeros: nothing checks that 7 more bits
        fit into the register. */
    method FlushBits() returns (ghost d: seq<byte>)
      requires Valid()
      modifies this
      ensures Valid() && written == [] && data == [] && earlier == output
      ensures output == old(earlier) + Stuff(d) && |old(written)| <= 8 * |d| < |old(written)| + 8
      ensures PaddedBytes(old(written), d) <==> Pending(old(written), old(data)) < Shl(1, 57)
    {
      hide Packed, Buffered, Stuff, NumberAt, Shl, Flushed, Register, Or, PaddedBytes;
      ghost var was, before, w := written, data, Flushed(written, data);
      FlushedNumber(was, before, putBits + 7);
      spent := FlushRegister(was, before, putBuffer, putBits, spent);
      putBuffer := Or(Register(Shl(putBuffer, 7)), 0x7F);
      putBits := putBits + 7;
      while putBits >= 8
        invariant Packed(w, data) && |w| == 8 * |data| + putBits && before <= data
        invariant Buffered(w, 8 * |data|, putBuffer, putBits, spent) && output == earlier + Stuff(data)
        invariant earlier == old(earlier)
        decreases putBits
      {
        EmitByte(w);
      }
      FlushIntact(was, before, data);
      d := data;
      putBuffer, putBits, spent := 0, 0, 0;
      written, data, earlier := [], [], output;
      NothingWritten();
    }

    /** A marker behind a segment that has been flushed. */
    method EmitMarker(code: byte)
      requires Valid() && written == []
      modifies this`output, this`earlier
      ensures Valid() && output == earlier == old(output) + [0xFF, code]
    {
      assert data == [] && Stuff([]) == [];
      output := output + [0xFF, code];
      earlier := output;
    }
  }

  /** The bits that flushing emits: those pending and 7 ones, as far as they fit into the
      64 bits of the register. */
  ghost function Flushed(written: seq<bool>, data: seq<byte>): seq<bool>
    requires Packed(written, data)
  {
    var n := |written| + 7 - 8 * |data|;
    written[..8 * |data|] + BitsOf(Register(Shl(Pending(written, data), 7) + 0x7F), n)
  }

  lemma FlushedNumber(written: seq<bool>, data: seq<byte>, n: nat)
    requires Packed(written, data) && n == |written| + 7 - 8 * |data|
    ensures |Flushed(written, data)| == |written| + 7 && Packed(Flushed(written, data), data)
    ensures NumberAt(Flushed(written, data), 8 * |data|, n) == Register(Shl(Pending(written, data), 7) + 0x7F)
  {
    hide NumberAt, BitsOf, Shl, Register;
    var q, w := Register(Shl(Pending(written, data), 7) + 0x7F), Flushed(written, data);
    PendingFits(written, data);
    assert q < Shl(1, n) by { FlushedFits(Pending(written, data), n - 7, q); }
    forall i | 0 <= i < |data| ensures NumberAt(w, 8 * i, 8) == data[i] {
      NumberSame(w, written, 8 * i, 8 * i, 8);
    }
    AppendedNumber(written[..8 * |data|], q, n);
  }

  lemma FlushedFits(pending: nat, bits: nat, q: nat)
    requires q == Register(Shl(pending, 7) + 0x7F)
    requires pending < Shl(1, bits)
    ensures q < Shl(1, bits + 7)
  {
    hide Shl, Register;
    Shl7();
    ShlAdd(pending, 1, 7);
    ShlOrder(Shl(1, bits), pending + 1, 7);
    ShlShl(1, bits, 7);
    RegisterFits(Shl(pending, 7) + 0x7F);
  }

  /** The register after `PUT_BITS(0x7F, 7)`. */
  lemma FlushRegister(written: seq<bool>, data: seq<byte>, buffer: nat, bits: nat, spent: nat) returns (spent': nat)
    requires Packed(written, data) && |written| == 8 * |data| + bits && bits <= 63
    requires Buffered(written, 8 * |data|, buffer, bits, spent)
    ensures Buffered(Flushed(written, data), 8 * |data|, Or(Register(Shl(buffer, 7)), 0x7F), bits + 7, spent')
  {
    hide NumberAt, BitsOf, Shl, Register, Or, Flushed, Packed;
    var at, pending := 8 * |data|, Pending(written, data);
    Shl7();
    ShiftOr(buffer, 0x7F, 7);
    FlushedNumber(written, data, bits + 7);
    if bits >= 57 {
      SevenOnes(buffer, pending, bits, spent);
      spent' := 0;
      ShlZero(bits + 7);
    } else {
      WriteBits(written, data, 0x7F, 7);
      AppendedBits(written, at, buffer, bits, spent, 0x7F, 7);
      spent' := ShiftIn(written + BitsOf(0x7F, 7), at, buffer, bits, spent, 7);
      NumberBound(written + BitsOf(0x7F, 7), at, bits + 7);
      ShlExponent(bits + 7, BIT_BUF_SIZE);
      RegisterFits(Shl(pending, 7) + 0x7F);
    }
  }

  /** What has been flushed holds the bits written and then ones, if and only if the pending
      bits leave room for 7 ones in the register. */
  lemma FlushIntact(written: seq<bool>, data: seq<byte>, d: seq<byte>)
    requires Packed(written, data) && |written| <= 8 * |data| + 63
    requires data <= d && Packed(Flushed(written, data), d) && |written| <= 8 * |d| < |written| + 8
    ensures PaddedBytes(written, d) <==> Pending(written, data) < Shl(1, 57)
  {
    hide BitsOf, Shl, Register, Flushed;
    var w, v := Flushed(written, data), written + BitsOf(0x7F, 7);
    var at, n := 8 * |data|, |written| + 7 - 8 * |data|;
    Shl7();
    FlushedNumber(written, data, n);
    WriteBits(written, data, 0x7F, 7);
    PendingFits(written, data);
    RoomForOnes(Pending(written, data), n - 7);
    if Pending(written, data) < Shl(1, 57) {
      SameBytes(w, v, data, d);
    } else if Packed(v, d) {
      FirstByteSame(w, v, data, d);
      assert false;
    }
  }

  lemma RoomForOnes(pending: nat, bits: nat)
    requires pending < Shl(1, bits) && bits <= 63
    ensures pending < Shl(1, 57) ==> Register(Shl(pending, 7) + 0x7F) == Shl(pending, 7) + 0x7F
    ensures pending >= Shl(1, 57) ==>
              57 < bits && Register(Shl(pending, 7) + 0x7F) + Shl(1, BIT_BUF_SIZE) <= Shl(pending, 7) + 0x7F
  {
    hide Shl, Register;
    Shl7();
    ShlAdd(pending, 1, 7);
    ShlShl(1, 57, 7);
    ShlOrder(pending, Shl(1, 57), 7);
    ShlOrder(pending + 1, Shl(1, 57), 7);
    RegisterFits(Shl(pending, 7) + 0x7F);
    if bits < 57 { ShlExponent(bits, 57); }
  }

  lemma SameBytes(w: seq<bool>, v: seq<bool>, data: seq<byte>, d: seq<byte>)
    requires Packed(w, data) && Packed(v, data) && data <= d && Packed(w, d) && |w| == |v|
    requires Pending(w, data) == Pending(v, data)
    ensures Packed(v, d)
  {
    hide NumberAt;
    var at, n := 8 * |data|, |w| - 8 * |data|;
    NumbersDetermine(w, v, at, at, n);
    forall i | 0 <= i < |d| ensures NumberAt(v, 8 * i, 8) == d[i] {
      if i < |data| {
        assert data[i] == d[i];
      } else {
        NumberSame(w, v, 8 * i, 8 * i, 8);
      }
    }
  }

  /** If the first byte is the same, little can differ. */
  lemma FirstByteSame(w: seq<bool>, v: seq<bool>, data: seq<byte>, d: seq<byte>)
    requires Packed(w, data) && Packed(v, data) && data < d && Packed(w, d) && Packed(v, d) && |w| == |v|
    requires |w| - 8 * |data| <= 70
    ensures Pending(v, data) < Pending(w, data) + Shl(1, BIT_BUF_SIZE)
  {
    hide NumberAt, Shl;
    var at, n := 8 * |data|, |w| - 8 * |data|;
    assert NumberAt(w, 8 * |data|, 8) == d[|data|] == NumberAt(v, 8 * |data|, 8);
    NumberSplit(w, at, 8, n - 8);
    NumberSplit(v, at, 8, n - 8);
    NumberBound(v, at + 8, n - 8);
    ShlExponent(n - 8, BIT_BUF_SIZE);
  }

  lemma NothingWritten()
    ensures Packed([], []) && Buffered([], 0, 0, 0, 0) && Stuff([]) == []
  {
    assert Shl(0, 0) == 0 && NumberAt([], 0, 0) == 0;
  }

  lemma PackNext(bits: seq<bool>, data: seq<byte>)
    requires Packed(bits, data) && |bits| >= 8 * |data| + 8
    ensures Shl(1, 8) == 256 && NumberAt(bits, 8 * |data|, 8) < 256
    ensures Packed(bits, data + [NumberAt(bits, 8 * |data|, 8)])
  {
    hide NumberAt, Shl;
    Powers();
    NumberBound(bits, 8 * |data|, 8);
    PackedMore(bits, data, NumberAt(bits, 8 * |data|, 8));
  }

  lemma PackedMore(bits: seq<bool>, data: seq<byte>, c: byte)
    requires Packed(bits, data) && |bits| >= 8 * |data| + 8 && c == NumberAt(bits, 8 * |data|, 8)
    ensures Packed(bits, data + [c])
  {
    hide NumberAt;
  }

  lemma AppendedBits(written: seq<bool>, at: nat, buffer: nat, left: nat, spent: nat, v: nat, n: nat)
    requires at + left == |written| && Buffered(written, at, buffer, left, spent) && v < Shl(1, n)
    ensures Buffered(written + BitsOf(v, n), at, buffer, left, spent)
    ensures NumberAt(written + BitsOf(v, n), at + left, n) == v
  {
    NumberSame(written + BitsOf(v, n), written, at, at, left);
    AppendedNumber(written, v, n);
  }
}
