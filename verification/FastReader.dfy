/** The bit fetching of the fast path of jdhuff.c: no check for the end of the input, because
  enough bytes are known to be there. */
module FastReader {
  import opened Shifts
  import opened EntropySource
  import opened BitStrings
  import opened CodeLengths
  import opened CanonicalCodes
  import opened HuffmanTables
  import opened CodeEvents
  import opened BitReader
  import opened Wrappers

  /** What a byte of the data looks like to someone who sees this byte and the next: after
      two bytes of 0xFF it is not known yet whether there is a marker. */
  lemma TwoBytes(input: seq<byte>, pos: nat)
    requires pos + 1 < |input|
    ensures input[pos] != 0xFF ==> ReadData(input, pos) == Data(input[pos], pos + 1)
    ensures input[pos] == 0xFF && input[pos + 1] == 0 ==> ReadData(input, pos) == Data(0xFF, pos + 2)
    ensures input[pos] == 0xFF && input[pos + 1] != 0 && NoFill(input, pos) ==> ReadData(input, pos).Marker?
  {
    if input[pos] == 0xFF && input[pos + 1] == 0xFF {
      SkipsAtLeast(input, pos + 2);
    }
  }

  lemma SkipsAtLeast(input: seq<byte>, pos: nat)
    ensures SkipFill(input, pos) >= pos
  {
  }

  class Fetcher {
    const input: seq<byte>
    const available: nat
    var pos: nat
    var unreadMarker: byte
    var getBuffer: nat
    var bitsLeft: nat
    ghost const stream: seq<bool>
    ghost const ending: Read
    ghost const origin: nat        // where the input and the stream stood at first
    ghost const bits: nat
    ghost const plain: bool        // no fill bytes in the data
    ghost var at: nat
    ghost var spent: nat
    ghost var lost: bool           // fill bytes have been taken for a marker

    ghost predicate Valid()
      reads this
    {
      && available <= |input| && bitsLeft <= BIT_BUF_SIZE && origin <= pos
      && (!lost ==> InTouch()) && (unreadMarker == 0 ==> !lost) && (plain ==> !lost && NoFill(input, pos))
      && (lost ==> pos + 1 < available && input[pos] == 0xFF && input[pos + 1] != 0)
    }

    /** The register holds the next bits of the stream, behind a marker zeros. */
    ghost predicate InTouch()
      reads this
    {
      && Buffered(stream, at, getBuffer, bitsLeft, spent) && 4 * (pos - origin) <= at + bitsLeft - bits
      && (unreadMarker == 0 ==> InStep(stream, at, bitsLeft, input, pos, 0) && Ending(input, pos) == ending)
      && (unreadMarker != 0 ==> at + bitsLeft >= |stream| && ReadData(input, pos).Marker?)
    }

    /** There is room to fetch 48 more bits. */
    ghost predicate Room()
      reads this`at, this`lost
    {
      lost || at + 64 - bits <= 4 * (available - origin) - 8
    }

    /** `BITREAD_LOAD_STATE`. */
    constructor (reader: Reader)
      requires reader.Saved() && reader.unreadMarker == 0
      ensures Valid() && input == reader.input && available == reader.available && pos == reader.savedPos == origin
      ensures unreadMarker == 0 && getBuffer == reader.savedBuffer && bitsLeft == reader.savedLeft
      ensures stream == reader.stream && at == reader.savedAt && bits == at + bitsLeft && ending == reader.ending
      ensures !lost && plain == reader.plain
    {
      input, available, pos, unreadMarker := reader.input, reader.available, reader.savedPos, 0;
      getBuffer, bitsLeft := reader.savedBuffer, reader.savedLeft;
      stream, ending, origin, bits := reader.stream, reader.ending, reader.savedPos, reader.savedAt + reader.savedLeft;
      at, spent, lost, plain := reader.savedAt, reader.savedSpent, false, reader.plain;
    }

    /** `GET_BYTE`: behind a marker, zeros. */
    method GetByte()
      requires Valid() && bitsLeft <= 56 && pos + 1 < available
      modifies this`pos, this`unreadMarker, this`getBuffer, this`bitsLeft, this`spent, this`lost
      ensures Valid() && bitsLeft == old(bitsLeft) + 8 && (old(lost) ==> lost)
    {
      hide Buffered, InStep, ReadData, Ending, Register, NumberAt, Shl, NoFill;
      var c0, c1 := input[pos], input[pos + 1];
      TwoBytes(input, pos);
      ghost var left := bitsLeft;
      if !lost && (c0 != 0xFF || c1 == 0 || ReadData(input, pos).Marker?) {
        ByteIs(stream, at, left, input, pos, unreadMarker);
        spent := ShiftIn(stream, at, getBuffer, left, spent, 8);
      }
      if plain { FillFree(input, pos); }
      ShlZero8(getBuffer);
      if c0 == 0xFF && c1 != 0 {
        lost := lost || !ReadData(input, pos).Marker?;
        unreadMarker := c1;
        getBuffer := Register(256 * getBuffer);
      } else {
        pos := if c0 == 0xFF then pos + 2 else pos + 1;
        getBuffer := Register(256 * getBuffer + c0);
      }
      bitsLeft := bitsLeft + 8;
    }

    /** `FILL_BIT_BUFFER_FAST`. */
    method Fill()
      requires Valid() && Room()
      modifies this`pos, this`unreadMarker, this`getBuffer, this`bitsLeft, this`spent, this`lost
      ensures Valid() && bitsLeft > 16 && (old(lost) ==> lost)
    {
      hide Buffered, InStep, ReadData, Ending, NoFill;
      if bitsLeft <= 16 {
        for i := 0 to 6
          invariant Valid() && bitsLeft == old(bitsLeft) + 8 * i && (old(lost) ==> lost)
        {
          GetByte();
        }
      }
    }

    /** `PEEK_BITS`. */
    method Peek(n: nat) returns (v: nat)
      requires Valid() && n <= bitsLeft
      ensures v < Shl(1, n) && (!lost ==> v == NumberAt(stream, at, n))
    {
      hide InStep, ReadData, Ending, NoFill;
      if !lost { FrontBits(stream, at, getBuffer, bitsLeft, spent, n); }
      ShlPositive(n);
      ShlPositive(bitsLeft - n);
      v := getBuffer / Shl(1, bitsLeft - n) % Shl(1, n);
    }

    /** `DROP_BITS`. */
    method Drop(n: nat)
      requires Valid() && n <= bitsLeft
      modifies this`bitsLeft, this`at, this`spent
      ensures Valid() && at == old(at) + n && bitsLeft == old(bitsLeft) - n
    {
      hide ReadData, Ending, NoFill, Coming, NumberAt, Shl;
      if !lost {
        FrontBits(stream, at, getBuffer, bitsLeft, spent, n);
        spent := Shl(spent, n) + NumberAt(stream, at, n);
      }
      at := at + n;
      bitsLeft := bitsLeft - n;
    }

    /** `GET_BITS`. */
    method Get(n: nat) returns (v: nat)
      requires Valid() && n <= bitsLeft
      modifies this`bitsLeft, this`at, this`spent
      ensures Valid() && at == old(at) + n && bitsLeft == old(bitsLeft) - n
      ensures v < Shl(1, n) && (!lost ==> v == NumberAt(stream, old(at), n))
    {
      hide Valid, NumberAt, Shl;
      v := Peek(n);
      Drop(n);
    }

    /** `HUFF_DECODE_FAST`: on a valid code it finds what decoding bit by bit finds. */
    method Decode(table: DecoderTable) returns (s: byte)
      requires Valid() && Room() && table.Valid() && (!lost ==> ReadLength(table.bits, stream, at, 1) <= 16)
      modifies this`pos, this`unreadMarker, this`getBuffer, this`bitsLeft, this`at, this`spent, this`lost
      ensures |table.huffval| == 256 && (s == 0 || s in table.huffval)
      ensures Valid() && (old(lost) ==> lost) && (!lost ==> (s, at) == DecodeAt(table.bits, table.huffval, stream, old(at)))
    {
      hide Valid, DecoderTable.Valid, DecodeAt, NumberAt, Used, EntryLength, EntrySymbol, ReadLength, Shl;
      Fill();
      var look := Peek(HUFF_LOOKAHEAD);
      Powers();
      EntriesShort(table, look);
      TableSizes(table);
      if !lost { LookupDecodes(table, stream, at, look); }
      var nb := EntryLength(table.lookup[look]);
      if nb <= HUFF_LOOKAHEAD {
        Drop(nb);
        s := EntrySymbol(table.lookup[look]);
      } else {
        s := DecodeLong(table, nb);
      }
    }

    /** The codes that are not in the lookahead table. */
    method DecodeLong(table: DecoderTable, nb: nat) returns (s: byte)
      requires Valid() && table.Valid() && nb == HUFF_LOOKAHEAD + 1 && bitsLeft > 16
      requires !lost ==> ReadLength(table.bits, stream, at, 1) <= 16
      requires !lost ==> NumberAt(stream, at, HUFF_LOOKAHEAD) >= Used(table.bits, HUFF_LOOKAHEAD)
      modifies this`bitsLeft, this`at, this`spent
      ensures |table.huffval| == 256 && s in table.huffval
      ensures Valid() && (!lost ==> (s, at) == DecodeAt(table.bits, table.huffval, stream, old(at)))
    {
      hide Valid, NumberAt, Used, ReadLength, CodesUpTo, Shl;
      ghost var start := at;
      if !lost { NoShortCode(table.bits, stream, start, nb - 1, 1); }
      var l := nb;
      var code := Get(l);
      while code > table.maxcode[l]
        invariant Valid() && nb <= l <= 17 && at == start + l && code < Shl(1, l) && bitsLeft >= 17 - l
        invariant !lost ==> code == NumberAt(stream, start, l)
                            && ReadLength(table.bits, stream, start, 1) == ReadLength(table.bits, stream, start, l)
        decreases 17 - l
      {
        Sentinel(table, code, l);
        if !lost { SearchStep(table, stream, start, l); }
        var bit := Get(1);
        code := 2 * code + bit;
        l := l + 1;
      }
      if !lost {
        SearchEnd(table, stream, start, l);
        LengthHere(table, stream, start, l);
      }
      s := table.huffval[(code + table.valoffset[l]) % 256];
    }
  }

  /** The search ends at 17 bits, whatever they are. */
  lemma Sentinel(table: DecoderTable, code: nat, l: nat)
    requires table.Valid() && 1 <= l <= 17 && code < Shl(1, l) && code > table.maxcode[l]
    ensures l < 17 && Shl(1, 1) == 2 && Shl(1, l + 1) == 2 * Shl(1, l)
  {
    Powers();
    assert Shl(1, 17) == 2 * Shl(1, 16);
  }

  /** An entry of the lookahead table has at most 8 bits, or stands for a longer code. */
  lemma EntriesShort(table: DecoderTable, look: nat)
    requires table.Valid() && look < 256
    ensures |table.lookup| == 256 && EntryLength(table.lookup[look]) <= HUFF_LOOKAHEAD + 1
    ensures EntryLength(table.lookup[look]) <= HUFF_LOOKAHEAD ==>
              EntrySymbol(table.lookup[look]) == 0 || EntrySymbol(table.lookup[look]) in table.huffval
  {
    hide DecoderTable.Valid, NumberAt, BitsOf, Used, CodesUpTo, ReadLength;
    TableSizes(table);
    Powers();
    NumberOfBits(look, HUFF_LOOKAHEAD);
    LookupDecodes(table, BitsOf(look, HUFF_LOOKAHEAD), 0, look);
  }

  /** The length found is that of the code. */
  lemma LengthHere(table: DecoderTable, stream: seq<bool>, at: nat, l: nat)
    requires table.Valid() && 1 <= l <= 17 && NumberAt(stream, at, l) <= table.maxcode[l]
    requires ReadLength(table.bits, stream, at, 1) == ReadLength(table.bits, stream, at, l) <= 16
    ensures l <= 16
  {
    assert ReadLength(table.bits, stream, at, l) == l;
  }

  lemma ShlZero8(v: nat)
    ensures Shl(v, 8) == 256 * v
  {
    ShlBy8(v, 0);
  }

  /** The next 8 bits of the stream. */
  lemma ByteIs(stream: seq<bool>, at: nat, left: nat, input: seq<byte>, pos: nat, marker: byte)
    requires marker == 0 ==> InStep(stream, at, left, input, pos, 0)
    requires marker != 0 ==> at + left >= |stream| && ReadData(input, pos).Marker?
    ensures var r := ReadData(input, pos);
            && (r.Data? ==> NumberAt(stream, at + left, 8) == r.b && InStep(stream, at, left + 8, input, r.next, 0)
                            && Ending(input, r.next) == Ending(input, pos))
            && (r.Marker? ==> NumberAt(stream, at + left, 8) == 0 && at + left >= |stream| && r.code != 0)
  {
    hide NumberAt, BitsOf;
    var r := ReadData(input, pos);
    if r.Data? { NextByte(stream, at, left, input, pos, r.b, r.next); }
    if r.Marker? {
      if marker == 0 { NextMarker(stream, at, left, input, pos, r.code, r.next); }
      NumberZeros(stream, at + left, 8);
      MarkerNotZero(input, pos);
    }
  }

  lemma MarkerNotZero(input: seq<byte>, pos: nat)
    requires ReadData(input, pos).Marker?
    ensures ReadData(input, pos).code != 0
  {
  }
}
