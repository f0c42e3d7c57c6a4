/** The bits that are written are the bits that are read, whichever writer was used. */
module BitCodec {
  import opened Shifts
  import opened EntropySource
  import opened BitStrings
  import opened BitReader
  import opened BitWriter
  import opened Wrappers

  lemma {:induction false} StuffInjective(a: seq<byte>, b: seq<byte>)
    requires Stuff(a) == Stuff(b)
    ensures a == b
    decreases |a|
  {
    hide StuffFirst;
    NoneStuffed(a);
    NoneStuffed(b);
    if a != [] && b != [] {
      StuffCons(a);
      StuffCons(b);
      var s, t := Stuff(a), Stuff(b);
      assert s[0] == a[0] && t[0] == b[0];
      assert s[|Stuffed(a[0])|..] == Stuff(a[1..]) && t[|Stuffed(b[0])|..] == Stuff(b[1..]);
      StuffInjective(a[1..], b[1..]);
      assert a == [a[0]] + a[1..] && b == [b[0]] + b[1..];
    }
  }

  lemma NoneStuffed(a: seq<byte>)
    ensures Stuff(a) == [] <==> a == []
  {
    if a != [] { StuffCons(a); }
  }

  /** The bytes are determined by the bits. */
  lemma PaddedUnique(written: seq<bool>, a: seq<byte>, b: seq<byte>)
    requires PaddedBytes(written, a) && PaddedBytes(written, b)
    ensures a == b
  {
    hide NumberAt, BitsOf;
    var w := written + BitsOf(0x7F, 7);
    forall i | 0 <= i < |a| ensures a[i] == b[i] {
      assert NumberAt(w, 8 * i, 8) == a[i] && NumberAt(w, 8 * i, 8) == b[i];
    }
  }

  /** The bits a reader gets from a stuffed segment are those of its data bytes. */
  lemma {:induction false} ComingIs(input: seq<byte>, pos: nat, d: seq<byte>, marker: byte)
    requires Holds(input, pos, d, marker)
    ensures |Coming(input, pos)| == 8 * |d| && Packed(Coming(input, pos), d)
    ensures Ending(input, pos).Marker?
    decreases |d|
  {
    hide BitsOf, NumberAt;
    if d != [] {
      var next := ReadData(input, pos).next;
      ComingIs(input, next, d[1..], marker);
      ByteInFront(d[0], Coming(input, next), d[1..]);
      assert d == [d[0]] + d[1..];
    }
  }

  lemma ByteInFront(b: byte, rest: seq<bool>, d: seq<byte>)
    requires Packed(rest, d)
    ensures Packed(BitsOf(b, 8) + rest, [b] + d)
  {
    hide BitsOf, NumberAt;
    var s, e := BitsOf(b, 8) + rest, [b] + d;
    forall i | 0 <= i < |e| ensures NumberAt(s, 8 * i, 8) == e[i] {
      if i == 0 {
        NumberSame(s, BitsOf(b, 8), 0, 0, 8);
        Powers();
        NumberOfBits(b, 8);
      } else {
        NumberSame(s, rest, 8 * i, 8 * (i - 1), 8);
        assert NumberAt(rest, 8 * (i - 1), 8) == d[i - 1];
      }
    }
  }

  /** So a reader finds the bits that were written. */
  lemma StreamHolds(written: seq<bool>, d: seq<byte>, stream: seq<bool>, i: nat)
    requires PaddedBytes(written, d) && Packed(stream, d) && i < |written|
    ensures BitAt(stream, i) == BitAt(written, i)
  {
    hide NumberAt, BitsOf;
    var w := written + BitsOf(0x7F, 7);
    var k := i / 8;
    assert NumberAt(w, 8 * k, 8) == d[k] == NumberAt(stream, 8 * k, 8);
    NumbersDetermine(stream, w, 8 * k, 8 * k, 8);
  }

  /** A code and its size in bits. */
  datatype Item = Item(code: nat, size: nat)

  ghost predicate Fits(items: seq<Item>) {
    forall k | 0 <= k < |items| :: 0 < items[k].size <= 16 && items[k].code < Shl(1, items[k].size)
  }

  ghost function Joined(items: seq<Item>, n: nat): (bits: seq<bool>)
    requires n <= |items|
  {
    if n == 0 then [] else Joined(items, n - 1) + BitsOf(items[n - 1].code, items[n - 1].size)
  }

  /** How many bits the 64-bit accumulator holds after `n` items. */
  ghost function Held(items: seq<Item>, n: nat): nat
    requires n <= |items|
  {
    if n == 0 then 0
    else
      var held := Held(items, n - 1);
      (if held > 47 then held - 48 else held) + items[n - 1].size
  }

  lemma {:induction false} JoinedPrefix(items: seq<Item>, m: nat, n: nat)
    requires m <= n <= |items|
    ensures Joined(items, m) <= Joined(items, n)
    decreases n
  {
    if m < n { JoinedPrefix(items, m, n - 1); }
  }

  /** The item stands in the bits of all items, behind those before it. */
  lemma ItemAt(items: seq<Item>, k: nat, stream: seq<bool>)
    requires Fits(items) && k < |items|
    requires forall i | 0 <= i < |Joined(items, |items|)| :: BitAt(stream, i) == BitAt(Joined(items, |items|), i)
    ensures NumberAt(stream, |Joined(items, k)|, items[k].size) == items[k].code
  {
    hide Shl, BitsOf, NumberAt;
    var at, n, all := |Joined(items, k)|, items[k].size, Joined(items, |items|);
    JoinedPrefix(items, k + 1, |items|);
    var part := BitsOf(items[k].code, n);
    NumberOfBits(items[k].code, n);
    forall i | at <= i < at + n ensures BitAt(stream, i) == BitAt(part, i - at) {
      assert all[i] == Joined(items, k + 1)[i] == part[i - at];
    }
    NumberSame(stream, part, at, 0, n);
  }

  method WriteNarrow(items: seq<Item>) returns (bytes: seq<byte>, ghost d: seq<byte>)
    requires Fits(items)
    ensures bytes == Stuff(d) && PaddedBytes(Joined(items, |items|), d)
  {
    hide PhuffWriter.Valid, BitsOf, PaddedBytes, Stuff, Shl;
    var writer := new PhuffWriter();
    for k := 0 to |items|
      invariant writer.Valid() && fresh(writer) && writer.written == Joined(items, k) && writer.earlier == []
    {
      var ok := writer.EmitBits(items[k].code, items[k].size);
    }
    d := writer.FlushBits();
    bytes := writer.output;
  }

  method WriteWide(items: seq<Item>) returns (bytes: seq<byte>, ghost d: seq<byte>)
    requires Fits(items)
    ensures bytes == Stuff(d)
    ensures var all, held := Joined(items, |items|), Held(items, |items|);
            held <= 63 && held <= |all| && |all| <= 8 * |d| < |all| + 8
            && (PaddedBytes(all, d) <==> NumberAt(all, |all| - held, held) < Shl(1, 57))
  {
    hide BitsOf, PaddedBytes, Stuff, Shl, Packed, NumberAt, Buffered;
    var writer := new HuffWriter();
    for k := 0 to |items|
      invariant writer.Valid() && fresh(writer) && writer.written == Joined(items, k) && writer.earlier == []
      invariant writer.putBits == Held(items, k)
    {
      writer.EmitBits(items[k].code, items[k].size);
    }
    d := writer.FlushBits();
    bytes := writer.output;
  }

  method ReadItems(input: seq<byte>, items: seq<Item>, ghost d: seq<byte>, ghost marker: byte) returns (codes: seq<nat>)
    requires Fits(items) && marker != 0 && Holds(input, 0, d, marker) && PaddedBytes(Joined(items, |items|), d)
    ensures |codes| == |items| && forall k | 0 <= k < |items| :: codes[k] == items[k].code
  {
    hide Reader.Valid, PaddedBytes, NumberAt, BitsOf, Holds, Packed;
    ComingIs(input, 0, d, marker);
    var reader := new Reader(input, |input|);
    ghost var stream := reader.stream;
    forall i | 0 <= i < |Joined(items, |items|)|
      ensures BitAt(stream, i) == BitAt(Joined(items, |items|), i)
    {
      StreamHolds(Joined(items, |items|), d, stream, i);
    }
    codes := [];
    for k := 0 to |items|
      invariant reader.Valid() && reader.Complete() && fresh(reader) && reader.stream == stream
      invariant reader.at == |Joined(items, k)|
      invariant |codes| == k && forall j | 0 <= j < k :: codes[j] == items[j].code
    {
      ItemAt(items, k, stream);
      var r := reader.GetBits(items[k].size);
      codes := codes + [r.value];
    }
  }

  /** Both writers turn any codes into the same bytes, except that the wide one, when it is
      flushed with more than 57 bits pending, loses bits unless those in excess are zeros;
      the codes are read back from the bytes, whatever follows. */
  method RoundTrip(items: seq<Item>, fill: nat, marker: byte, tail: seq<byte>)
    returns (narrow: seq<byte>, wide: seq<byte>, codes: seq<nat>)
    requires Fits(items) && marker != 0 && marker != 0xFF
    ensures var all, held := Joined(items, |items|), Held(items, |items|);
            held <= |all| && (wide == narrow <==> NumberAt(all, |all| - held, held) < Shl(1, 57))
    ensures |codes| == |items| && forall k | 0 <= k < |items| :: codes[k] == items[k].code
  {
    hide PaddedBytes, NumberAt, Shl, Fits, Stuff, Holds;
    ghost var d, e;
    narrow, d := WriteNarrow(items);
    wide, e := WriteWide(items);
    if PaddedBytes(Joined(items, |items|), e) { PaddedUnique(Joined(items, |items|), d, e); }
    if wide == narrow { StuffInjective(d, e); }
    var input := narrow + MarkerBytes(fill, marker) + tail;
    assert input[0..] == input;
    Unstuffs(input, 0, d, fill, marker);
    codes := ReadItems(input, items, d, marker);
  }
}
