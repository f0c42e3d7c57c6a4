/** The input side shared by both entropy decoders: removing stuffed zeros and finding
  the marker that ends a segment (jdarith.c, jdhuff.c). */
module EntropySource {
  import opened Shifts

  /** What the next read yields: a data byte, a marker, or the end of the input. */
  datatype Read = Data(b: byte, next: nat) | Marker(code: byte, next: nat) | Exhausted

  /** 0xFF followed by zero is a data byte; further 0xFF bytes are swallowed; anything
      else after 0xFF is a marker code. */
  function ReadData(input: seq<byte>, pos: nat): (r: Read)
    ensures !r.Exhausted? ==> pos < r.next <= |input|
  {
    if pos >= |input| then Exhausted
    else if input[pos] != 0xFF then Data(input[pos], pos + 1)
    else
      var p := SkipFill(input, pos + 1);
      if p >= |input| then Exhausted
      else if input[p] == 0 then Data(0xFF, p + 1)
      else Marker(input[p], p + 1)
  }

  /** The first position from `pos` on that does not hold 0xFF. */
  function SkipFill(input: seq<byte>, pos: nat): (p: nat)
    ensures pos <= p && (p <= |input| || p == pos)
    ensures p < |input| ==> input[p] != 0xFF
    decreases |input| - pos
  {
    if pos < |input| && input[pos] == 0xFF then SkipFill(input, pos + 1) else pos
  }

  /** What ends the data from `pos` on: a marker or the end of the input. */
  function Ending(input: seq<byte>, pos: nat): (r: Read)
    ensures !r.Data? && (r.Marker? ==> r.code != 0 && pos < r.next <= |input|)
    decreases |input| - pos
  {
    match ReadData(input, pos)
    case Data(b, next) => Ending(input, next)
    case _ => ReadData(input, pos)
  }

  /** From `pos` on, `input` holds the stuffed bytes of `data` and then a marker. */
  ghost predicate Holds(input: seq<byte>, pos: nat, data: seq<byte>, marker: byte)
    decreases |data|
  {
    if data == [] then ReadData(input, pos).Marker? && ReadData(input, pos).code == marker
    else
      var r := ReadData(input, pos);
      r.Data? && r.b == data[0] && Holds(input, r.next, data[1..], marker)
  }

  /** There is a marker, and there are no fill bytes inside the data before it, only stuffed
      zeros; encoders never put any there. */
  ghost predicate NoFill(input: seq<byte>, pos: nat)
    decreases |input| - pos
  {
    match ReadData(input, pos)
    case Data(b, next) => (b == 0xFF ==> next == pos + 2) && NoFill(input, next)
    case Marker(code, next) => true
    case Exhausted => false
  }

  lemma FillFree(input: seq<byte>, pos: nat)
    requires NoFill(input, pos)
    ensures var r := ReadData(input, pos);
            (r.Data? ==> NoFill(input, r.next)) && !r.Exhausted?
  {
  }

  /** Any number of fill bytes may stand before a marker code. */
  function MarkerBytes(fill: nat, marker: byte): seq<byte> {
    Fill(255, fill) + [255, marker]
  }

  lemma {:induction false} SkipsFill(input: seq<byte>, pos: nat, n: nat)
    requires pos + n < |input| && input[pos + n] != 255
    requires forall i | pos <= i < pos + n :: input[i] == 255
    ensures SkipFill(input, pos) == pos + n
    decreases n
  {
    if n > 0 { SkipsFill(input, pos + 1, n - 1); }
  }

  lemma ReadsMarker(input: seq<byte>, pos: nat, fill: nat, marker: byte)
    requires marker != 0 && marker != 255 && pos <= |input|
    requires MarkerBytes(fill, marker) <= input[pos..]
    ensures ReadData(input, pos) == Marker(marker, pos + fill + 2)
  {
    var rest, code := input[pos..], MarkerBytes(fill, marker);
    forall i | 0 <= i < fill + 2 ensures input[pos + i] == code[i] {
      assert rest[i] == code[i];
    }
    SkipsFill(input, pos + 1, fill);
  }

  /** Fill bytes before a zero belong to one data byte 0xFF. */
  lemma ReadsFilled(input: seq<byte>, pos: nat, n: nat)
    requires pos + n + 1 < |input| && input[pos + n + 1] == 0
    requires forall i | pos <= i <= pos + n :: input[i] == 255
    ensures ReadData(input, pos) == Data(0xFF, pos + n + 2)
  {
    SkipsFill(input, pos + 1, n);
  }

  lemma ReadsByte(input: seq<byte>, pos: nat, b: byte)
    requires pos <= |input| && Stuffed(b) <= input[pos..]
    ensures ReadData(input, pos) == Data(b, pos + |Stuffed(b)|)
  {
    var rest := input[pos..];
    assert input[pos] == rest[0] == b;
    if b == 255 {
      assert input[pos + 1] == rest[1] == 0;
      SkipsFill(input, pos + 1, 0);
    }
  }

  /** Removing the stuffing gives back the data, and then the marker. */
  lemma {:induction false} Unstuffs(input: seq<byte>, pos: nat, data: seq<byte>, fill: nat, marker: byte)
    requires marker != 0 && marker != 255 && pos <= |input|
    requires Stuff(data) + MarkerBytes(fill, marker) <= input[pos..]
    ensures Holds(input, pos, data, marker)
    decreases |data|
  {
    if data == [] {
      assert Stuff(data) + MarkerBytes(fill, marker) == MarkerBytes(fill, marker);
      ReadsMarker(input, pos, fill, marker);
    } else {
      var head, tail := Stuffed(data[0]), Stuff(data[1..]) + MarkerBytes(fill, marker);
      assert head + tail <= input[pos..] by {
        StuffCons(data);
        assert Stuff(data) + MarkerBytes(fill, marker) == head + tail;
      }
      PrefixParts(head, tail, input[pos..]);
      assert input[pos..][|head|..] == input[pos + |head|..];
      ReadsByte(input, pos, data[0]);
      Unstuffs(input, pos + |head|, data[1..], fill, marker);
    }
  }

  lemma PrefixParts(head: seq<byte>, tail: seq<byte>, whole: seq<byte>)
    requires head + tail <= whole
    ensures head <= whole && tail <= whole[|head|..]
  {
    var both := head + tail;
    assert both == whole[..|both|];
    assert head == both[..|head|] == whole[..|head|];
    assert tail == both[|head|..] == whole[|head|..][..|tail|];
  }

  lemma StuffCons(data: seq<byte>)
    requires data != []
    ensures Stuff(data) == Stuffed(data[0]) + Stuff(data[1..])
  {
    assert data == [data[0]] + data[1..];
    StuffConcat([data[0]], data[1..]);
    assert StuffFirst([data[0]], 0) == [];
  }
}
