/** The arithmetic encoder and decoder are inverses of each other. */
module ArithCodec {
  import opened Shifts
  import opened QmInterval
  import opened Wrappers
  import opened EntropySource
  import opened ArithEncoder
  import opened ArithDecoder

  /** The decisions coded for `bits` after `before`, when the bin of a decision may
      depend on all decisions before it. */
  function Decisions(bin: seq<bool> -> Bin, before: seq<bool>, bits: seq<bool>): Plan
    decreases |bits|
  {
    if bits == [] then Nil
    else Cons(Decision(bin(before), bits[0]), Decisions(bin, before + [bits[0]], bits[1..]))
  }

  /** A whole segment: the bytes are the stuffed form of the shortest data that denote
      the final code of the interval of all decisions. */
  method EncodeSegment(bin: seq<bool> -> Bin, bits: seq<bool>)
    returns (bytes: seq<byte>, stats: Stats, ghost data: seq<byte>, ghost k: nat)
    ensures bytes == Stuff(data)
    ensures EndsAt(data, Run(START, Decisions(bin, [], bits)).iv, k)
    ensures stats == Run(START, Decisions(bin, [], bits)).stats
  {
    hide Encoder.Valid, EndsAt, Stuff;
    var encoder := new Encoder();
    EncodeAll(encoder, bin, bits);
    stats := encoder.stats;
    k := encoder.FinishPass();
    bytes, data := encoder.output, encoder.data;
  }

  method EncodeAll(encoder: Encoder, bin: seq<bool> -> Bin, bits: seq<bool>)
    requires encoder.Valid()
    modifies encoder
    ensures encoder.Valid() && encoder.State() == Run(old(encoder.State()), Decisions(bin, [], bits))
    ensures encoder.earlier == old(encoder.earlier)
  {
    hide Encoder.Valid, Encoder.State;
    ghost var goal := Run(encoder.State(), Decisions(bin, [], bits));
    for i := 0 to |bits|
      invariant encoder.Valid() && encoder.earlier == old(encoder.earlier)
      invariant Run(encoder.State(), Decisions(bin, bits[..i], bits[i..])) == goal
    {
      assert bits[..i] + [bits[i..][0]] == bits[..i + 1] && bits[i..][1..] == bits[i + 1..];
      encoder.ArithEncode(bin(bits[..i]), bits[i]);
    }
  }

  method DecodeAll(decoder: Decoder, bin: seq<bool> -> Bin, n: nat, ghost bits: seq<bool>)
    returns (decoded: seq<bool>)
    requires |bits| == n && decoder.Expecting() && decoder.pending == Decisions(bin, [], bits)
    modifies decoder
    ensures decoded == bits
    ensures decoder.Expecting() && decoder.pending == Nil && decoder.goal == old(decoder.goal)
  {
    decoded := [];
    while |decoded| < n
      invariant |decoded| <= n && decoded == bits[..|decoded|]
      invariant decoder.Expecting() && decoder.pending == Decisions(bin, decoded, bits[|decoded|..])
      invariant decoder.goal == old(decoder.goal)
    {
      ghost var i := |decoded|;
      assert bits[i..][1..] == bits[i + 1..] && bits[..i + 1] == bits[..i] + [bits[i]];
      var r := decoder.ArithDecode(bin(decoded));
      decoded := decoded + [r.value];
    }
  }

  method DecodeSegment(bin: seq<bool> -> Bin, n: nat, input: seq<byte>,
                       ghost bits: seq<bool>, ghost data: seq<byte>, ghost marker: byte, ghost k: nat)
    returns (decoded: seq<bool>, stats: Stats)
    requires |bits| == n && marker != 0 && Holds(input, 0, data, marker)
    requires EndsAt(data, Run(START, Decisions(bin, [], bits)).iv, k)
    ensures decoded == bits
    ensures stats == Run(START, Decisions(bin, [], bits)).stats
  {
    var decoder := new Decoder(input, data, marker);
    decoder.Expect(Decisions(bin, [], bits), k);
    decoded := DecodeAll(decoder, bin, n, bits);
    stats := decoder.stats;
  }

  /** Coding and then decoding gives back the decisions and the same statistics, whatever
      marker and bytes follow, and however many fill bytes stand before the marker. */
  method RoundTrip(bin: seq<bool> -> Bin, bits: seq<bool>, fill: nat, marker: byte, tail: seq<byte>)
    returns (decoded: seq<bool>, encoderStats: Stats, decoderStats: Stats)
    requires marker != 0 && marker != 0xFF
    ensures decoded == bits
    ensures encoderStats == decoderStats
  {
    var bytes, stats, data, k := EncodeSegment(bin, bits);
    var input := bytes + MarkerBytes(fill, marker) + tail;
    assert input[0..] == input;
    Unstuffs(input, 0, data, fill, marker);
    encoderStats := stats;
    decoded, decoderStats := DecodeSegment(bin, |bits|, input, bits, data, marker, k);
  }
}
