/** Whatever the size and the sampling factors of an image and wherever the entropy encoder
  suspends, all coefficient controllers send the same MCUs. */
module CoefAgreement {
  import opened AcRefineModel
  import opened CoefDims
  import opened CoefStream
  import opened CoefController
  import opened CoefBuffer
  import opened TransController

  // ------------------------------------------- what is sent is part of the stream

  lemma {:induction false} RowPrefix(s: Scan, image: Image, r: nat, y: nat, m: nat, n: nat)
    requires s.Valid() && Covers(s.f, image) && m <= n
    ensures McuRow(s, image, r, y, m) <= McuRow(s, image, r, y, n)
    decreases n
  {
    hide McuAt;
    if m < n { RowPrefix(s, image, r, y, m, n - 1); }
  }

  lemma {:induction false} RowsPrefix(s: Scan, image: Image, r: nat, m: nat, n: nat)
    requires s.Valid() && Covers(s.f, image) && m <= n
    ensures McuRowsOf(s, image, r, m) <= McuRowsOf(s, image, r, n)
    decreases n
  {
    hide McuRow;
    if m < n { RowsPrefix(s, image, r, m, n - 1); }
  }

  lemma {:induction false} IMcuRowsPrefix(s: Scan, image: Image, m: nat, n: nat)
    requires s.Valid() && Covers(s.f, image) && m <= n
    ensures IMcuRows(s, image, m) <= IMcuRows(s, image, n)
    decreases n
  {
    hide McuRowsOf;
    if m < n { IMcuRowsPrefix(s, image, m, n - 1); }
  }

  lemma PrefixBehind(front: seq<Blocks>, a: seq<Blocks>, b: seq<Blocks>)
    requires a <= b
    ensures front + a <= front + b
  {
    assert front + a == (front + b)[..|front + a|];
  }

  /** Everything before an MCU, and before the end of an MCU row, is the beginning of the stream. */
  lemma UptoPrefix(s: Scan, image: Image, r: nat, y: nat, x: nat)
    requires s.Valid() && Covers(s.f, image) && r < s.f.TotalIMcuRows() && y < s.McuRows(r) && x <= s.McusPerRow()
    ensures Upto(s, image, r, y, x) <= Stream(s, image)
  {
    hide McuRow, McuRowsOf, IMcuRows, DivRoundUp, Scan.McuRows, Scan.McusPerRow;
    var front, rows := IMcuRows(s, image, r), McuRowsOf(s, image, r, y);
    RowPrefix(s, image, r, y, x, s.McusPerRow());
    PrefixBehind(front + rows, McuRow(s, image, r, y, x), McuRow(s, image, r, y, s.McusPerRow()));
    NextRow(s, image, r, y);
    NoMcus(s, image, r, y + 1);
    RowsPrefix(s, image, r, y + 1, s.McuRows(r));
    PrefixBehind(front, McuRowsOf(s, image, r, y + 1), McuRowsOf(s, image, r, s.McuRows(r)));
    IMcuRowIs(s, image, r);
    IMcuRowsPrefix(s, image, r + 1, s.f.TotalIMcuRows());
  }

  /** At any place inside the scan, what has been sent is the beginning of the stream. */
  lemma SentPrefix(s: Scan, image: Image, received: seq<Blocks>, p: Place)
    requires s.Valid() && Covers(s.f, image) && Inside(s, p) && Sent(s, image, received, p)
    ensures received <= Stream(s, image) && (p.r == s.f.TotalIMcuRows() ==> received == Stream(s, image))
  {
    hide McuRow, McuRowsOf, IMcuRows, DivRoundUp, Scan.McuRows, Scan.McusPerRow;
    NoMcus(s, image, p.r, 0);
    NoMcuRows(s, image, p.r);
    if p.r < s.f.TotalIMcuRows() { UptoPrefix(s, image, p.r, p.y, p.x); }
  }

  lemma NoMcuRows(s: Scan, image: Image, r: nat)
    requires s.Valid() && Covers(s.f, image)
    ensures McuRowsOf(s, image, r, 0) == []
  {
  }

  lemma IMcuRowIs(s: Scan, image: Image, r: nat)
    requires s.Valid() && Covers(s.f, image)
    ensures IMcuRows(s, image, r + 1) == IMcuRows(s, image, r) + McuRowsOf(s, image, r, s.McuRows(r))
  {
    hide McuRowsOf, Scan.McuRows;
  }

  // ------------------------------------------------------------------ three runs

  /** How many MCUs the encoder would accept in the first `n` rounds. */
  function Granted(rooms: seq<nat>, n: nat): nat
    requires n <= |rooms|
  {
    if n == 0 then 0 else Granted(rooms, n - 1) + rooms[n - 1]
  }

  /** As much of the stream has been sent as the encoder would accept. */
  predicate Delivered(s: Scan, image: Image, rooms: seq<nat>, n: nat, received: seq<Blocks>)
    requires s.Valid() && Covers(s.f, image) && n <= |rooms|
  {
    received == Stream(s, image)[..Min(Granted(rooms, n), |Stream(s, image)|)]
  }

  /** A controller at that place has sent what the encoder would accept in the first `n` rounds. */
  ghost predicate Paced(s: Scan, image: Image, rooms: seq<nat>, n: nat, p: Place, encoder: EntropyEncoder)
    requires s.Valid() && Covers(s.f, image) && n <= |rooms|
    reads encoder
  {
    && Inside(s, p) && Sent(s, image, encoder.received, p)
    && (if p.r < s.f.TotalIMcuRows() then |encoder.received| == Granted(rooms, n) else |encoder.received| <= Granted(rooms, n))
  }

  lemma PacedDelivers(s: Scan, image: Image, rooms: seq<nat>, n: nat, p: Place, encoder: EntropyEncoder)
    requires s.Valid() && Covers(s.f, image) && n <= |rooms| && Paced(s, image, rooms, n, p, encoder)
    ensures Delivered(s, image, rooms, n, encoder.received)
    ensures Granted(rooms, n) > |Stream(s, image)| ==> p.r == s.f.TotalIMcuRows()
  {
    hide Stream, Upto, DivRoundUp;
    SentPrefix(s, image, encoder.received, p);
  }

  lemma NothingSent(s: Scan, image: Image)
    requires s.Valid() && Covers(s.f, image)
    ensures Sent(s, image, [], Place(0, 0, 0)) && Inside(s, Place(0, 0, 0)) && s.f.TotalIMcuRows() > 0
  {
    hide DivRoundUp, Frame.MaxV;
    RowsThere(s, 0);
    Nested(s.f.height, s.f.comps[s.cur[0]].v, s.f.MaxV());
  }

  /** Single-pass compression. */
  method RunSinglePass(s: Scan, image: Image, rooms: seq<nat>) returns (received: seq<Blocks>)
    requires s.Valid() && Covers(s.f, image)
    ensures Delivered(s, image, rooms, |rooms|, received)
  {
    hide Stream, Upto, Inside, Frame.TotalIMcuRows, Covers, Delivered;
    var controller := new SinglePass(s);
    var encoder := new EntropyEncoder();
    NothingSent(s, image);
    for k := 0 to |rooms|
      invariant controller.Valid() && controller.s == s && fresh(controller) && fresh(controller.buffer) && fresh(encoder)
      invariant Paced(s, image, rooms, k, controller.At(), encoder)
    {
      encoder.Grant(rooms[k]);
      var going := true;
      while going && controller.iMcuRowNum < s.f.TotalIMcuRows()
        invariant controller.Valid() && controller.s == s && Sent(s, image, encoder.received, controller.At())
        invariant |encoder.received| + encoder.room <= Granted(rooms, k + 1)
        invariant controller.iMcuRowNum < s.f.TotalIMcuRows() ==> |encoder.received| + encoder.room == Granted(rooms, k + 1)
        invariant !going ==> encoder.room == 0
        decreases s.f.TotalIMcuRows() - controller.iMcuRowNum, going
      {
        going := controller.CompressData(image, encoder);
      }
    }
    PacedDelivers(s, image, rooms, |rooms|, controller.At(), encoder);
    received := encoder.received;
  }

  /** Transcoding. */
  method RunTranscoder(s: Scan, image: Image, rooms: seq<nat>) returns (received: seq<Blocks>)
    requires s.Valid() && Covers(s.f, image)
    ensures Delivered(s, image, rooms, |rooms|, received)
  {
    hide Stream, Upto, Inside, Frame.TotalIMcuRows, Covers, Delivered;
    var controller := new Transcoder(s, image);
    var encoder := new EntropyEncoder();
    NothingSent(s, image);
    for k := 0 to |rooms|
      invariant controller.Valid() && controller.s == s && controller.wholeImage == image && fresh(controller) && fresh(encoder)
      invariant fresh(controller.dummyBuffer) && fresh(controller.mcuBuffer)
      invariant Paced(s, image, rooms, k, controller.At(), encoder)
    {
      encoder.Grant(rooms[k]);
      var going := true;
      while going && controller.iMcuRowNum < s.f.TotalIMcuRows()
        invariant controller.Valid() && Sent(s, image, encoder.received, controller.At())
        invariant |encoder.received| + encoder.room <= Granted(rooms, k + 1)
        invariant controller.iMcuRowNum < s.f.TotalIMcuRows() ==> |encoder.received| + encoder.room == Granted(rooms, k + 1)
        invariant !going ==> encoder.room == 0
        decreases s.f.TotalIMcuRows() - controller.iMcuRowNum, going
      {
        going := controller.CompressOutput(encoder);
      }
    }
    PacedDelivers(s, image, rooms, |rooms|, controller.At(), encoder);
    received := encoder.received;
  }

  /** The first pass over an image with buffers: when it is complete, all buffers are filled. */
  method RunFirstPass(controller: FullImage, image: Image, rooms: seq<nat>) returns (received: seq<Blocks>)
    requires controller.Valid() && Covers(controller.f, image) && controller.At() == Place(0, 0, 0)
    requires controller.Filled(image, 0)
    modifies controller, controller.buffer, controller.wholeImage
    ensures controller.Valid() && Delivered(controller.s, image, rooms, |rooms|, received) && controller.s == old(controller.s)
    ensures controller.Filled(image, controller.iMcuRowNum)
    ensures Granted(rooms, |rooms|) > |Stream(controller.s, image)| ==> controller.iMcuRowNum == controller.f.TotalIMcuRows()
  {
    hide Stream, Upto, Inside, Frame.TotalIMcuRows, Covers, Delivered, FilledFor;
    var s := controller.s;
    var encoder := new EntropyEncoder();
    NothingSent(s, image);
    for k := 0 to |rooms|
      invariant controller.Valid() && controller.s == s && fresh(encoder) && controller.Filled(image, controller.iMcuRowNum)
      invariant Paced(s, image, rooms, k, controller.At(), encoder)
    {
      encoder.Grant(rooms[k]);
      var going := true;
      while going && controller.iMcuRowNum < s.f.TotalIMcuRows()
        invariant controller.Valid() && controller.s == s && Sent(s, image, encoder.received, controller.At())
        invariant controller.Filled(image, controller.iMcuRowNum)
        invariant |encoder.received| + encoder.room <= Granted(rooms, k + 1)
        invariant controller.iMcuRowNum < s.f.TotalIMcuRows() ==> |encoder.received| + encoder.room == Granted(rooms, k + 1)
        invariant !going ==> encoder.room == 0
        decreases s.f.TotalIMcuRows() - controller.iMcuRowNum, going
      {
        going := controller.CompressFirstPass(image, encoder);
      }
    }
    PacedDelivers(s, image, rooms, |rooms|, controller.At(), encoder);
    received := encoder.received;
  }

  /** Any later scan, from the buffers alone. */
  method RunLaterScan(controller: FullImage, s: Scan, ghost image: Image, rooms: seq<nat>) returns (received: seq<Blocks>)
    requires controller.Valid() && Covers(controller.f, image) && s.Valid() && s.f == controller.f
    requires controller.Filled(image, controller.f.TotalIMcuRows())
    modifies controller, controller.buffer
    ensures controller.Valid() && Delivered(s, image, rooms, |rooms|, received)
    ensures controller.Filled(image, controller.f.TotalIMcuRows())
  {
    hide Stream, Upto, Inside, Frame.TotalIMcuRows, Covers, Delivered, FilledFor;
    var encoder := new EntropyEncoder();
    controller.StartPass(s);
    NothingSent(s, image);
    for k := 0 to |rooms|
      invariant controller.Valid() && controller.s == s && fresh(encoder) && controller.Filled(image, s.f.TotalIMcuRows())
      invariant Paced(s, image, rooms, k, controller.At(), encoder)
    {
      encoder.Grant(rooms[k]);
      var going := true;
      while going && controller.iMcuRowNum < s.f.TotalIMcuRows()
        invariant controller.Valid() && controller.s == s && Sent(s, image, encoder.received, controller.At())
        invariant controller.Filled(image, s.f.TotalIMcuRows())
        invariant |encoder.received| + encoder.room <= Granted(rooms, k + 1)
        invariant controller.iMcuRowNum < s.f.TotalIMcuRows() ==> |encoder.received| + encoder.room == Granted(rooms, k + 1)
        invariant !going ==> encoder.room == 0
        decreases s.f.TotalIMcuRows() - controller.iMcuRowNum, going
      {
        EnoughFilled(controller.f, image, controller.wholeImage, controller.iMcuRowNum + 1, s.f.TotalIMcuRows());
        going := controller.CompressOutput(image, encoder);
      }
    }
    PacedDelivers(s, image, rooms, |rooms|, controller.At(), encoder);
    received := encoder.received;
  }

  lemma EnoughFilled(f: Frame, image: Image, a: seq<array2<Block>>, m: nat, n: nat)
    requires Covers(f, image) && |a| == |f.comps| && m <= n && FilledFor(f, image, a, |a|, n)
    ensures FilledFor(f, image, a, |a|, m)
  {
    forall c | 0 <= c < |a| ensures RowsFilled(f, image, c, a[c], 0, m * f.comps[c].v) {
      if m < n { GroupEnds(f.comps[c].v, m, n); }
    }
  }

  lemma OnlyOne(s: Scan, image: Image, rooms: seq<nat>, a: seq<Blocks>, b: seq<Blocks>)
    requires s.Valid() && Covers(s.f, image) && Delivered(s, image, rooms, |rooms|, a) && Delivered(s, image, rooms, |rooms|, b)
    ensures a == b
  {
  }

  lemma NothingFilled(f: Frame, image: Image, a: seq<array2<Block>>)
    requires Covers(f, image) && Sized(f, a)
    ensures FilledFor(f, image, a, |a|, 0)
  {
  }

  /** The same image through all controllers, with the same rounds of suspension: the same
      MCUs arrive. */
  method SameStream(s: Scan, first: Scan, image: Image, rooms: seq<nat>, before: seq<nat>)
    returns (single: seq<Blocks>, firstPass: seq<Blocks>, later: seq<Blocks>, transcoded: seq<Blocks>)
    requires s.Valid() && first.Valid() && s.f == first.f && Covers(s.f, image)
    requires Granted(before, |before|) > |Stream(first, image)|
    ensures single == firstPass == later == transcoded && Delivered(s, image, rooms, |rooms|, single)
  {
    hide Stream, FilledFor, Covers, Frame.TotalIMcuRows, Inside, Delivered, PaddedWidth, PaddedHeight;
    single := RunSinglePass(s, image, rooms);
    transcoded := RunTranscoder(s, image, rooms);
    var controller := new FullImage(s);
    NothingFilled(s.f, image, controller.wholeImage);
    firstPass := RunFirstPass(controller, image, rooms);
    var other := new FullImage(first);
    NothingFilled(s.f, image, other.wholeImage);
    var ignored := RunFirstPass(other, image, before);
    later := RunLaterScan(other, s, image, rooms);
    OnlyOne(s, image, rooms, single, transcoded);
    OnlyOne(s, image, rooms, single, firstPass);
    OnlyOne(s, image, rooms, single, later);
  }
}
