/** Finding the place where decoding goes on behind a restart marker (jdmarker.c): what is
  done when the marker is not the expected one, and where that leads. */
module Resync {
  import opened JpegLimits
  import opened Shifts
  import opened EntropySource

  /** Decoding goes on at a place, or at a marker that is left unread, so that the segment is
      empty; or there is no marker yet. */
  datatype Recovery = GoOn(next: nat) | Stay(code: byte, next: nat) | Wait

  datatype Action = Discard | Advance | Leave

  /** What `jpeg_resync_to_restart` does with a marker when restart marker `desired` should
      be there. */
  function ActionFor(code: byte, desired: nat): Action {
    if code < SOF0 then Advance
    else if code < RST0 || code as nat > RST0 + 7 then Leave
    else if code as nat == RST0 + (desired + 1) % 8 || code as nat == RST0 + (desired + 2) % 8 then Leave
    else if code as nat == RST0 + (desired + 7) % 8 || code as nat == RST0 + (desired + 6) % 8 then Advance
    else Discard
  }

  /** `jpeg_resync_to_restart`, with a marker that has been read up to `pos`. */
  function Resynchronized(input: seq<byte>, code: byte, pos: nat, desired: nat): (r: Recovery)
    ensures r.Stay? ==> r.code as nat >= SOF0
    decreases |input| - pos
  {
    match ActionFor(code, desired)
    case Discard => GoOn(pos)
    case Leave => Stay(code, pos)
    case Advance =>
      match Ending(input, pos)
      case Marker(found, next) => Resynchronized(input, found, next, desired)
      case _ => Wait
  }

  /** `read_restart_marker`, when `e` ends the segment before. */
  function Recovered(input: seq<byte>, e: Read, num: nat): (r: Recovery)
    ensures r.Stay? ==> r.code as nat >= SOF0
  {
    match e
    case Marker(code, next) => if code as nat == RST0 + num then GoOn(next) else Resynchronized(input, code, next, num)
    case _ => Wait
  }

  /** What ends the segment in which decoding goes on. */
  function NextEnding(input: seq<byte>, r: Recovery): Read
    requires !r.Wait?
  {
    match r
    case GoOn(next) => Ending(input, next)
    case Stay(code, next) => Marker(code, next)
  }

  /** The expected marker is discarded by `jpeg_resync_to_restart` too. */
  lemma ExpectedDiscarded(input: seq<byte>, code: byte, pos: nat, desired: nat)
    requires code as nat == RST0 + desired && desired < 8
    ensures Resynchronized(input, code, pos, desired) == GoOn(pos)
  {
  }

  /** A code that is no marker changes nothing: the decision is that for the next marker. */
  lemma BogusSkipped(input: seq<byte>, code: byte, pos: nat, desired: nat)
    requires code as nat < 0xC0
    ensures var e := Ending(input, pos);
            Resynchronized(input, code, pos, desired) == if e.Marker? then Resynchronized(input, e.code, e.next, desired) else Wait
  {
  }

  /** At any marker but a restart marker the segments end, so it is never read past. */
  lemma OthersStay(input: seq<byte>, code: byte, pos: nat, desired: nat)
    requires 0xC0 <= code as nat < 0xD0 || 0xD8 <= code as nat
    ensures Resynchronized(input, code, pos, desired) == Stay(code, pos)
  {
  }

  lemma RecoveredIs(input: seq<byte>, code: byte, pos: nat, num: nat)
    requires num < 8
    ensures Recovered(input, Marker(code, pos), num) == Resynchronized(input, code, pos, num)
  {
    if code as nat == RST0 + num { ExpectedDiscarded(input, code, pos, num); }
  }

  // ---------------------------------------------------------- after segments were lost

  /** The marker `n` places behind the one in `e`. */
  function Behind(input: seq<byte>, e: Read, n: nat): Read {
    if n == 0 then e
    else match Behind(input, e, n - 1)
         case Marker(_, next) => Ending(input, next)
         case _ => Exhausted
  }

  /** From the one in `e` on there are `n` restart markers with consecutive numbers. */
  ghost predicate Numbered(input: seq<byte>, e: Read, number: nat, n: nat) {
    forall i: nat | i < n :: IsRestart(Behind(input, e, i), number + i)
  }

  ghost predicate IsRestart(e: Read, number: nat) {
    e.Marker? && e.code as nat == RST0 + number % 8
  }

  /** What ends the segment that is decoded after `j` restarts, the first of which should
      be number `number`. */
  function AfterRestarts(input: seq<byte>, e: Read, number: nat, j: nat): Read {
    if j == 0 then e
    else
      var r := Recovered(input, AfterRestarts(input, e, number, j - 1), (number + j - 1) % 8);
      if r.Wait? then Exhausted else NextEnding(input, r)
  }

  /** By how many markers the decoder is ahead in the end, when `lost` are missing: one or two
      are waited for, and those just before a multiple of eight are made up for by skipping
      some more; otherwise it goes on with the segments it finds. */
  function Lead(lost: nat): nat {
    if lost % 8 <= 2 then lost - lost % 8 else if lost % 8 >= 6 then lost + 8 - lost % 8 else lost
  }

  /** One restart, `ahead` markers ahead. */
  function LeadNext(ahead: nat): (r: nat)
    ensures ahead <= r + 1 && r <= ahead + 2
  {
    if ahead % 8 == 1 || ahead % 8 == 2 then ahead - 1
    else if ahead % 8 >= 6 then ahead + 8 - ahead % 8
    else ahead
  }

  lemma ActionIs(number: nat, ahead: nat, code: byte)
    requires code as nat == RST0 + (number + ahead) % 8
    ensures ActionFor(code, number % 8)
            == if ahead % 8 == 1 || ahead % 8 == 2 then Leave else if ahead % 8 >= 6 then Advance else Discard
  {
    hide ActionFor;
    Modulo(number, ahead);
    ActionSmall(number % 8, ahead % 8, code);
  }

  lemma ActionSmall(number: nat, ahead: nat, code: byte)
    requires number < 8 && ahead < 8 && code as nat == RST0 + (number + ahead) % 8
    ensures ActionFor(code, number)
            == if ahead == 1 || ahead == 2 then Leave else if ahead >= 6 then Advance else Discard
  {
    assert (number + ahead) % 8 == if number + ahead < 8 then number + ahead else number + ahead - 8;
  }

  lemma Modulo(m: nat, n: nat)
    ensures (m + n) % 8 == (m % 8 + n % 8) % 8
  {
  }

  lemma {:induction false} BehindTwice(input: seq<byte>, e: Read, m: nat, n: nat)
    ensures Behind(input, Behind(input, e, m), n) == Behind(input, e, m + n)
    decreases n
  {
    if n > 0 { BehindTwice(input, e, m, n - 1); }
  }

  /** How many of the next markers have to be looked at. */
  function Looked(ahead: nat): (n: nat)
    ensures 1 <= n <= 3
  {
    if ahead % 8 >= 6 then 9 - ahead % 8 else 1
  }

  lemma ResyncStep(input: seq<byte>, e: Read, desired: nat)
    requires e.Marker?
    ensures var r, found := Resynchronized(input, e.code, e.next, desired), Behind(input, e, 1);
            match ActionFor(e.code, desired)
            case Discard => !r.Wait? && NextEnding(input, r) == found
            case Leave => !r.Wait? && NextEnding(input, r) == e
            case Advance => found.Marker? ==> r == Resynchronized(input, found.code, found.next, desired)
  {
    hide Ending, ActionFor;
  }

  /** Resynchronizing, when the markers from `e` on are consecutive. */
  lemma {:induction false} OneResync(input: seq<byte>, e: Read, number: nat, ahead: nat)
    requires Numbered(input, e, number + ahead, Looked(ahead))
    ensures e.Marker?
    ensures var r := Resynchronized(input, e.code, e.next, number % 8);
            !r.Wait? && NextEnding(input, r) == Behind(input, e, LeadNext(ahead) + 1 - ahead)
    decreases Looked(ahead)
  {
    hide Ending, ActionFor, Resynchronized, NextEnding, Behind;
    BehindNone(input, e);
    assert IsRestart(Behind(input, e, 0), number + ahead);
    ActionIs(number, ahead, e.code);
    ResyncStep(input, e, number % 8);
    if ahead % 8 >= 6 {
      NextNumbered(input, e, number + ahead, Looked(ahead));
      OneResync(input, Behind(input, e, 1), number, ahead + 1);
      BehindTwice(input, e, 1, LeadNext(ahead) - ahead);
    }
  }

  lemma NextNumbered(input: seq<byte>, e: Read, number: nat, n: nat)
    requires Numbered(input, e, number, n) && n > 0
    ensures Numbered(input, Behind(input, e, 1), number + 1, n - 1)
  {
    hide Ending, Behind, IsRestart;
    forall i: nat | i < n - 1 ensures IsRestart(Behind(input, Behind(input, e, 1), i), number + 1 + i) {
      BehindTwice(input, e, 1, i);
      assert IsRestart(Behind(input, e, 1 + i), number + (1 + i));
    }
  }

  /** One restart. */
  lemma OneRestart(input: seq<byte>, e: Read, number: nat, ahead: nat)
    requires Numbered(input, e, number + ahead, Looked(ahead))
    ensures var r := Recovered(input, e, number % 8);
            !r.Wait? && NextEnding(input, r) == Behind(input, e, LeadNext(ahead) + 1 - ahead)
  {
    hide Ending, Behind, Resynchronized, LeadNext;
    OneResync(input, e, number, ahead);
    ExpectedDiscarded(input, (RST0 + number % 8) as byte, e.next, number % 8);
  }

  /** How many markers ahead the decoder is after `j` restarts. */
  function LeadAfter(lost: nat, j: nat): (ahead: nat)
    ensures lost <= ahead + 2 && lost <= ahead + j && ahead <= lost + 2
  {
    if j == 0 then lost else if j == 1 then LeadNext(lost) else Lead(lost)
  }

  lemma LeadStep(lost: nat, j: nat)
    requires j > 0
    ensures var before := LeadAfter(lost, j - 1);
            LeadAfter(lost, j) == LeadNext(before) && j - 1 + before - lost + Looked(before) <= j + 2
  {
  }

  lemma NumberedFrom(input: seq<byte>, e: Read, number: nat, n: nat, i: nat, m: nat)
    requires Numbered(input, e, number, n) && i + m <= n
    ensures Numbered(input, Behind(input, e, i), number + i, m)
  {
    hide Ending, Behind, IsRestart;
    forall k: nat | k < m ensures IsRestart(Behind(input, Behind(input, e, i), k), number + i + k) {
      BehindTwice(input, e, i, k);
      assert IsRestart(Behind(input, e, i + k), number + (i + k));
    }
  }

  /** One more restart, from the marker `i` places behind the first one found. */
  lemma RestartFrom(input: seq<byte>, e: Read, number: nat, ahead: nat, i: nat)
    requires Numbered(input, Behind(input, e, i), number + ahead, Looked(ahead))
    ensures var r := Recovered(input, Behind(input, e, i), number % 8);
            !r.Wait? && NextEnding(input, r) == Behind(input, e, i + LeadNext(ahead) + 1 - ahead)
  {
    hide Ending, Behind, Recovered, IsRestart, Numbered, NextEnding, LeadNext;
    OneRestart(input, Behind(input, e, i), number, ahead);
    BehindTwice(input, e, i, LeadNext(ahead) + 1 - ahead);
    assert i + (LeadNext(ahead) + 1 - ahead) == i + LeadNext(ahead) + 1 - ahead;
  }

  /** `j` restarts, when `lost` markers with their segments are missing. */
  lemma {:induction false} ManyRestarts(input: seq<byte>, e: Read, number: nat, lost: nat, j: nat)
    requires Numbered(input, e, number + lost, j + 3)
    ensures AfterRestarts(input, e, number, j) == Behind(input, e, j + LeadAfter(lost, j) - lost)
  {
    hide Ending, Recovered, IsRestart, LeadNext, Lead, NextEnding, Looked;
    if j > 0 {
      hide Behind, Numbered, LeadAfter;
      LeadStep(lost, j);
      var ahead, i := LeadAfter(lost, j - 1), j - 1 + LeadAfter(lost, j - 1) - lost;
      NumberedFrom(input, e, number + lost, j + 3, 0, j + 2);
      BehindNone(input, e);
      ManyRestarts(input, e, number, lost, j - 1);
      NumberedFrom(input, e, number + lost, j + 3, i, Looked(ahead));
      assert number + lost + i == number + (j - 1) + ahead;
      RestartFrom(input, e, number + (j - 1), ahead, i);
      assert number + (j - 1) == number + j - 1;
      assert i + LeadNext(ahead) + 1 - ahead == j + LeadAfter(lost, j) - lost;
    } else {
      BehindNone(input, e);
      assert j + LeadAfter(lost, j) - lost == 0;
    }
  }

  lemma BehindNone(input: seq<byte>, e: Read)
    ensures Behind(input, e, 0) == e
  {
  }

  lemma NumberedAt(input: seq<byte>, e: Read, number: nat, n: nat, i: nat)
    requires Numbered(input, e, number, n) && i < n
    ensures IsRestart(Behind(input, e, i), number + i)
  {
  }

  /** When restart markers are missing, the decoder is `Lead(lost)` of them ahead from the
      second restart on.  So the segments stand in their places again if and only if no more
      than two are missing; and it finds the numbers it expects if and only if what is
      missing is not three to five modulo eight. */
  lemma Resynchronizes(input: seq<byte>, e: Read, number: nat, lost: nat, j: nat)
    requires Numbered(input, e, number + lost, j + 3) && j >= 2
    ensures var found := AfterRestarts(input, e, number, j);
            && found == Behind(input, e, j + Lead(lost) - lost) && IsRestart(found, number + j + Lead(lost))
            && (Lead(lost) == 0 <==> lost <= 2)
            && (IsRestart(found, number + j) <==> lost % 8 <= 2 || lost % 8 >= 6)
  {
    hide Ending, AfterRestarts, Lead, Recovered, IsRestart, Behind, Numbered, LeadAfter;
    LeadIs(lost, j);
    ManyRestarts(input, e, number, lost, j);
    var ahead := LeadAfter(lost, j);
    var found := Behind(input, e, j + ahead - lost);
    NumberedAt(input, e, number + lost, j + 3, j + ahead - lost);
    assert number + lost + (j + ahead - lost) == number + j + ahead;
    SameNumber(found, number + j, ahead);
    WhenLeading(lost);
  }

  lemma LeadIs(lost: nat, j: nat)
    requires j >= 2
    ensures LeadAfter(lost, j) == Lead(lost)
  {
  }

  lemma SameNumber(e: Read, number: nat, ahead: nat)
    requires IsRestart(e, number + ahead)
    ensures IsRestart(e, number) <==> ahead % 8 == 0
  {
    Modulo(number, ahead);
    var n, a := number % 8, ahead % 8;
    assert (n + a) % 8 == if n + a < 8 then n + a else n + a - 8;
  }

  lemma WhenLeading(lost: nat)
    ensures Lead(lost) == 0 <==> lost <= 2
    ensures Lead(lost) % 8 == 0 <==> lost % 8 <= 2 || lost % 8 >= 6
  {
  }
}
