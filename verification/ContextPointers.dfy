/** Two lists of row addresses of the context-row controller (jdmainct.c, jdmainct.h): what a
  component's lists and its workspace show. */
module ContextPointers {

  /** The sizes of a component in sample rows: of a row group, of an iMCU row, of the image. */
  datatype Dim = Dim(rgroup: nat, imcu: nat, height: nat) {
    predicate Valid() {
      rgroup >= 1 && imcu >= 2 * rgroup && height >= 1
    }
  }

  /** A workspace of M+2 row groups, which hold image rows given by their numbers, and the
      two lists of addresses in it, each with one row group more at both ends. */
  datatype State = State(rows: seq<int>, list0: seq<nat>, list1: seq<nat>) {
    function List(w: nat): seq<nat> {
      if w == 0 then list0 else list1
    }
  }

  ghost predicate WellFormed(d: Dim, s: State) {
    && d.Valid() && |s.rows| == d.imcu + 2 * d.rgroup
    && |s.list0| == |s.list1| == d.imcu + 4 * d.rgroup
    && (forall i | 0 <= i < |s.list0| :: s.list0[i] < |s.rows|)
    && forall i | 0 <= i < |s.list1| :: s.list1[i] < |s.rows|
  }

  /** The workspace row at place `x` of list `w`: in the second list the last four row groups
      are in swapped order. */
  function Physical(d: Dim, w: nat, x: nat): (p: nat)
    requires d.Valid() && x < d.imcu + 2 * d.rgroup
    ensures p < d.imcu + 2 * d.rgroup
  {
    if w == 0 || x < d.imcu - 2 * d.rgroup then x
    else if x < d.imcu then x + 2 * d.rgroup else x - 2 * d.rgroup
  }

  /** The last two row groups of a list are where the other has its two extra ones. */
  lemma ListsShare(d: Dim, w: nat, x: nat)
    requires d.Valid() && w <= 1 && x < 2 * d.rgroup
    ensures Physical(d, w, d.imcu + x) == Physical(d, 1 - w, d.imcu - 2 * d.rgroup + x)
  {
  }

  /** The middle part of list `w`. */
  ghost predicate Pointers(d: Dim, list: seq<nat>, w: nat) {
    && d.Valid() && |list| == d.imcu + 4 * d.rgroup
    && forall i: nat | d.rgroup <= i < d.imcu + 3 * d.rgroup :: list[i] == Physical(d, w, i - d.rgroup)
  }

  /** Both ends of the list repeat what is at the other end. */
  ghost predicate Wrapped(d: Dim, list: seq<nat>, w: nat) {
    && d.Valid() && |list| == d.imcu + 4 * d.rgroup
    && (forall i: nat | i < d.rgroup :: list[i] == Physical(d, w, d.imcu + d.rgroup + i))
    && forall i: nat | d.imcu + 3 * d.rgroup <= i < d.imcu + 4 * d.rgroup ::
         list[i] == Physical(d, w, i - d.imcu - 3 * d.rgroup)
  }

  /** At the top of the image the first row is repeated. */
  ghost predicate Top(d: Dim, list: seq<nat>) {
    d.rgroup <= |list| && forall i: nat | i < d.rgroup :: list[i] == 0
  }

  /** Both lists before they are changed for the bottom of the image; `k` is the iMCU row. */
  ghost predicate Listed(d: Dim, s: State, k: nat) {
    && WellFormed(d, s) && Pointers(d, s.list0, 0) && Pointers(d, s.list1, 1)
    && if k == 0 then Top(d, s.list0) else Wrapped(d, s.list0, 0) && Wrapped(d, s.list1, 1)
  }

  /** The first `n` rows of the iMCU row that begins with image row `first` are in the
      workspace, read through list `w`. */
  ghost predicate Loaded(d: Dim, s: State, w: nat, first: int, n: nat) {
    WellFormed(d, s) && n <= d.imcu && forall x: nat | x < n :: s.rows[Physical(d, w, x)] == first + x
  }

  /** The last two row groups before image row `first` are still there. */
  ghost predicate Kept(d: Dim, s: State, w: nat, first: int) {
    WellFormed(d, s)
    && forall x: nat | d.imcu <= x < d.imcu + 2 * d.rgroup ::
         s.rows[Physical(d, w, x)] == first - 2 * d.rgroup + (x - d.imcu)
  }

  /** The image row that list `w` shows at place `x`, which may be one row group outside. */
  function Shows(d: Dim, s: State, w: nat, x: int): int
    requires WellFormed(d, s) && 0 - d.rgroup <= x < d.imcu + 3 * d.rgroup
  {
    s.rows[s.List(w)[d.rgroup + x]]
  }

  /** Away from the edges of the image. */
  lemma ShowsNormal(d: Dim, s: State, w: nat, k: nat, first: int, x: int)
    requires w <= 1 && k > 0 && Listed(d, s, k) && Loaded(d, s, w, first, d.imcu) && Kept(d, s, w, first)
    requires 0 - d.rgroup <= x < d.imcu + 3 * d.rgroup
    ensures Shows(d, s, w, x) == if x < d.imcu then first + x else first - 2 * d.rgroup + (x - d.imcu)
  {
    var i := d.rgroup + x;
    assert s.List(w)[i] == if x < 0 then Physical(d, w, d.imcu + d.rgroup + i)
                           else if x < d.imcu + 2 * d.rgroup then Physical(d, w, x)
                           else Physical(d, w, x - d.imcu - 2 * d.rgroup);
  }

  /** At the top of the image. */
  lemma ShowsTop(d: Dim, s: State, x: int)
    requires Listed(d, s, 0) && Loaded(d, s, 0, 0, d.imcu) && 0 - d.rgroup <= x < d.imcu
    ensures Shows(d, s, 0, x) == if x < 0 then 0 else x
  {
    if x < 0 {
      assert s.list0[d.rgroup + x] == 0 == Physical(d, 0, 0);
    } else {
      assert s.rows[Physical(d, 0, x)] == x;
    }
  }

  ghost predicate RepeatedUpTo(d: Dim, was: seq<nat>, now: seq<nat>, left: nat, n: nat) {
    && |was| == |now| == d.imcu + 4 * d.rgroup && 1 <= left <= d.imcu && n <= 2 * d.rgroup
    && (forall i: nat | i < d.rgroup + left :: now[i] == was[i])
    && (forall i: nat | d.rgroup + left <= i < d.rgroup + left + n :: now[i] == was[d.rgroup + left - 1])
    && forall i: nat | d.rgroup + left + n <= i < |was| :: now[i] == was[i]
  }

  /** The list with the last real row, number `left - 1`, repeated. */
  ghost predicate Repeated(d: Dim, was: State, now: State, w: nat, left: nat) {
    && WellFormed(d, was) && WellFormed(d, now) && 1 <= left <= d.imcu && now.rows == was.rows
    && now.List(if w == 0 then 1 else 0) == was.List(if w == 0 then 1 else 0)
    && RepeatedUpTo(d, was.List(w), now.List(w), left, 2 * d.rgroup)
  }

  lemma ShowsBottom(d: Dim, was: State, now: State, w: nat, left: nat, x: int)
    requires w <= 1 && Repeated(d, was, now, w, left) && 0 - d.rgroup <= x < left + 2 * d.rgroup
    ensures Shows(d, now, w, x) == Shows(d, was, w, if x < left then x else left - 1)
  {
  }

  /** Reading a new iMCU row through the other list leaves the last two row groups of the
      previous one alone. */
  lemma KeptByOther(d: Dim, s: State, w: nat, first: int)
    requires w <= 1 && Loaded(d, s, w, first, d.imcu)
    ensures Kept(d, s, 1 - w, first + d.imcu)
  {
    forall x: nat {:trigger Physical(d, 1 - w, x)} | d.imcu <= x < d.imcu + 2 * d.rgroup
      ensures s.rows[Physical(d, 1 - w, x)] == first + d.imcu - 2 * d.rgroup + (x - d.imcu)
    {
      ListsShare(d, 1 - w, x - d.imcu);
      var y := x - 2 * d.rgroup;
      assert s.rows[Physical(d, w, y)] == first + y;
    }
  }

  /** What changes when the first `n` rows are read through list `w`. */
  ghost predicate Filled(d: Dim, was: State, now: State, w: nat, first: int, n: nat) {
    && WellFormed(d, was) && |now.rows| == |was.rows| && now.list0 == was.list0 && now.list1 == was.list1
    && Loaded(d, now, w, first, n)
    && forall x: nat | n <= x < d.imcu + 2 * d.rgroup :: now.rows[Physical(d, w, x)] == was.rows[Physical(d, w, x)]
  }

  lemma FilledKeeps(d: Dim, was: State, now: State, w: nat, first: int, n: nat, k: nat)
    requires w <= 1 && Filled(d, was, now, w, first, n)
    ensures Listed(d, was, k) ==> Listed(d, now, k)
    ensures Kept(d, was, w, first) ==> Kept(d, now, w, first)
  {
  }

  /** One list wrapped around, the first `n` entries of each end. */
  ghost predicate WrapsUpTo(d: Dim, was: seq<nat>, now: seq<nat>, n: nat) {
    && |was| == |now| == d.imcu + 4 * d.rgroup && n <= d.rgroup
    && (forall i: nat | i < n :: now[i] == was[i + d.imcu + 2 * d.rgroup])
    && (forall i: nat | d.imcu + 3 * d.rgroup <= i < d.imcu + 3 * d.rgroup + n :: now[i] == was[i - d.imcu - 2 * d.rgroup])
    && (forall i: nat | n <= i < d.imcu + 3 * d.rgroup :: now[i] == was[i])
    && forall i: nat | d.imcu + 3 * d.rgroup + n <= i < d.imcu + 4 * d.rgroup :: now[i] == was[i]
  }

  ghost predicate WrapsAround(d: Dim, was: State, now: State) {
    && WellFormed(d, was) && WellFormed(d, now) && now.rows == was.rows
    && WrapsUpTo(d, was.list0, now.list0, d.rgroup) && WrapsUpTo(d, was.list1, now.list1, d.rgroup)
  }

  lemma WrapsListed(d: Dim, was: State, now: State, k: nat)
    requires WrapsAround(d, was, now) && Pointers(d, was.list0, 0) && Pointers(d, was.list1, 1) && k > 0
    ensures Listed(d, now, k)
  {
    WrapsList(d, was.list0, now.list0, 0);
    WrapsList(d, was.list1, now.list1, 1);
  }

  lemma WrapsList(d: Dim, was: seq<nat>, now: seq<nat>, w: nat)
    requires WrapsUpTo(d, was, now, d.rgroup) && Pointers(d, was, w)
    ensures Pointers(d, now, w) && Wrapped(d, now, w)
  {
    hide Physical;
  }

  lemma FirstRow(d: Dim, list: seq<nat>)
    requires Pointers(d, list, 0)
    ensures list[d.rgroup] == 0
  {
    assert list[d.rgroup] == Physical(d, 0, 0);
  }

  /** The lists and the workspace of one component. */
  class ComponentRows {
    const dim: Dim
    const buffer: array<int>
    const xbuffer0: array<nat>
    const xbuffer1: array<nat>

    /** `alloc_funny_pointers`. */
    constructor (d: Dim)
      requires d.Valid()
      ensures Allocated() && dim == d && fresh(buffer) && fresh(xbuffer0) && fresh(xbuffer1) && WellFormed(dim, Now())
    {
      dim := d;
      buffer := new int[d.imcu + 2 * d.rgroup](_ => 0);
      xbuffer0 := new nat[d.imcu + 4 * d.rgroup](_ => 0);
      xbuffer1 := new nat[d.imcu + 4 * d.rgroup](_ => 0);
    }

    ghost predicate Allocated() {
      && dim.Valid() && xbuffer0 != xbuffer1 && buffer as object != xbuffer0 as object && buffer as object != xbuffer1 as object
      && buffer.Length == dim.imcu + 2 * dim.rgroup && xbuffer0.Length == xbuffer1.Length == dim.imcu + 4 * dim.rgroup
    }

    ghost function Now(): State
      reads buffer, xbuffer0, xbuffer1
    {
      State(buffer[..], xbuffer0[..], xbuffer1[..])
    }

    function Xbuffer(w: nat): array<nat> {
      if w == 0 then xbuffer0 else xbuffer1
    }

    /** The workspace rows as they are, in both lists. */
    method CopyPointers()
      requires Allocated() && WellFormed(dim, Now())
      modifies xbuffer0, xbuffer1
      ensures WellFormed(dim, Now()) && Pointers(dim, xbuffer0[..], 0)
      ensures forall j: nat | dim.rgroup <= j < dim.imcu + 3 * dim.rgroup :: xbuffer1[j] == j - dim.rgroup
    {
      var rgroup, h := dim.rgroup, dim.imcu;
      for i := 0 to h + 2 * rgroup
        invariant WellFormed(dim, Now())
        invariant forall j: nat | rgroup <= j < rgroup + i :: xbuffer0[j] == j - rgroup
        invariant forall j: nat | rgroup <= j < rgroup + i :: xbuffer1[j] == j - rgroup
      {
        xbuffer0[rgroup + i] := i;
        xbuffer1[rgroup + i] := i;
      }
    }

    /** The last four row groups of the second list in swapped order. */
    method SwapPointers()
      requires Allocated() && WellFormed(dim, Now())
      requires forall j: nat | dim.rgroup <= j < dim.imcu + 3 * dim.rgroup :: xbuffer1[j] == j - dim.rgroup
      modifies xbuffer1
      ensures WellFormed(dim, Now()) && Pointers(dim, xbuffer1[..], 1)
    {
      var rgroup, h := dim.rgroup, dim.imcu;
      for i := 0 to 2 * rgroup
        invariant forall j: nat | j < xbuffer1.Length :: xbuffer1[j] < h + 2 * rgroup
        invariant forall j: nat | rgroup <= j < h - rgroup :: xbuffer1[j] == j - rgroup
        invariant forall j: nat | h - rgroup <= j < h - rgroup + i :: xbuffer1[j] == j + rgroup
        invariant forall j: nat | h + rgroup <= j < h + rgroup + i :: xbuffer1[j] == j - 3 * rgroup
      {
        xbuffer1[rgroup + h - 2 * rgroup + i] := h + i;
        xbuffer1[rgroup + h + i] := h - 2 * rgroup + i;
      }
    }

    /** `make_funny_pointers`. */
    method MakePointers()
      requires Allocated() && WellFormed(dim, Now())
      modifies xbuffer0, xbuffer1
      ensures Listed(dim, Now(), 0)
    {
      CopyPointers();
      SwapPointers();
      ghost var second := xbuffer1[..];
      for i := 0 to dim.rgroup
        invariant WellFormed(dim, Now()) && Pointers(dim, xbuffer0[..], 0) && xbuffer1[..] == second
        invariant forall x: nat | x < i :: xbuffer0[x] == 0
      {
        FirstRow(dim, xbuffer0[..]);
        xbuffer0[i] := xbuffer0[dim.rgroup];
      }
    }

    method WrapOne(xbuf: array<nat>, i: nat, ghost was: seq<nat>)
      requires dim.Valid() && i < dim.rgroup && WrapsUpTo(dim, was, xbuf[..], i)
      modifies xbuf
      ensures WrapsUpTo(dim, was, xbuf[..], i + 1)
    {
      xbuf[i] := xbuf[dim.imcu + 2 * dim.rgroup + i];
      xbuf[dim.imcu + 3 * dim.rgroup + i] := xbuf[dim.rgroup + i];
    }

    /** `set_wraparound_pointers`. */
    method SetWraparound()
      requires Allocated() && WellFormed(dim, Now())
      modifies xbuffer0, xbuffer1
      ensures WrapsAround(dim, old(Now()), Now())
    {
      ghost var was0, was1 := xbuffer0[..], xbuffer1[..];
      for i := 0 to dim.rgroup
        invariant WrapsUpTo(dim, was0, xbuffer0[..], i) && WrapsUpTo(dim, was1, xbuffer1[..], i)
      {
        WrapOne(xbuffer0, i, was0);
        WrapOne(xbuffer1, i, was1);
      }
    }

    /** `set_bottom_pointers`: also gives the number of row groups that are not dummies. */
    method SetBottom(whichptr: nat) returns (rowgroups: nat)
      requires Allocated() && WellFormed(dim, Now()) && whichptr <= 1
      modifies Xbuffer(whichptr)
      ensures Repeated(dim, old(Now()), Now(), whichptr, RowsLeft(dim))
      ensures rowgroups == (RowsLeft(dim) - 1) / dim.rgroup + 1
    {
      var rowsLeft := dim.height % dim.imcu;
      if rowsLeft == 0 { rowsLeft := dim.imcu; }
      rowgroups := (rowsLeft - 1) / dim.rgroup + 1;
      RepeatLast(Xbuffer(whichptr), rowsLeft);
    }

    /** The last real row, two row groups more. */
    method RepeatLast(xbuf: array<nat>, rowsLeft: nat)
      requires dim.Valid() && xbuf.Length == dim.imcu + 4 * dim.rgroup && 1 <= rowsLeft <= dim.imcu
      modifies xbuf
      ensures RepeatedUpTo(dim, old(xbuf[..]), xbuf[..], rowsLeft, 2 * dim.rgroup)
    {
      for i := 0 to 2 * dim.rgroup
        invariant RepeatedUpTo(dim, old(xbuf[..]), xbuf[..], rowsLeft, i)
      {
        xbuf[dim.rgroup + rowsLeft + i] := xbuf[dim.rgroup + rowsLeft - 1];
      }
    }

    /** Decoded rows arrive through the list: the first `n` of the iMCU row that begins with
        image row `first`. */
    method Fill(whichptr: nat, first: int, n: nat)
      requires Allocated() && whichptr <= 1 && n <= dim.imcu && WellFormed(dim, Now()) && Pointers(dim, Now().List(whichptr), whichptr)
      modifies buffer
      ensures Filled(dim, old(Now()), Now(), whichptr, first, n)
    {
      for i := 0 to n
        invariant Filled(dim, old(Now()), Now(), whichptr, first, i)
      {
        assert Now().List(whichptr)[dim.rgroup + i] == Physical(dim, whichptr, i);
        buffer[Xbuffer(whichptr)[dim.rgroup + i]] := first + i;
        forall x: nat | x < dim.imcu + 2 * dim.rgroup && x != i
          ensures Physical(dim, whichptr, x) != Physical(dim, whichptr, i)
        {
        }
      }
    }
  }

  /** The number of real rows in the last iMCU row. */
  function RowsLeft(d: Dim): (left: nat)
    requires d.Valid()
    ensures 1 <= left <= d.imcu
  {
    if d.height % d.imcu == 0 then d.imcu else d.height % d.imcu
  }
}
