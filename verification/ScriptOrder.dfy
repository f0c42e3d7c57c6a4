/** In which order the recommended progressive script sends the coefficients. */
module ScriptOrder {
  import opened JpegLimits
  import opened ProgressiveScript

  /** The first component of a scan. */
  function Lead(s: ScanInfo): int {
    if s.components == [] then -1 else s.components[0]
  }

  /** Scan `s` may come before scan `t`: all first scans before the scans that refine, higher
      bits before lower ones, DC before AC, and low frequencies before high ones. */
  predicate InOrder(s: ScanInfo, t: ScanInfo) {
    && (s.ah > 0 ==> t.ah > 0 && s.al >= t.al && (s.al == t.al && t.ss == 0 ==> s.ss == 0))
    && (s.ah == 0 && t.ah == 0 ==>
          (t.ss == 0 ==> s.ss == 0) && (s.ss > 0 && Lead(s) == Lead(t) ==> s.se < t.ss))
  }

  ghost predicate Ordered(script: seq<ScanInfo>) {
    forall i, j | 0 <= i < j < |script| :: InOrder(script[i], script[j])
  }

  ghost predicate AllBefore(a: seq<ScanInfo>, b: seq<ScanInfo>) {
    forall i, j | 0 <= i < |a| && 0 <= j < |b| :: InOrder(a[i], b[j])
  }

  lemma Joined(a: seq<ScanInfo>, b: seq<ScanInfo>)
    requires Ordered(a) && Ordered(b) && AllBefore(a, b)
    ensures Ordered(a + b)
  {
    hide InOrder;
    forall i, j | 0 <= i < j < |a + b| ensures InOrder((a + b)[i], (a + b)[j]) {
      if j < |a| {
        assert InOrder(a[i], a[j]);
      } else if i < |a| {
        assert InOrder(a[i], b[j - |a|]);
      } else {
        assert InOrder(b[i - |a|], b[j - |a|]);
      }
    }
  }

  /** All scans of a group are alike but for the components, which all differ. */
  ghost predicate Alike(group: seq<ScanInfo>, ss: int, se: int, ah: int, al: int) {
    && (forall i | 0 <= i < |group| :: group[i].ss == ss && group[i].se == se && group[i].ah == ah && group[i].al == al)
    && forall i, j | 0 <= i < j < |group| :: Lead(group[i]) != Lead(group[j])
  }

  lemma GroupsAlike(n: nat, ss: int, se: int, ah: int, al: int)
    ensures Alike(Scans(n, ss, se, ah, al), ss, se, ah, al)
    ensures ss == se == 0 ==> Alike(DcScans(n, ah, al), 0, 0, ah, al)
  {
  }

  lemma AlikeOrdered(group: seq<ScanInfo>, ss: int, se: int, ah: int, al: int)
    requires Alike(group, ss, se, ah, al)
    ensures Ordered(group)
  {
  }

  lemma GroupAfter(a: seq<ScanInfo>, b: seq<ScanInfo>, ss: int, se: int, ah: int, al: int)
    requires Ordered(a) && Alike(b, ss, se, ah, al)
    requires forall i | 0 <= i < |a| :: InOrder(a[i], ScanInfo(a[i].components, ss, se, ah, al))
    ensures Ordered(a + b)
  {
    AlikeOrdered(b, ss, se, ah, al);
    forall i, j | 0 <= i < |a| && 0 <= j < |b| ensures InOrder(a[i], b[j]) {
      assert InOrder(a[i], ScanInfo(a[i].components, ss, se, ah, al));
    }
    Joined(a, b);
  }

  lemma OneAfter(a: seq<ScanInfo>, c: int, ss: int, se: int, ah: int, al: int)
    requires Ordered(a)
    requires forall i | 0 <= i < |a| :: InOrder(a[i], ScanInfo([c], ss, se, ah, al))
    ensures Ordered(a + One(c, ss, se, ah, al))
  {
    hide InOrder;
    Joined(a, One(c, ss, se, ah, al));
  }

  lemma PlainOrdered(n: nat)
    ensures Ordered(PlainScript(n))
  {
    hide Ordered, Scans, DcScans;
    GroupsAlike(n, 0, 0, 0, 1);
    GroupsAlike(n, 1, 5, 0, 2);
    GroupsAlike(n, 6, 63, 0, 2);
    GroupsAlike(n, 1, 63, 2, 1);
    GroupsAlike(n, 0, 0, 1, 0);
    GroupsAlike(n, 1, 63, 1, 0);
    AlikeOrdered(DcScans(n, 0, 1), 0, 0, 0, 1);
    var a := DcScans(n, 0, 1);
    GroupAfter(a, Scans(n, 1, 5, 0, 2), 1, 5, 0, 2);
    var b := a + Scans(n, 1, 5, 0, 2);
    GroupAfter(b, Scans(n, 6, 63, 0, 2), 6, 63, 0, 2);
    var c := b + Scans(n, 6, 63, 0, 2);
    GroupAfter(c, Scans(n, 1, 63, 2, 1), 1, 63, 2, 1);
    var d := c + Scans(n, 1, 63, 2, 1);
    GroupAfter(d, DcScans(n, 1, 0), 0, 0, 1, 0);
    GroupAfter(d + DcScans(n, 1, 0), Scans(n, 1, 63, 1, 0), 1, 63, 1, 0);
  }

  lemma ColorOrdered()
    ensures Ordered(ColorScript())
  {
    hide Ordered, DcScans;
    GroupsAlike(3, 0, 0, 0, 1);
    GroupsAlike(3, 0, 0, 1, 0);
    AlikeOrdered(DcScans(3, 0, 1), 0, 0, 0, 1);
    var a := DcScans(3, 0, 1);
    OneAfter(a, 0, 1, 5, 0, 2);
    var b := a + One(0, 1, 5, 0, 2);
    OneAfter(b, 2, 1, 63, 0, 1);
    var c := b + One(2, 1, 63, 0, 1);
    OneAfter(c, 1, 1, 63, 0, 1);
    var d := c + One(1, 1, 63, 0, 1);
    OneAfter(d, 0, 6, 63, 0, 2);
    var e := d + One(0, 6, 63, 0, 2);
    OneAfter(e, 0, 1, 63, 2, 1);
    var f := e + One(0, 1, 63, 2, 1);
    GroupAfter(f, DcScans(3, 1, 0), 0, 0, 1, 0);
    var g := f + DcScans(3, 1, 0);
    OneAfter(g, 2, 1, 63, 1, 0);
    var h := g + One(2, 1, 63, 1, 0);
    OneAfter(h, 1, 1, 63, 1, 0);
    var i := h + One(1, 1, 63, 1, 0);
    OneAfter(i, 0, 1, 63, 1, 0);
  }

  /** There is a scan with component `c`. */
  ghost predicate Sends(scans: seq<ScanInfo>, c: int) {
    exists i :: 0 <= i < |scans| && c in scans[i].components
  }

  /** The recommended script first sends the DC coefficients of all components, and then each
      thing after what matters more. */
  lemma SimpleOrdered(n: nat, isYCbCr: bool)
    requires n >= 1
    ensures Ordered(SimpleScript(n, isYCbCr))
    ensures var first := SimpleScript(n, isYCbCr)[..if n <= MAX_COMPS_IN_SCAN then 1 else n];
            (forall i | 0 <= i < |first| :: first[i].ss == first[i].se == first[i].ah == 0)
            && forall c: int | 0 <= c < n :: Sends(first, c)
  {
    PlainOrdered(n);
    ColorOrdered();
    var first := SimpleScript(n, isYCbCr)[..if n <= MAX_COMPS_IN_SCAN then 1 else n];
    assert first == DcScans(n, 0, 1);
    forall c: int | 0 <= c < n ensures Sends(first, c) {
      if n <= MAX_COMPS_IN_SCAN { assert first[0].components[c] == c; } else { assert first[c].components[0] == c; }
    }
  }
}
