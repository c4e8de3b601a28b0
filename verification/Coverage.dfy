/** Which pairs of iterations that meet lie behind a probed one. The follower starts x places behind and takes steps of
    hi, the leader steps of lo; a pair y, w is leader and follower, and its gap is w - y. */
module Coverage {
  import opened Ratios
  import opened Meetings

  predicate MeetAt(x: int, lo: int, hi: int, y: int, w: int) {
    x + y * lo == w * hi
  }

  /** Before the crossing the follower is the later; where they cross in the same iteration, the edge within it stands
      for one side or the other. */
  predicate Before(gap: int, zeroAfter: bool) {
    if zeroAfter then gap > 0 else gap >= 0
  }

  /** Probing the follower's iteration m adds an edge for this gap; an iteration of the leader before its first counts
      as one after, when the strides are negative. */
  ghost predicate ProbeGap(n: nat, x: nat, lo: int, hi: int, g: int, m: int, gap: int)
    requires lo > 0
  {
    var q := m * hi - x;
    var y := if g < 0 && q < 0 then -q / lo else q / lo;
    q != 0 && Divides(lo, q) && y < n && gap == m - y
  }

  /** The gaps for which an edge is added. */
  ghost predicate GapAdded(n: nat, x: nat, lo: int, hi: int, g: int, gap: int)
    requires hi > lo > 0
  {
    var l, c := Floor(x, hi - lo), Ceil(x, hi - lo);
    if l < n then ProbeGap(n, x, lo, hi, g, l, gap) || (l != c && c < n && ProbeGap(n, x, lo, hi, g, c, gap))
    else ProbeGap(n, x, lo, hi, g, n - 1, gap)
  }

  predicate Closer(gap: int, other: int, zeroAfter: bool) {
    Before(gap, zeroAfter) == Before(other, zeroAfter) && Abs(gap) <= Abs(other)
  }

  ghost predicate GapCovers(n: nat, x: nat, lo: int, hi: int, g: int, s: int, zeroAfter: bool)
    requires hi > lo > 0
  {
    exists gap :: GapAdded(n, x, lo, hi, g, gap) && Closer(gap, s, zeroAfter)
  }

  ghost predicate SideCovered(n: nat, x: nat, lo: int, hi: int, g: int, zeroAfter: bool, before: bool)
    requires hi > lo > 0
  {
    forall y, w | 0 <= y < n && 0 <= w < n && MeetAt(x, lo, hi, y, w) && Before(w - y, zeroAfter) == before ::
      GapCovers(n, x, lo, hi, g, w - y, zeroAfter)
  }

  /** No iterations in time meet on this side of the crossing. */
  ghost predicate SideEmpty(n: nat, x: nat, lo: int, hi: int, zeroAfter: bool, before: bool) {
    forall y, w | 0 <= y < n && 0 <= w < n && MeetAt(x, lo, hi, y, w) :: Before(w - y, zeroAfter) != before
  }

  /** The last iteration before the crossing, or the last of all, meets one after the leader's first. */
  ghost predicate BeforeHit(n: nat, x: nat, lo: int, hi: int, zeroAfter: bool)
    requires hi > lo > 0
  {
    var l, c := Floor(x, hi - lo), Ceil(x, hi - lo);
    if l >= n then (n - 1) * hi > x && Divides(lo, (n - 1) * hi - x)
    else if l == c then !zeroAfter
    else l * hi > x && Divides(lo, l * hi - x)
  }

  /** The first iteration after the crossing meets one, or the edge of a probe that misfires is short enough. */
  ghost predicate AfterHit(x: nat, lo: int, hi: int, g: int, zeroAfter: bool)
    requires hi > lo > 0
  {
    var l, c := Floor(x, hi - lo), Ceil(x, hi - lo);
    if l == c then zeroAfter
    else Divides(lo, c * hi - x) || ShortMirage(x, lo, hi, g, zeroAfter)
  }

  ghost predicate ShortMirage(x: nat, lo: int, hi: int, g: int, zeroAfter: bool)
    requires hi > lo > 0
  {
    var l := Floor(x, hi - lo);
    var k := (x - l * hi) / lo;
    g < 0 && l * hi < x && Divides(lo, l * hi - x) && !Before(l - k, zeroAfter) && 2 * k <= hi - lo
  }

  ghost predicate AllCovered(n: nat, x: nat, lo: int, hi: int, g: int, zeroAfter: bool)
    requires hi > lo > 0
  {
    forall y, w | 0 <= y < n && 0 <= w < n && MeetAt(x, lo, hi, y, w) :: GapCovers(n, x, lo, hi, g, w - y, zeroAfter)
  }

  lemma ShrinkCovered(n: nat, x: nat, lo: int, hi: int, g: int, zeroAfter: bool)
    requires x > 0 && hi > lo > 0 && Coprime(lo, hi)
    ensures AllCovered(n, x, lo, hi, g, zeroAfter) <==> ShrinkCovers(n, x, lo, hi, g, zeroAfter)
  {
    BeforeCovered(n, x, lo, hi, g, zeroAfter);
    AfterCovered(n, x, lo, hi, g, zeroAfter);
  }

  /** The condition for this: on each side of the crossing nothing meets, or the probe there hits. */
  ghost predicate ShrinkCovers(n: nat, x: nat, lo: int, hi: int, g: int, zeroAfter: bool)
    requires hi > lo > 0
  {
    && (SideEmpty(n, x, lo, hi, zeroAfter, true) || BeforeHit(n, x, lo, hi, zeroAfter))
    && (SideEmpty(n, x, lo, hi, zeroAfter, false) || AfterHit(x, lo, hi, g, zeroAfter))
  }

  /** On which side of the crossing a pair lies. */
  lemma GapSide(x: nat, lo: int, hi: int, y: int, w: int)
    requires x > 0 && hi > lo > 0 && MeetAt(x, lo, hi, y, w)
    ensures var l, c := Floor(x, hi - lo), Ceil(x, hi - lo);
      && (w > y <==> w * (hi - lo) < x) && (w == y <==> w * (hi - lo) == x)
      && (w > y ==> w <= l && (l == c ==> w < l)) && (w == y ==> w == l == c) && (w < y ==> w >= c && w > l)
  {
    var l, c := Floor(x, hi - lo), Ceil(x, hi - lo);
    assert x - w * (hi - lo) == (w - y) * lo;
    SignedProduct(w - y, lo);
    AtCrossing(x, hi - lo, w);
  }

  lemma SignedProduct(s: int, e: int)
    requires e > 0
    ensures (s > 0 <==> s * e > 0) && (s == 0 <==> s * e == 0)
  {
    if s != 0 {
      SignOfProduct(s, e);
    }
  }

  lemma AtCrossing(x: nat, e: int, w: int)
    requires e > 0
    ensures var l, c := Floor(x, e), Ceil(x, e);
      && (w * e < x ==> w <= l && (l == c ==> w < l)) && (w * e == x ==> w == l == c) && (w * e > x ==> w >= c && w > l)
  {
    var l, c := Floor(x, e), Ceil(x, e);
    FloorCeil(x, e);
    assert (l + 1) * e == l * e + e && (c - 1) * e == c * e - e;
    if w > l {
      MulLe(l + 1, w, e);
    }
    if w < c {
      MulLe(w, c - 1, e);
    }
    if w <= l {
      MulLe(w, l, e);
    }
    if w * e == x {
      assert w == l;
      assert x % e == 0 by {
        MultipleMod(x, w, e);
      }
    }
  }

  /** Later pairs have smaller gaps. */
  lemma LaterIsCloser(x: int, lo: int, hi: int, y: int, w: int, y2: int, w2: int)
    requires hi > lo > 0 && MeetAt(x, lo, hi, y, w) && MeetAt(x, lo, hi, y2, w2) && w <= w2
    ensures w2 - y2 <= w - y && y <= y2
  {
    assert (y2 - y) * lo == (w2 - w) * hi;
    MulLe(lo, hi, w2 - w);
    MulLeBack(w2 - w, y2 - y, lo);
  }

  /** A probe of an iteration that lies after the leader's start finds a pair that meets. */
  lemma ProbeMeets(n: nat, x: nat, lo: int, hi: int, g: int, m: int, gap: int)
    requires hi > lo > 0 && m * hi > x
    ensures ProbeGap(n, x, lo, hi, g, m, gap) <==>
      Divides(lo, m * hi - x) && m - gap < n && MeetAt(x, lo, hi, m - gap, m)
  {
    var q := m * hi - x;
    if Divides(lo, q) {
      var k: int :| q == k * lo;
      ExactQuotient(q, k, lo);
      if MeetAt(x, lo, hi, m - gap, m) {
        ExactQuotient(q, m - gap, lo);
      }
    }
  }

  lemma LastBefore(n: nat, x: nat, lo: int, hi: int, g: int, m: int, y: int, w: int) returns (gap: int)
    requires x > 0 && hi > lo > 0 && m * (hi - lo) < x && 0 <= m < n && w <= m && y >= 0 && MeetAt(x, lo, hi, y, w)
    requires m * hi > x && Divides(lo, m * hi - x)
    ensures ProbeGap(n, x, lo, hi, g, m, gap) && 0 < gap <= w - y
  {
    var k: int :| m * hi - x == k * lo;
    GapSide(x, lo, hi, k, m);
    LaterIsCloser(x, lo, hi, y, w, k, m);
    gap := m - k;
    ProbeMeets(n, x, lo, hi, g, m, gap);
  }

  /** Where both are in the same iteration at the crossing, probing it adds the edge within the iteration. */
  lemma SameIteration(n: nat, x: nat, lo: int, hi: int, g: int, gap: int)
    requires x > 0 && hi > lo > 0 && Floor(x, hi - lo) == Ceil(x, hi - lo) < n
    ensures GapAdded(n, x, lo, hi, g, gap) <==> gap == 0
  {
    var l := Floor(x, hi - lo);
    FloorCeil(x, hi - lo);
    assert l * hi - x == l * lo;
    SignedProduct(l, hi - lo);
    SignedProduct(l, lo);
    ProbeMeets(n, x, lo, hi, g, l, gap);
    if MeetAt(x, lo, hi, l - gap, l) {
      GapSide(x, lo, hi, l - gap, l);
    }
  }

  /** The pairs before the crossing are covered exactly when there are none or the last iteration before it hits. */
  lemma BeforeCovered(n: nat, x: nat, lo: int, hi: int, g: int, zeroAfter: bool)
    requires x > 0 && hi > lo > 0
    ensures SideCovered(n, x, lo, hi, g, zeroAfter, true) <==>
      SideEmpty(n, x, lo, hi, zeroAfter, true) || BeforeHit(n, x, lo, hi, zeroAfter)
  {
    if BeforeHit(n, x, lo, hi, zeroAfter) {
      forall y, w | 0 <= y < n && 0 <= w < n && MeetAt(x, lo, hi, y, w) && Before(w - y, zeroAfter)
        ensures GapCovers(n, x, lo, hi, g, w - y, zeroAfter)
      {
        BeforeHitCovers(n, x, lo, hi, g, zeroAfter, y, w);
      }
    }
    if SideCovered(n, x, lo, hi, g, zeroAfter, true) && !SideEmpty(n, x, lo, hi, zeroAfter, true) {
      var y, w :| 0 <= y < n && 0 <= w < n && MeetAt(x, lo, hi, y, w) && Before(w - y, zeroAfter);
      var gap :| GapAdded(n, x, lo, hi, g, gap) && Closer(gap, w - y, zeroAfter);
      CoveredBeforeHits(n, x, lo, hi, g, zeroAfter, y, w, gap);
    }
  }

  lemma BeforeHitCovers(n: nat, x: nat, lo: int, hi: int, g: int, zeroAfter: bool, y: int, w: int)
    requires x > 0 && hi > lo > 0 && BeforeHit(n, x, lo, hi, zeroAfter)
    requires 0 <= y < n && 0 <= w < n && MeetAt(x, lo, hi, y, w) && Before(w - y, zeroAfter)
    ensures GapCovers(n, x, lo, hi, g, w - y, zeroAfter)
  {
    var l, c := Floor(x, hi - lo), Ceil(x, hi - lo);
    GapSide(x, lo, hi, y, w);
    if l < n && l == c {
      SameIteration(n, x, lo, hi, g, 0);
      assert Closer(0, w - y, zeroAfter);
    } else {
      var m: nat := if l >= n then n - 1 else l;
      if l >= n {
        StillBehind(x, hi - lo, m);
      } else {
        StrictlyBefore(x, hi - lo);
      }
      var gap := LastBefore(n, x, lo, hi, g, m, y, w);
      assert GapAdded(n, x, lo, hi, g, gap) && Closer(gap, w - y, zeroAfter);
    }
  }

  lemma StrictlyBefore(x: nat, e: int)
    requires e > 0 && Floor(x, e) != Ceil(x, e)
    ensures Floor(x, e) * e < x
  {
    FloorCeil(x, e);
    AtCrossing(x, e, Floor(x, e));
  }

  lemma CoveredBeforeHits(n: nat, x: nat, lo: int, hi: int, g: int, zeroAfter: bool, y: int, w: int, gap: int)
    requires x > 0 && hi > lo > 0 && GapAdded(n, x, lo, hi, g, gap) && Before(gap, zeroAfter)
    requires 0 <= y < n && 0 <= w < n && MeetAt(x, lo, hi, y, w) && Before(w - y, zeroAfter)
    ensures BeforeHit(n, x, lo, hi, zeroAfter)
  {
    var l, c := Floor(x, hi - lo), Ceil(x, hi - lo);
    GapSide(x, lo, hi, y, w);
    NatProduct(y, lo);
    if l < n && l == c {
      SameIteration(n, x, lo, hi, g, gap);
    } else if l < n {
      MulLe(w, l, hi);
      if !ProbeGap(n, x, lo, hi, g, l, gap) {
        FirstAfterIsAfter(n, x, lo, hi, g, gap);
      }
    } else {
      MulLe(w, n - 1, hi);
    }
  }

  lemma FirstAfterIsAfter(n: nat, x: nat, lo: int, hi: int, g: int, gap: int)
    requires x > 0 && hi > lo > 0 && Floor(x, hi - lo) != Ceil(x, hi - lo)
    requires ProbeGap(n, x, lo, hi, g, Ceil(x, hi - lo), gap)
    ensures gap < 0 && MeetAt(x, lo, hi, Ceil(x, hi - lo) - gap, Ceil(x, hi - lo))
  {
    var c := Ceil(x, hi - lo);
    FloorCeil(x, hi - lo);
    ShrinkingPassed(x, lo, hi);
    ProbeMeets(n, x, lo, hi, g, c, gap);
    GapSide(x, lo, hi, c - gap, c);
    if gap >= 0 {
      AtCrossing(x, hi - lo, c);
    }
  }

  /** Where the probe before the crossing finds an iteration of the leader before its first, other pairs lie whole
      periods after it. */
  lemma AfterMirage(x: int, lo: int, hi: int, k: int, l: int, y: int, w: int) returns (t: int)
    requires hi > lo > 0 && Coprime(lo, hi) && x - l * hi == k * lo && MeetAt(x, lo, hi, y, w) && w > l
    ensures t >= 1 && y == t * hi - k && w == l + t * lo
  {
    assert (w - l) * hi == (y + k) * lo;
    CoprimeDivides(lo, hi, w - l);
    t :| w - l == t * lo;
    SignedProduct(t, lo);
    assert t * lo * hi == t * hi * lo;
    MulEqual(t * hi, y + k, lo);
  }

  lemma MulEqual(a: int, b: int, c: int)
    requires c > 0 && a * c == b * c
    ensures a == b
  {
    MulLeBack(a, b, c);
    MulLeBack(b, a, c);
  }

  /** An iteration of the leader before its first: with positive strides its gap is positive, with negative ones it
      has the wrong sign. */
  lemma MirageGap(n: nat, x: nat, lo: int, hi: int, g: int, l: int, gap: int)
    requires hi > lo > 0 && l >= 0 && l * hi < x && ProbeGap(n, x, lo, hi, g, l, gap)
    ensures if g < 0 then gap == l - (x - l * hi) / lo && Divides(lo, l * hi - x) else gap > 0
  {
    if g >= 0 {
      var k: int :| l * hi - x == k * lo;
      ExactQuotient(l * hi - x, k, lo);
      SignedProduct(-k, lo);
      assert -k * lo == -(k * lo);
    }
  }

  lemma AfterCovered(n: nat, x: nat, lo: int, hi: int, g: int, zeroAfter: bool)
    requires x > 0 && hi > lo > 0 && Coprime(lo, hi)
    ensures SideCovered(n, x, lo, hi, g, zeroAfter, false) <==>
      SideEmpty(n, x, lo, hi, zeroAfter, false) || AfterHit(x, lo, hi, g, zeroAfter)
  {
    if AfterHit(x, lo, hi, g, zeroAfter) {
      forall y, w | 0 <= y < n && 0 <= w < n && MeetAt(x, lo, hi, y, w) && !Before(w - y, zeroAfter)
        ensures GapCovers(n, x, lo, hi, g, w - y, zeroAfter)
      {
        AfterHitCovers(n, x, lo, hi, g, zeroAfter, y, w);
      }
    }
    if SideCovered(n, x, lo, hi, g, zeroAfter, false) && !SideEmpty(n, x, lo, hi, zeroAfter, false) {
      var y, w :| 0 <= y < n && 0 <= w < n && MeetAt(x, lo, hi, y, w) && !Before(w - y, zeroAfter);
      CoveredAfterHits(n, x, lo, hi, g, zeroAfter, y, w);
    }
  }

  lemma AfterHitCovers(n: nat, x: nat, lo: int, hi: int, g: int, zeroAfter: bool, y: int, w: int)
    requires x > 0 && hi > lo > 0 && Coprime(lo, hi) && AfterHit(x, lo, hi, g, zeroAfter)
    requires 0 <= y < n && 0 <= w < n && MeetAt(x, lo, hi, y, w) && !Before(w - y, zeroAfter)
    ensures GapCovers(n, x, lo, hi, g, w - y, zeroAfter)
  {
    var l, c := Floor(x, hi - lo), Ceil(x, hi - lo);
    GapSide(x, lo, hi, y, w);
    FloorCeil(x, hi - lo);
    if l == c {
      SameIteration(n, x, lo, hi, g, 0);
      assert Closer(0, w - y, zeroAfter);
    } else if Divides(lo, c * hi - x) {
      ShrinkingPassed(x, lo, hi);
      var k: int :| c * hi - x == k * lo;
      LaterIsCloser(x, lo, hi, k, c, y, w);
      GapSide(x, lo, hi, k, c);
      AtCrossing(x, hi - lo, c);
      ProbeMeets(n, x, lo, hi, g, c, c - k);
      assert GapAdded(n, x, lo, hi, g, c - k) && Closer(c - k, w - y, zeroAfter);
    } else {
      MirageCovers(n, x, lo, hi, g, zeroAfter, y, w);
    }
  }

  lemma MirageCovers(n: nat, x: nat, lo: int, hi: int, g: int, zeroAfter: bool, y: int, w: int)
    requires x > 0 && hi > lo > 0 && Coprime(lo, hi) && ShortMirage(x, lo, hi, g, zeroAfter)
    requires 0 <= y < n && Floor(x, hi - lo) < w < n && MeetAt(x, lo, hi, y, w) && !Before(w - y, zeroAfter)
    ensures GapCovers(n, x, lo, hi, g, w - y, zeroAfter)
  {
    var l := Floor(x, hi - lo);
    var m: int :| l * hi - x == m * lo;
    var k := -m;
    assert x - l * hi == k * lo;
    ExactQuotient(x - l * hi, k, lo);
    MirageIsCloser(x, lo, hi, k, l, y, w);
    assert ProbeGap(n, x, lo, hi, g, l, l - k);
    assert GapAdded(n, x, lo, hi, g, l - k) && Closer(l - k, w - y, zeroAfter);
  }

  lemma MirageIsCloser(x: int, lo: int, hi: int, k: int, l: int, y: int, w: int)
    requires hi > lo > 0 && Coprime(lo, hi) && x - l * hi == k * lo && MeetAt(x, lo, hi, y, w) && w > l
    requires 2 * k <= hi - lo
    ensures k <= y && k - l <= y - w
  {
    var t := AfterMirage(x, lo, hi, k, l, y, w);
    MulLe(1, t, hi);
    MulLe(1, t, hi - lo);
    assert t * hi - t * lo == t * (hi - lo);
  }

  /** The first pair after a mirage is in time when any is. */
  lemma FirstAfterMirage(n: nat, x: nat, lo: int, hi: int, k: int, y: int, w: int)
    requires x > 0 && hi > lo > 0 && Coprime(lo, hi) && x - Floor(x, hi - lo) * hi == k * lo
    requires 0 <= y < n && Floor(x, hi - lo) < w < n && MeetAt(x, lo, hi, y, w)
    ensures var l := Floor(x, hi - lo);
      0 <= hi - k < n && l + lo < n && MeetAt(x, lo, hi, hi - k, l + lo) && l + lo <= hi - k
  {
    var l := Floor(x, hi - lo);
    var t := AfterMirage(x, lo, hi, k, l, y, w);
    MulLe(1, t, hi);
    MulLe(1, t, lo);
    assert (hi - k) * lo == hi * lo - k * lo && (l + lo) * hi == l * hi + lo * hi;
    GapSide(x, lo, hi, hi - k, l + lo);
  }

  lemma CoveredAfterHits(n: nat, x: nat, lo: int, hi: int, g: int, zeroAfter: bool, y: int, w: int)
    requires x > 0 && hi > lo > 0 && Coprime(lo, hi) && SideCovered(n, x, lo, hi, g, zeroAfter, false)
    requires 0 <= y < n && 0 <= w < n && MeetAt(x, lo, hi, y, w) && !Before(w - y, zeroAfter)
    ensures AfterHit(x, lo, hi, g, zeroAfter)
  {
    var l, c := Floor(x, hi - lo), Ceil(x, hi - lo);
    GapSide(x, lo, hi, y, w);
    FloorCeil(x, hi - lo);
    var gap :| GapAdded(n, x, lo, hi, g, gap) && Closer(gap, w - y, zeroAfter);
    if l == c {
      SameIteration(n, x, lo, hi, g, gap);
    } else if !Divides(lo, c * hi - x) {
      var k := OnlyMirage(n, x, lo, hi, g, zeroAfter, gap);
      FirstAfterMirage(n, x, lo, hi, k, y, w);
      GapSide(x, lo, hi, hi - k, l + lo);
      var gap1 :| GapAdded(n, x, lo, hi, g, gap1) && Closer(gap1, l + lo - (hi - k), zeroAfter);
      var k1 := OnlyMirage(n, x, lo, hi, g, zeroAfter, gap1);
    }
  }

  /** When the first iteration after the crossing misses, only a mirage can add an edge for that side. */
  lemma OnlyMirage(n: nat, x: nat, lo: int, hi: int, g: int, zeroAfter: bool, gap: int) returns (k: int)
    requires x > 0 && hi > lo > 0 && Floor(x, hi - lo) < Ceil(x, hi - lo) && Floor(x, hi - lo) < n
    requires !Divides(lo, Ceil(x, hi - lo) * hi - x)
    requires GapAdded(n, x, lo, hi, g, gap) && !Before(gap, zeroAfter)
    ensures var l := Floor(x, hi - lo);
      g < 0 && l * hi < x && Divides(lo, l * hi - x) && k == (x - l * hi) / lo && k * lo == x - l * hi && gap == l - k
  {
    var l := Floor(x, hi - lo);
    FloorCeil(x, hi - lo);
    assert ProbeGap(n, x, lo, hi, g, l, gap);
    if l * hi > x {
      ProbeMeets(n, x, lo, hi, g, l, gap);
      GapSide(x, lo, hi, l - gap, l);
      AtCrossing(x, hi - lo, l);
    } else {
      MirageGap(n, x, lo, hi, g, l, gap);
      var m: int :| l * hi - x == m * lo;
      assert x - l * hi == -m * lo;
      ExactQuotient(x - l * hi, -m, lo);
      k := -m;
    }
  }

  // ----- References that move towards each other -----

  /** x places apart, node closing p and nodeB q of them a step, they meet in iterations i and j. */
  predicate FaceAt(x: int, p: int, q: int, i: int, j: int) {
    x == i * p + j * q
  }

  ghost predicate FaceGap(n: nat, x: int, p: int, q: int, i: int, gap: int)
    requires q > 0
  {
    x - i * p > 0 && Divides(q, x - i * p) && (x - i * p) / q < n && gap == (x - i * p) / q - i
  }

  ghost predicate FaceAdded(n: nat, x: nat, p: int, q: int, gap: int)
    requires p > 0 && q > 0
  {
    var l, c := Floor(x, p + q), Ceil(x, p + q);
    FaceGap(n, x, p, q, l, gap) || (l != c && FaceGap(n, x, p, q, c, gap))
  }

  ghost predicate FaceEmpty(n: nat, x: int, p: int, q: int, later: bool) {
    forall i, j | 0 <= i < n && 0 <= j < n && FaceAt(x, p, q, i, j) :: (j > i) != later
  }

  /** Every pair that meets is covered. */
  ghost predicate FacingCovers(n: nat, x: nat, p: int, q: int)
    requires p > 0 && q > 0
  {
    var l, c := Floor(x, p + q), Ceil(x, p + q);
    && (FaceEmpty(n, x, p, q, true) || (l != c && Divides(q, x - l * p)))
    && (FaceEmpty(n, x, p, q, false) || l == c || (x - c * p > 0 && Divides(q, x - c * p)))
  }

  ghost predicate FaceCovered(n: nat, x: nat, p: int, q: int, i: int, j: int)
    requires p > 0 && q > 0
  {
    exists gap :: FaceAdded(n, x, p, q, gap) && Closer(gap, j - i, true)
  }

  lemma FaceSide(x: nat, p: int, q: int, i: int, j: int)
    requires p > 0 && q > 0 && FaceAt(x, p, q, i, j)
    ensures var l, c := Floor(x, p + q), Ceil(x, p + q);
      && (j > i ==> i <= l && (l == c ==> i < l)) && (j == i ==> i == l == c) && (j < i ==> i >= c && i > l)
  {
    assert x - i * (p + q) == (j - i) * q;
    SignedProduct(j - i, q);
    AtCrossing(x, p + q, i);
  }

  lemma FaceCloser(x: int, p: int, q: int, i: int, j: int, i2: int, j2: int)
    requires p > 0 && q > 0 && FaceAt(x, p, q, i, j) && FaceAt(x, p, q, i2, j2) && i <= i2
    ensures j2 <= j
  {
    assert (j - j2) * q == (i2 - i) * p;
    MulLe(0, i2 - i, p);
    MulLeBack(0, j - j2, q);
  }

  lemma FaceMeets(n: nat, x: int, p: int, q: int, i: int, gap: int)
    requires p > 0 && q > 0 && FaceGap(n, x, p, q, i, gap)
    ensures FaceAt(x, p, q, i, i + gap) && 0 < i + gap < n
  {
    var k: int :| x - i * p == k * q;
    ExactQuotient(x - i * p, k, q);
    SignedProduct(k, q);
  }

  lemma FaceHits(n: nat, x: int, p: int, q: int, i: int) returns (j: int)
    requires p > 0 && q > 0 && x - i * p > 0 && Divides(q, x - i * p)
    ensures FaceAt(x, p, q, i, j) && (j < n ==> FaceGap(n, x, p, q, i, j - i))
  {
    j :| x - i * p == j * q;
    ExactQuotient(x - i * p, j, q);
  }

  lemma FaceHitCovers(n: nat, x: nat, p: int, q: int, i: int, j: int)
    requires x > 0 && p > 0 && q > 0 && Ceil(x, p + q) < n && 0 <= i < n && 0 <= j < n && FaceAt(x, p, q, i, j)
    requires var l, c := Floor(x, p + q), Ceil(x, p + q);
      if j > i then l != c && Divides(q, x - l * p) else l == c || (x - c * p > 0 && Divides(q, x - c * p))
    ensures FaceCovered(n, x, p, q, i, j)
  {
    var l, c := Floor(x, p + q), Ceil(x, p + q);
    FloorCeil(x, p + q);
    FaceSide(x, p, q, i, j);
    TowardsBefore(x, p, q);
    var m := if j > i || l == c then l else c;
    if l == c {
      assert x - l * p == l * q;
    }
    var k := FaceHits(n, x, p, q, m);
    FaceSide(x, p, q, m, k);
    if j > i {
      FaceCloser(x, p, q, i, j, m, k);
    } else {
      FaceCloser(x, p, q, m, k, i, j);
    }
    FaceMiddle(x, p, q, m, k);
    assert FaceAdded(n, x, p, q, k - m) && Closer(k - m, j - i, true);
  }

  /** A pair at the crossing, rounded down or up, is on the side where it was rounded to. */
  lemma FaceMiddle(x: nat, p: int, q: int, i: int, j: int)
    requires p > 0 && q > 0 && FaceAt(x, p, q, i, j)
    ensures var l, c := Floor(x, p + q), Ceil(x, p + q);
      if l == c then i == l ==> j == i else (i == l ==> j > i) && (i == c ==> j < i)
  {
    assert x - i * (p + q) == (j - i) * q;
    SignedProduct(j - i, q);
    AtCrossing(x, p + q, i);
    FloorCeil(x, p + q);
  }

  lemma FaceCoveredHits(n: nat, x: nat, p: int, q: int, i: int, j: int)
    requires x > 0 && p > 0 && q > 0 && FaceCovered(n, x, p, q, i, j)
    ensures var l, c := Floor(x, p + q), Ceil(x, p + q);
      if j > i then l != c && Divides(q, x - l * p) else l == c || (x - c * p > 0 && Divides(q, x - c * p))
  {
    var gap :| FaceAdded(n, x, p, q, gap) && Closer(gap, j - i, true);
    FaceAddedSide(n, x, p, q, gap);
  }

  /** On which side the probes add their edges. */
  lemma FaceAddedSide(n: nat, x: nat, p: int, q: int, gap: int)
    requires p > 0 && q > 0 && FaceAdded(n, x, p, q, gap)
    ensures var l, c := Floor(x, p + q), Ceil(x, p + q);
      if l == c then gap == 0 else if gap > 0 then Divides(q, x - l * p) else x - c * p > 0 && Divides(q, x - c * p)
  {
    var l, c := Floor(x, p + q), Ceil(x, p + q);
    if FaceGap(n, x, p, q, l, gap) {
      FaceGapSide(n, x, p, q, l, gap);
    } else {
      FaceGapSide(n, x, p, q, c, gap);
    }
  }

  lemma FaceGapSide(n: nat, x: nat, p: int, q: int, i: int, gap: int)
    requires p > 0 && q > 0 && FaceGap(n, x, p, q, i, gap)
    ensures var l, c := Floor(x, p + q), Ceil(x, p + q);
      if l == c then i == l ==> gap == 0 else (i == l ==> gap > 0) && (i == c ==> gap < 0)
  {
    FaceMeets(n, x, p, q, i, gap);
    FaceMiddle(x, p, q, i, i + gap);
  }

  lemma FacingCovered(n: nat, x: nat, p: int, q: int)
    requires x > 0 && p > 0 && q > 0 && Ceil(x, p + q) < n
    ensures (forall i, j | 0 <= i < n && 0 <= j < n && FaceAt(x, p, q, i, j) :: FaceCovered(n, x, p, q, i, j))
      <==> FacingCovers(n, x, p, q)
  {
    forall i, j | FacingCovers(n, x, p, q) && 0 <= i < n && 0 <= j < n && FaceAt(x, p, q, i, j)
      ensures FaceCovered(n, x, p, q, i, j)
    {
      FaceHitCovers(n, x, p, q, i, j);
    }
    forall i, j | 0 <= i < n && 0 <= j < n && FaceAt(x, p, q, i, j) && FaceCovered(n, x, p, q, i, j)
      ensures var l, c := Floor(x, p + q), Ceil(x, p + q);
        if j > i then l != c && Divides(q, x - l * p) else l == c || (x - c * p > 0 && Divides(q, x - c * p))
    {
      FaceCoveredHits(n, x, p, q, i, j);
    }
  }
}
