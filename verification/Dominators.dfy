/** Dominance in a flow graph whose nodes are numbered so that every node but the root, 0, has a predecessor with a
    smaller number, as a depth-first numbering has. */
module Dominance {

  predicate SomeBelow(l: seq<nat>, i: int) {
    exists j :: j in l && j < i
  }

  ghost predicate Numbered(preds: seq<seq<nat>>) {
    && |preds| > 0
    && (forall i, k | 0 <= i < |preds| && 0 <= k < |preds[i]| :: preds[i][k] < |preds|)
    && (forall i | 0 < i < |preds| :: SomeBelow(preds[i], i))
  }

  /** A path from the root. */
  ghost predicate Path(preds: seq<seq<nat>>, p: seq<nat>) {
    && |p| > 0 && p[0] == 0
    && (forall k | 0 <= k < |p| :: p[k] < |preds|)
    && (forall k | 0 < k < |p| :: p[k - 1] in preds[p[k]])
  }

  ghost predicate PathTo(preds: seq<seq<nat>>, p: seq<nat>, b: nat) {
    Path(preds, p) && p[|p| - 1] == b
  }

  /** a lies on every path from the root to b. */
  ghost predicate Dominates(preds: seq<seq<nat>>, a: nat, b: nat) {
    forall p | PathTo(preds, p, b) :: a in p
  }

  ghost predicate StrictlyDominates(preds: seq<seq<nat>>, a: nat, b: nat) {
    a != b && Dominates(preds, a, b)
  }

  /** The strict dominator that all other strict dominators dominate. */
  ghost predicate ImmediatelyDominates(preds: seq<seq<nat>>, a: nat, b: nat) {
    && StrictlyDominates(preds, a, b)
    && forall c: nat | StrictlyDominates(preds, c, b) :: Dominates(preds, c, a)
  }

  /** Every node can be reached along ever larger numbers. */
  lemma {:induction false} Descend(preds: seq<seq<nat>>, b: nat) returns (p: seq<nat>)
    requires Numbered(preds) && b < |preds|
    ensures PathTo(preds, p, b) && forall k | 0 <= k < |p| :: p[k] <= b
  {
    if b == 0 {
      p := [0];
    } else {
      var j :| j in preds[b] && j < b;
      var q := Descend(preds, j);
      p := q + [b];
    }
  }

  lemma DominatorsAreSmaller(preds: seq<seq<nat>>, a: nat, b: nat)
    requires Numbered(preds) && b < |preds| && Dominates(preds, a, b)
    ensures a <= b
  {
    var p := Descend(preds, b);
    assert a in p;
  }

  lemma ExtendPath(preds: seq<seq<nat>>, q: seq<nat>, p: nat, b: nat)
    requires PathTo(preds, q, p) && b < |preds| && p in preds[b]
    ensures PathTo(preds, q + [b], b)
  {
  }

  /** A dominator of b other than b dominates every predecessor of b. */
  lemma DominatesPred(preds: seq<seq<nat>>, a: nat, b: nat, p: nat)
    requires b < |preds| && p in preds[b] && StrictlyDominates(preds, a, b)
    ensures Dominates(preds, a, p)
  {
    forall q | PathTo(preds, q, p) ensures a in q {
      ExtendPath(preds, q, p, b);
    }
  }

  lemma RootDominates(preds: seq<seq<nat>>, b: nat)
    ensures Dominates(preds, 0, b)
  {
    forall p | PathTo(preds, p, b) ensures 0 in p {
      assert p[0] == 0;
    }
  }

  lemma SelfDominates(preds: seq<seq<nat>>, b: nat)
    ensures Dominates(preds, b, b)
  {
    forall p | PathTo(preds, p, b) ensures b in p {
      assert p[|p| - 1] == b;
    }
  }

  lemma PrefixPath(preds: seq<seq<nat>>, p: seq<nat>, k: nat)
    requires Path(preds, p) && k < |p|
    ensures PathTo(preds, p[..k + 1], p[k])
  {
  }

  lemma Transitive(preds: seq<seq<nat>>, a: nat, b: nat, c: nat)
    requires Dominates(preds, a, b) && Dominates(preds, b, c)
    ensures Dominates(preds, a, c)
  {
    forall p | PathTo(preds, p, c) ensures a in p {
      var k :| 0 <= k < |p| && p[k] == b;
      PrefixPath(preds, p, k);
      assert a in p[..k + 1];
    }
  }

  lemma {:induction false} LastAt(p: seq<nat>, a: nat) returns (k: nat)
    requires a in p
    ensures k < |p| && p[k] == a && a !in p[k + 1..]
  {
    k :| k < |p| && p[k] == a;
    while a in p[k + 1..]
      invariant k < |p| && p[k] == a
      decreases |p| - k
    {
      var j :| 0 <= j < |p[k + 1..]| && p[k + 1..][j] == a;
      k := k + 1 + j;
    }
  }

  /** Following one path to p[k] and then the rest of p. */
  lemma Splice(preds: seq<seq<nat>>, q: seq<nat>, p: seq<nat>, k: nat)
    requires Path(preds, p) && k < |p| && PathTo(preds, q, p[k])
    ensures PathTo(preds, q + p[k + 1..], p[|p| - 1])
  {
    var r := q + p[k + 1..];
    forall j | 0 < j < |r| ensures r[j - 1] in preds[r[j]] && r[j] < |preds| {
      if j >= |q| {
        assert r[j] == p[k + 1 + j - |q|];
        assert r[j - 1] == p[k + j - |q|];
      }
    }
  }

  /** Of two dominators of i the one with the smaller number dominates the other. */
  lemma Chain(preds: seq<seq<nat>>, a: nat, b: nat, i: nat)
    requires Numbered(preds) && i < |preds| && a < b && Dominates(preds, a, i) && Dominates(preds, b, i)
    ensures Dominates(preds, a, b)
  {
    var p := Descend(preds, i);
    var la := LastAt(p, a);
    var lb := LastAt(p, b);
    if la < lb {
      forall q | PathTo(preds, q, b) ensures a in q {
        Splice(preds, q, p, lb);
        assert a !in p[lb + 1..] by {
          assert p[lb + 1..] == p[la + 1..][lb - la..];
        }
      }
    } else {
      forall q | PathTo(preds, q, a) ensures b in q {
        Splice(preds, q, p, la);
        assert b !in p[la + 1..] by {
          assert p[la + 1..] == p[lb + 1..][la - lb..];
        }
      }
      DominatorsAreSmaller(preds, b, a);
    }
  }

  /** The largest strict dominator is the immediate one. */
  lemma LargestIsImmediate(preds: seq<seq<nat>>, m: nat, i: nat)
    requires Numbered(preds) && i < |preds| && StrictlyDominates(preds, m, i)
    requires forall c: nat | StrictlyDominates(preds, c, i) :: c <= m
    ensures ImmediatelyDominates(preds, m, i)
  {
    forall c: nat | StrictlyDominates(preds, c, i) ensures Dominates(preds, c, m) {
      if c == m {
        SelfDominates(preds, m);
      } else {
        Chain(preds, c, m, i);
      }
    }
  }

  lemma ImmediateIsUnique(preds: seq<seq<nat>>, a: nat, b: nat, i: nat)
    requires Numbered(preds) && i < |preds| && ImmediatelyDominates(preds, a, i) && ImmediatelyDominates(preds, b, i)
    ensures a == b
  {
    DominatorsAreSmaller(preds, a, i);
    DominatorsAreSmaller(preds, b, i);
    DominatorsAreSmaller(preds, a, b);
    DominatorsAreSmaller(preds, b, a);
  }
}

/** The iteration for the dominator sets, its rounds as functions, and its fixed points. */
module DominatorSets {
  import opened Collections
  import opened Dominance

  /** The candidate sets during the iteration; an empty set is not known yet. */
  predicate Known(dom: seq<set<nat>>, i: nat) {
    i < |dom| && dom[i] != {}
  }

  predicate SomeKnown(dom: seq<set<nat>>, l: seq<nat>) {
    exists k :: 0 <= k < |l| && Known(dom, l[k])
  }

  /** a survives the intersection of the known sets of the list, of which there is at least one. */
  ghost predicate InMeet(dom: seq<set<nat>>, l: seq<nat>, a: nat) {
    && SomeKnown(dom, l)
    && (forall k | 0 <= k < |l| && Known(dom, l[k]) :: a in dom[l[k]])
  }

  /** What the equation of node i asks for. */
  ghost predicate InEquation(preds: seq<seq<nat>>, dom: seq<set<nat>>, i: nat, a: nat)
    requires i < |preds|
  {
    a == i || InMeet(dom, preds[i], a)
  }

  ghost predicate Below(s: set<nat>, n: nat) {
    forall a | a in s :: a < n
  }

  /** The invariant of the iteration: known sets hold all true dominators, and are no smaller than their equations
      ask for. */
  ghost predicate Narrowing(preds: seq<seq<nat>>, dom: seq<set<nat>>) {
    && Numbered(preds) && preds[0] == [] && |dom| == |preds| && dom[0] == {0}
    && (forall i: nat | i < |dom| :: Below(dom[i], |preds|))
    && (forall i: nat, a: nat | i < |dom| && Known(dom, i) && Dominates(preds, a, i) :: a in dom[i])
    && (forall i: nat, a: nat | i < |dom| && Known(dom, i) && InEquation(preds, dom, i, a) :: a in dom[i])
    && (forall i: nat {:trigger SomeKnown(dom, preds[i])} | 0 < i < |dom| && Known(dom, i) :: SomeKnown(dom, preds[i]))
  }

  /** The state before the first round: a placeholder at the root, nothing known elsewhere. */
  ghost predicate Fresh(preds: seq<seq<nat>>, dom: seq<set<nat>>) {
    && Numbered(preds) && preds[0] == [] && |dom| == |preds| && dom[0] == {1}
    && forall i | 0 < i < |dom| :: dom[i] == {}
  }

  ghost function Weight(dom: seq<set<nat>>, n: nat): nat {
    if dom == [] then 0 else (if dom[0] == {} then n + 1 else |dom[0]|) + Weight(dom[1..], n)
  }

  lemma {:induction false} WeightStep(dom: seq<set<nat>>, n: nat, i: nat, s: set<nat>)
    requires i < |dom| && s != {}
    ensures Weight(dom[i := s], n) == Weight(dom, n) - (if dom[i] == {} then n + 1 else |dom[i]|) + |s|
  {
    if i == 0 {
      assert dom[i := s][1..] == dom[1..];
    } else {
      assert dom[i := s][1..] == dom[1..][i - 1 := s];
      WeightStep(dom[1..], n, i - 1, s);
    }
  }

  lemma {:induction false} BelowSize(s: set<nat>, n: nat)
    requires Below(s, n)
    ensures |s| <= n
  {
    if n == 0 {
      assert s == {};
    } else {
      BelowSize(s - {n - 1}, n - 1);
    }
  }

  lemma SmallerSize(s: set<nat>, t: set<nat>)
    requires s <= t && s != t
    ensures |s| < |t|
  {
    var x :| x in t && x !in s;
    assert s <= t - {x};
    SubsetSize(s, t - {x});
  }

  /** Storing the value of its equation at a node keeps the invariant and lowers the weight. */
  lemma Narrow(preds: seq<seq<nat>>, dom: seq<set<nat>>, i: nat, s: set<nat>)
    requires Narrowing(preds, dom) && i < |dom|
    requires forall a: nat :: a in s <==> InEquation(preds, dom, i, a)
    requires i > 0 ==> SomeKnown(dom, preds[i])
    ensures Narrowing(preds, dom[i := s])
    ensures s != dom[i] ==> Weight(dom[i := s], |preds|) < Weight(dom, |preds|)
  {
    var dom' := dom[i := s];
    assert i in s;
    if i == 0 {
      assert s == {0};
    }
    NarrowUpper(preds, dom, i, s);
    NarrowBound(preds, dom, i, s);
    forall j: nat, a: nat | j < |dom| && Known(dom', j) && Dominates(preds, a, j) ensures a in dom'[j] {
      assert j != i ==> Known(dom, j);
    }
    forall j: nat, a: nat | j < |dom| && Known(dom', j) && InEquation(preds, dom', j, a) ensures a in dom'[j] {
      NarrowEquation(preds, dom, i, s, j, a);
    }
    forall j: nat | 0 < j < |dom| && Known(dom', j)
      ensures SomeKnown(dom', preds[j])
    {
      assert SomeKnown(dom, preds[j]);
      var k :| 0 <= k < |preds[j]| && Known(dom, preds[j][k]);
      assert Known(dom', preds[j][k]);
    }
    if s != dom[i] {
      WeightStep(dom, |preds|, i, s);
      if dom[i] == {} {
        BelowSize(s, |preds|);
      } else {
        assert s <= dom[i];
        SmallerSize(s, dom[i]);
      }
    }
  }

  lemma NarrowBound(preds: seq<seq<nat>>, dom: seq<set<nat>>, i: nat, s: set<nat>)
    requires Narrowing(preds, dom) && i < |dom|
    requires forall a: nat :: a in s <==> InEquation(preds, dom, i, a)
    ensures Below(s, |preds|)
  {
    forall a | a in s ensures a < |preds| {
      if a != i {
        var k :| 0 <= k < |preds[i]| && Known(dom, preds[i][k]);
        assert a in dom[preds[i][k]];
      }
    }
  }

  lemma NarrowUpper(preds: seq<seq<nat>>, dom: seq<set<nat>>, i: nat, s: set<nat>)
    requires Narrowing(preds, dom) && i < |dom|
    requires forall a: nat :: a in s <==> InEquation(preds, dom, i, a)
    requires i > 0 ==> SomeKnown(dom, preds[i])
    ensures forall a: nat | Dominates(preds, a, i) :: a in s
  {
    forall a: nat | Dominates(preds, a, i) ensures a in s {
      if a != i {
        if i == 0 {
          DominatorsAreSmaller(preds, a, i);
        }
        forall k | 0 <= k < |preds[i]| && Known(dom, preds[i][k]) ensures a in dom[preds[i][k]] {
          DominatesPred(preds, a, i, preds[i][k]);
        }
      }
    }
  }

  lemma NarrowEquation(preds: seq<seq<nat>>, dom: seq<set<nat>>, i: nat, s: set<nat>, j: nat, a: nat)
    requires Narrowing(preds, dom) && i < |dom| && j < |dom|
    requires forall a: nat :: a in s <==> InEquation(preds, dom, i, a)
    requires i > 0 ==> SomeKnown(dom, preds[i])
    requires Known(dom[i := s], j) && InEquation(preds, dom[i := s], j, a)
    ensures a in dom[i := s][j]
  {
    var dom' := dom[i := s];
    assert i in s;
    if a != j && (j == i || Known(dom, j)) {
      assert j > 0;
      assert SomeKnown(dom, preds[j]);
      var k0 :| 0 <= k0 < |preds[j]| && Known(dom, preds[j][k0]);
      forall k | 0 <= k < |preds[j]| && Known(dom, preds[j][k]) ensures a in dom[preds[j][k]] {
        assert Known(dom', preds[j][k]);
        if preds[j][k] == i {
          assert InEquation(preds, dom, i, a);
        }
      }
      assert InMeet(dom, preds[j], a);
    } else if a == j && j != i {
      assert InEquation(preds, dom, j, a);
    }
  }

  /** A fixed point holds nothing but dominators. */
  lemma {:induction false} FixedPointOnPath(preds: seq<seq<nat>>, dom: seq<set<nat>>, p: seq<nat>, a: nat)
    requires Narrowing(preds, dom) && Path(preds, p)
    requires forall i: nat | i < |dom| :: Known(dom, i)
    requires forall i: nat, a: nat | i < |dom| && a in dom[i] :: InEquation(preds, dom, i, a)
    requires a in dom[p[|p| - 1]]
    ensures a in p
  {
    var b := p[|p| - 1];
    assert InEquation(preds, dom, b, a);
    if a != b {
      var q := p[..|p| - 1];
      assert |p| > 1;
      assert p[|p| - 2] in preds[b];
      var k :| 0 <= k < |preds[b]| && preds[b][k] == p[|p| - 2];
      assert Known(dom, preds[b][k]);
      FixedPointOnPath(preds, dom, q, a);
    }
  }

  /** The last round leaves exactly the dominators. */
  lemma FixedPointIsDominance(preds: seq<seq<nat>>, dom: seq<set<nat>>)
    requires Narrowing(preds, dom)
    requires forall i: nat | i < |dom| :: Known(dom, i)
    requires forall i: nat, a: nat | i < |dom| && a in dom[i] :: InEquation(preds, dom, i, a)
    ensures forall i: nat, a: nat | i < |dom| :: a in dom[i] <==> Dominates(preds, a, i)
  {
    forall i: nat, a: nat | i < |dom| && a in dom[i] ensures Dominates(preds, a, i) {
      forall p | PathTo(preds, p, i) ensures a in p {
        FixedPointOnPath(preds, dom, p, a);
      }
    }
  }

  /** The meet of the known sets of a list: the first of them, intersected with the later ones. */
  function Meet(dom: seq<set<nat>>, l: seq<nat>): set<nat>
    requires forall k | 0 <= k < |l| :: l[k] < |dom|
  {
    if l == [] then {} else
      var x, rest := l[|l| - 1], l[..|l| - 1];
      if dom[x] == {} then Meet(dom, rest)
      else if !SomeKnown(dom, rest) then dom[x]
      else Meet(dom, rest) * dom[x]
  }

  lemma {:induction false} MeetMembers(dom: seq<set<nat>>, l: seq<nat>)
    requires forall k | 0 <= k < |l| :: l[k] < |dom|
    ensures forall a: nat :: a in Meet(dom, l) <==> InMeet(dom, l, a)
  {
    if l != [] {
      MeetMembers(dom, l[..|l| - 1]);
      forall a: nat ensures a in Meet(dom, l) <==> InMeet(dom, l, a) {
        InMeetOfMore(dom, l[..|l| - 1], l[|l| - 1], a);
        assert l == l[..|l| - 1] + [l[|l| - 1]];
      }
    }
  }

  lemma InMeetOfMore(dom: seq<set<nat>>, l: seq<nat>, x: nat, a: nat)
    requires x < |dom|
    ensures InMeet(dom, l + [x], a) <==>
      if dom[x] == {} then InMeet(dom, l, a)
      else if !SomeKnown(dom, l) then a in dom[x]
      else InMeet(dom, l, a) && a in dom[x]
  {
    var m := l + [x];
    assert m[|l|] == x;
    assert forall k | 0 <= k < |l| :: m[k] == l[k];
    assert SomeKnown(dom, m) <==> SomeKnown(dom, l) || Known(dom, x) by {
      if SomeKnown(dom, l) {
        var k :| 0 <= k < |l| && Known(dom, l[k]);
        assert Known(dom, m[k]);
      }
    }
    if InMeet(dom, m, a) {
      forall k | 0 <= k < |l| && Known(dom, l[k]) ensures a in dom[l[k]] {
        assert Known(dom, m[k]);
      }
    }
  }

  function Equation(preds: seq<seq<nat>>, dom: seq<set<nat>>, i: nat): set<nat>
    requires |dom| == |preds| && i < |preds| && forall k | 0 <= k < |preds[i]| :: preds[i][k] < |dom|
  {
    Meet(dom, preds[i]) + {i}
  }

  /** One round over the nodes from i on, each using the sets of the moment. */
  function RoundFrom(preds: seq<seq<nat>>, dom: seq<set<nat>>, i: nat): (r: seq<set<nat>>)
    requires InRange(preds) && |dom| == |preds| && i <= |preds|
    ensures |r| == |dom|
    decreases |preds| - i
  {
    if i == |preds| then dom else RoundFrom(preds, dom[i := Equation(preds, dom, i)], i + 1)
  }

  function Rounds(preds: seq<seq<nat>>, dom: seq<set<nat>>, k: nat): (r: seq<set<nat>>)
    requires InRange(preds) && |dom| == |preds|
    ensures |r| == |dom|
  {
    if k == 0 then dom else RoundFrom(preds, Rounds(preds, dom, k - 1), 0)
  }

  function Start(n: nat): (dom: seq<set<nat>>)
    requires n > 0
    ensures |dom| == n
  {
    seq(n, (i: nat) => if i == 0 then {1} else {})
  }

  /** Why the root must have no predecessor. On this graph every node is reached, yet the rounds swap two states for
      ever: the loop does not end. */
  const LOOPED: seq<seq<nat>> := [[2], [0], [1, 3], [0]]

  lemma MeetOfOne(dom: seq<set<nat>>, x: nat)
    requires x < |dom|
    ensures Meet(dom, [x]) == dom[x]
  {
    assert [x][..0] == [];
  }

  lemma MeetOfTwo(dom: seq<set<nat>>, x: nat, y: nat)
    requires x < |dom| && y < |dom| && dom[x] != {}
    ensures Meet(dom, [x, y]) == if dom[y] == {} then dom[x] else dom[x] * dom[y]
  {
    assert [x, y][..1] == [x];
    MeetOfOne(dom, x);
    assert Known(dom, [x][0]);
  }

  lemma RoundStep(d: seq<set<nat>>, i: nat, s: set<nat>)
    requires |d| == 4 && i < 4
    ensures |LOOPED| == 4 && InRange(LOOPED)
    ensures Meet(d, LOOPED[i]) + {i} == s ==> RoundFrom(LOOPED, d, i) == RoundFrom(LOOPED, d[i := s], i + 1)
  {
  }

  lemma RoundOfLooped(d: seq<set<nat>>, d0: set<nat>, d1: set<nat>, d2: set<nat>, d3: set<nat>)
    requires |d| == 4 && d0 == d[2] + {0} && d1 == d0 + {1} && d3 == d0 + {3}
    requires d2 == (if d[3] == {} then d1 else d1 * d[3]) + {2}
    ensures |LOOPED| == 4 && InRange(LOOPED) && RoundFrom(LOOPED, d, 0) == [d0, d1, d2, d3]
  {
    MeetOfOne(d, 2);
    RoundStep(d, 0, d0);
    var e := d[0 := d0];
    MeetOfOne(e, 0);
    RoundStep(e, 1, d1);
    var f := e[1 := d1];
    MeetOfTwo(f, 1, 3);
    RoundStep(f, 2, d2);
    var g := f[2 := d2];
    MeetOfOne(g, 0);
    RoundStep(g, 3, d3);
    assert g[3 := d3] == [d0, d1, d2, d3];
  }

  const FIRST: seq<set<nat>> := [{0}, {0, 1}, {0, 1, 2}, {0, 3}]
  const EVEN: seq<set<nat>> := [{0, 1, 2}, {0, 1, 2}, {0, 2}, {0, 1, 2, 3}]
  const ODD: seq<set<nat>> := [{0, 2}, {0, 1, 2}, {0, 1, 2}, {0, 2, 3}]

  lemma RoundOfStart()
    ensures |LOOPED| == 4 && InRange(LOOPED) && RoundFrom(LOOPED, Start(4), 0) == FIRST
  {
    RoundOfLooped(Start(4), {0}, {0, 1}, {0, 1, 2}, {0, 3});
  }

  lemma RoundOfFirst()
    ensures |LOOPED| == 4 && InRange(LOOPED) && RoundFrom(LOOPED, FIRST, 0) == EVEN
  {
    RoundOfLooped(FIRST, {0, 1, 2}, {0, 1, 2}, {0, 2}, {0, 1, 2, 3});
  }

  lemma RoundOfEven()
    ensures |LOOPED| == 4 && InRange(LOOPED) && RoundFrom(LOOPED, EVEN, 0) == ODD
  {
    RoundOfLooped(EVEN, {0, 2}, {0, 1, 2}, {0, 1, 2}, {0, 2, 3});
  }

  lemma RoundOfOdd()
    ensures |LOOPED| == 4 && InRange(LOOPED) && RoundFrom(LOOPED, ODD, 0) == EVEN
  {
    RoundOfLooped(ODD, {0, 1, 2}, {0, 1, 2}, {0, 2}, {0, 1, 2, 3});
  }

  /** From the second round on two states take turns. */
  lemma {:induction false} TakeTurns(g: seq<seq<nat>>, start: seq<set<nat>>, first: seq<set<nat>>,
                                     even: seq<set<nat>>, odd: seq<set<nat>>, k: nat)
    requires InRange(g) && |start| == |first| == |even| == |odd| == |g|
    requires RoundFrom(g, start, 0) == first && RoundFrom(g, first, 0) == even
    requires RoundFrom(g, even, 0) == odd && RoundFrom(g, odd, 0) == even
    ensures Rounds(g, start, k) ==
      if k == 0 then start else if k == 1 then first else if k % 2 == 0 then even else odd
  {
    if k > 0 {
      TakeTurns(g, start, first, even, odd, k - 1);
    }
  }

  lemma RootLoopRunsForEver(k: nat)
    ensures |LOOPED| == 4 && InRange(LOOPED)
    ensures Rounds(LOOPED, Start(4), k + 1) != Rounds(LOOPED, Start(4), k)
  {
    RoundOfStart();
    RoundOfFirst();
    RoundOfEven();
    RoundOfOdd();
    TakeTurns(LOOPED, Start(4), FIRST, EVEN, ODD, k);
    TakeTurns(LOOPED, Start(4), FIRST, EVEN, ODD, k + 1);
    assert 1 in EVEN[0] && 1 !in ODD[0] && 1 !in FIRST[0] && 0 in FIRST[0] && 0 !in Start(4)[0];
  }

  /** The true dominators, of a graph whose root may have predecessors. */
  ghost predicate TrueSets(preds: seq<seq<nat>>, dom: seq<set<nat>>) {
    && |dom| == |preds| > 0
    && forall i: nat, a: nat | i < |dom| :: a in dom[i] <==> Dominates(preds, a, i)
  }

  ghost predicate DominatesAll(preds: seq<seq<nat>>, a: nat, l: seq<nat>) {
    forall k | 0 <= k < |l| :: Dominates(preds, a, l[k])
  }

  /** No other node dominates all predecessors of the root. */
  ghost predicate RootStands(preds: seq<seq<nat>>)
    requires |preds| > 0
  {
    preds[0] != [] ==> !exists a: nat :: a != 0 && DominatesAll(preds, a, preds[0])
  }

  lemma MeetOfTrueSets(preds: seq<seq<nat>>, dom: seq<set<nat>>, i: nat, a: nat)
    requires InRange(preds) && TrueSets(preds, dom) && i < |dom|
    ensures InMeet(dom, preds[i], a) <==> preds[i] != [] && DominatesAll(preds, a, preds[i])
  {
    forall k | 0 <= k < |preds[i]| ensures Known(dom, preds[i][k]) {
      SelfDominates(preds, preds[i][k]);
    }
    assert preds[i] != [] ==> Known(dom, preds[i][0]);
  }

  /** Every node but the root has the dominators that its predecessors share, and itself. */
  lemma TrueEquation(preds: seq<seq<nat>>, dom: seq<set<nat>>, i: nat)
    requires InRange(preds) && TrueSets(preds, dom) && 0 < i < |dom|
    ensures Equation(preds, dom, i) == dom[i]
  {
    MeetMembers(dom, preds[i]);
    forall a: nat ensures a in Equation(preds, dom, i) <==> a in dom[i] {
      MeetOfTrueSets(preds, dom, i, a);
      SelfDominates(preds, i);
      if a in dom[i] && a != i {
        forall k | 0 <= k < |preds[i]| ensures Dominates(preds, a, preds[i][k]) {
          DominatesPred(preds, a, i, preds[i][k]);
        }
        HasPred(preds, dom, i);
      }
      if InMeet(dom, preds[i], a) {
        forall p | PathTo(preds, p, i) ensures a in p {
          PrefixPath(preds, p, |p| - 2);
          var k :| 0 <= k < |preds[i]| && preds[i][k] == p[|p| - 2];
          assert Dominates(preds, a, preds[i][k]);
        }
      }
    }
  }

  lemma HasPred(preds: seq<seq<nat>>, dom: seq<set<nat>>, i: nat)
    requires TrueSets(preds, dom) && 0 < i < |dom|
    ensures preds[i] != []
  {
    var n: nat := Beyond(dom[i]);
    assert !Dominates(preds, n, i);
    var p :| PathTo(preds, p, i) && n !in p;
    assert p[|p| - 2] in preds[i];
  }

  /** A number that is not in the set. */
  ghost function Beyond(s: set<nat>): (n: nat)
    ensures forall a | a in s :: a < n
  {
    if s == {} then 0 else
      var x :| x in s;
      var m := Beyond(s - {x});
      assert forall a | a in s :: a == x || a in s - {x};
      if x < m then m else x + 1
  }

  lemma TrueRootEquation(preds: seq<seq<nat>>, dom: seq<set<nat>>)
    requires InRange(preds) && TrueSets(preds, dom)
    ensures Equation(preds, dom, 0) == dom[0] <==> RootStands(preds)
  {
    MeetMembers(dom, preds[0]);
    forall a: nat ensures a in dom[0] <==> a == 0 {
      SelfDominates(preds, 0);
      assert PathTo(preds, [0], 0);
    }
    forall a: nat
      ensures a in Equation(preds, dom, 0) <==> a == 0 || (preds[0] != [] && DominatesAll(preds, a, preds[0]))
    {
      MeetOfTrueSets(preds, dom, 0, a);
    }
    if RootStands(preds) {
      assert Equation(preds, dom, 0) == dom[0];
    }
  }

  lemma {:induction false} RoundKeepsBelow(preds: seq<seq<nat>>, dom: seq<set<nat>>, i: nat, j: nat)
    requires InRange(preds) && |dom| == |preds| && j < i <= |preds|
    ensures RoundFrom(preds, dom, i)[j] == dom[j]
    decreases |preds| - i
  {
    if i < |preds| {
      RoundKeepsBelow(preds, dom[i := Equation(preds, dom, i)], i + 1, j);
    }
  }

  lemma {:induction false} RoundRests(preds: seq<seq<nat>>, dom: seq<set<nat>>, i: nat)
    requires InRange(preds) && |dom| == |preds| && i <= |preds|
    requires forall j: nat | i <= j < |dom| :: Equation(preds, dom, j) == dom[j]
    ensures RoundFrom(preds, dom, i) == dom
    decreases |preds| - i
  {
    if i < |preds| {
      assert dom[i := dom[i]] == dom;
      RoundRests(preds, dom, i + 1);
    }
  }

  /** The iteration can end with the dominators exactly when no other node dominates all predecessors of the root. */
  lemma RootMustStand(preds: seq<seq<nat>>, dom: seq<set<nat>>)
    requires InRange(preds) && TrueSets(preds, dom)
    ensures RoundFrom(preds, dom, 0) == dom <==> RootStands(preds)
  {
    TrueRootEquation(preds, dom);
    RoundKeepsBelow(preds, dom[0 := Equation(preds, dom, 0)], 1, 0);
    if RootStands(preds) {
      forall j: nat | j < |dom| ensures Equation(preds, dom, j) == dom[j] {
        if j > 0 {
          TrueEquation(preds, dom, j);
        }
      }
      RoundRests(preds, dom, 0);
    }
  }

  /** The graph as the constructor finds it: the nodes numbered in depth-first order from 0 on, those that the search
      did not reach having numbers from count on, and the sources of each node's incoming edges. */
  ghost predicate Flow(incoming: seq<seq<nat>>, count: nat) {
    && 0 < count <= |incoming| && InRange(incoming)
    && (forall i | 0 < i < count :: SomeBelow(incoming[i], i))
    && (forall i, k | count <= i < |incoming| && 0 <= k < |incoming[i]| :: incoming[i][k] >= count)
  }

  /** The number looked up for a source; nodes without a number read as the root. */
  function NodeNum(x: nat, count: nat): nat {
    if x < count then x else 0
  }

  function ReadOne(l: seq<nat>, count: nat): (r: seq<nat>)
    ensures |r| == |l| && forall k | 0 <= k < |l| :: r[k] == NodeNum(l[k], count)
  {
    seq(|l|, k requires 0 <= k < |l| => NodeNum(l[k], count))
  }

  /** The graph that the dominator sets are computed for. */
  function Read(incoming: seq<seq<nat>>, count: nat): (r: seq<seq<nat>>)
    requires count <= |incoming|
    ensures |r| == count && forall i | 0 <= i < count :: r[i] == ReadOne(incoming[i], count)
  {
    seq(count, i requires 0 <= i < count => ReadOne(incoming[i], count))
  }

  lemma ReadNumbered(incoming: seq<seq<nat>>, count: nat)
    requires Flow(incoming, count)
    ensures Numbered(Read(incoming, count)) && InRange(Read(incoming, count))
  {
    var r := Read(incoming, count);
    forall i | 0 < i < count ensures SomeBelow(r[i], i) {
      var j :| j in incoming[i] && j < i;
      var k :| 0 <= k < |incoming[i]| && incoming[i][k] == j;
      assert r[i][k] == j;
      assert j in r[i] && j < i;
    }
  }

  /** An unreached source does no harm at a node that only the root and the node itself dominate. */
  ghost predicate StraysAreHarmless(incoming: seq<seq<nat>>, count: nat) {
    forall b, a, x | 0 <= b < count <= |incoming| && x in incoming[b] && x >= count
        && StrictlyDominates(incoming, a, b) :: a == 0
  }

  lemma {:induction false} PathsAreReached(incoming: seq<seq<nat>>, count: nat, p: seq<nat>)
    requires Flow(incoming, count) && Path(incoming, p)
    ensures Path(Read(incoming, count), p)
  {
    if |p| > 1 {
      var q := p[..|p| - 1];
      PathsAreReached(incoming, count, q);
      var x, b := p[|p| - 2], p[|p| - 1];
      assert x == q[|q| - 1] && x < count;
      assert x in incoming[b];
      var k :| 0 <= k < |incoming[b]| && incoming[b][k] == x;
      assert b < count;
      assert Read(incoming, count)[b][k] == x;
    }
  }

  lemma {:induction false} ReadPathsMeet(incoming: seq<seq<nat>>, count: nat, p: seq<nat>, a: nat)
    requires Flow(incoming, count) && StraysAreHarmless(incoming, count) && Path(Read(incoming, count), p)
    requires Dominates(incoming, a, p[|p| - 1])
    ensures a in p
  {
    var b := p[|p| - 1];
    if a != b && a != 0 {
      if |p| == 1 {
        assert PathTo(incoming, [0], 0);
        assert false;
      } else {
        var y := p[|p| - 2];
        assert y in Read(incoming, count)[b];
        var k :| 0 <= k < |incoming[b]| && NodeNum(incoming[b][k], count) == y;
        var x := incoming[b][k];
        assert StrictlyDominates(incoming, a, b) && x in incoming[b];
        DominatesPred(incoming, a, b, x);
        ReadPathsMeet(incoming, count, p[..|p| - 1], a);
      }
    } else if a == 0 {
      assert p[0] == a;
    }
  }

  lemma NeverEnds(incoming: seq<seq<nat>>, p: seq<nat>, b: nat)
    requires Path(incoming, p) && 0 < b < |incoming| && incoming[b] == []
    ensures p[|p| - 1] != b
  {
    assert |p| > 1 ==> p[|p| - 2] in incoming[p[|p| - 1]];
  }

  /** Node 3 is not reached and leads to 2, which 1 dominates: read as the root it leads past 1. */
  lemma StrayExample(incoming: seq<seq<nat>>)
    requires |incoming| == 4 && incoming[0] == [] && incoming[1] == [0] && incoming[2] == [1, 3] && incoming[3] == []
    ensures Flow(incoming, 3) && Dominates(incoming, 1, 2) && !Dominates(Read(incoming, 3), 1, 2)
  {
    assert 0 in incoming[1] && 1 in incoming[2];
    forall p | PathTo(incoming, p, 2) ensures 1 in p {
      PrefixPath(incoming, p, |p| - 2);
      NeverEnds(incoming, p[..|p| - 1], 3);
      assert p[|p| - 2] in incoming[2];
    }
    assert Read(incoming, 3)[2][1] == 0;
    assert PathTo(Read(incoming, 3), [0, 2], 2);
  }

  /** Reading unreached sources as the root keeps dominance exactly when they are harmless. */
  lemma ReadingKeepsDominance(incoming: seq<seq<nat>>, count: nat)
    requires Flow(incoming, count)
    ensures (forall i: nat, a: nat | i < count :: Dominates(Read(incoming, count), a, i) <==> Dominates(incoming, a, i))
      <==> StraysAreHarmless(incoming, count)
  {
    var r := Read(incoming, count);
    if StraysAreHarmless(incoming, count) {
      forall i: nat, a: nat | i < count ensures Dominates(r, a, i) <==> Dominates(incoming, a, i) {
        if Dominates(r, a, i) {
          forall p | PathTo(incoming, p, i) ensures a in p {
            PathsAreReached(incoming, count, p);
          }
        }
        if Dominates(incoming, a, i) {
          forall p | PathTo(r, p, i) ensures a in p {
            ReadPathsMeet(incoming, count, p, a);
          }
        }
      }
    }
    if forall i: nat, a: nat | i < count :: Dominates(r, a, i) <==> Dominates(incoming, a, i) {
      forall b, a, x | 0 <= b < count && x in incoming[b] && x >= count && StrictlyDominates(incoming, a, b)
        ensures a == 0
      {
        var k :| 0 <= k < |incoming[b]| && incoming[b][k] == x;
        assert r[b][k] == 0;
        assert PathTo(r, [0, b], b);
        assert a in [0, b];
      }
    }
  }
}
