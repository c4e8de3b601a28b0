/** Sums of lengths: the numbers reached when each length may be used any number of times. */
module LengthSums {
  import opened Ratios

  ghost predicate SumOf(l: iset<nat>, n: nat)
    decreases n
  {
    n == 0 || exists x :: x in l && 0 < x <= n && SumOf(l, n - x)
  }

  ghost predicate DividesAll(d: nat, l: iset<nat>) {
    forall x | x in l :: Divides(d, x)
  }

  /** The greatest common divisor is 1. */
  ghost predicate OnlyUnit(l: iset<nat>) {
    forall d: nat | DividesAll(d, l) :: d == 1
  }

  lemma {:induction false} SumPlus(l: iset<nat>, m: nat, n: nat)
    requires SumOf(l, m) && SumOf(l, n)
    ensures SumOf(l, m + n)
    decreases m
  {
    if m > 0 {
      var x :| x in l && 0 < x <= m && SumOf(l, m - x);
      SumPlus(l, m - x, n);
      assert SumOf(l, (m + n) - x);
    }
  }

  lemma {:induction false} SumTimes(l: iset<nat>, k: nat, n: nat)
    requires SumOf(l, n)
    ensures k * n >= 0 && SumOf(l, k * n)
  {
    if k > 0 {
      SumTimes(l, k - 1, n);
      SumPlus(l, (k - 1) * n, n);
      assert (k - 1) * n + n == k * n;
    }
  }

  lemma SumOne(l: iset<nat>, x: nat)
    requires x in l && x > 0
    ensures SumOf(l, x)
  {
    assert SumOf(l, x - x);
  }

  lemma {:induction false} LargeSum(l: iset<nat>, x: nat, k: nat) returns (n: nat)
    requires x in l && x > 0
    ensures n >= k && SumOf(l, n)
  {
    if k == 0 {
      n := 0;
    } else {
      n := LargeSum(l, x, k - 1);
      SumOne(l, x);
      SumPlus(l, n, x);
      n := n + x;
    }
  }

  lemma DividesPlus(d: int, x: int, y: int)
    requires Divides(d, x) && Divides(d, y)
    ensures Divides(d, x + y) && Divides(d, x - y)
  {
    var i: int :| x == i * d;
    var j: int :| y == j * d;
    assert x + y == (i + j) * d && x - y == (i - j) * d;
  }

  lemma {:induction false} SumDivides(l: iset<nat>, d: nat, n: nat)
    requires DividesAll(d, l) && SumOf(l, n)
    ensures Divides(d, n)
    decreases n
  {
    if n == 0 {
      assert n == 0 * d;
    } else {
      var x :| x in l && 0 < x <= n && SumOf(l, n - x);
      SumDivides(l, d, n - x);
      DividesPlus(d, n - x, x);
    }
  }

  lemma Remainder(x: nat, m: nat) returns (q: nat, r: nat)
    requires m > 0
    ensures q * m + r == x && r < m && (r == 0 ==> Divides(m, x))
  {
    q, r := x / m, x % m;
    assert r == 0 ==> x == q * m;
  }

  lemma GapOfMultiples(q: nat, s: nat, m: nat)
    ensures q * (s + m) == q * s + q * m && q * s >= 0
  {
  }

  /** Of two sums with a positive gap: the gap divides all lengths, or there are two with a smaller one. */
  lemma {:induction false} LeastGap(l: iset<nat>, s: nat, m: nat) returns (s': nat, m': nat)
    requires m > 0 && SumOf(l, s) && SumOf(l, s + m)
    ensures m' > 0 && SumOf(l, s') && SumOf(l, s' + m') && DividesAll(m', l)
    decreases m
  {
    assert Divides(m, 0) by {
      assert 0 == 0 * m;
    }
    if DividesAll(m, l) {
      s', m' := s, m;
    } else {
      var x :| x in l && !Divides(m, x);
      var q, r := Remainder(x, m);
      SumOne(l, x);
      SumTimes(l, q, s);
      SumPlus(l, x, q * s);
      SumTimes(l, q, s + m);
      GapOfMultiples(q, s, m);
      s', m' := LeastGap(l, q * (s + m), r);
    }
  }

  /** With greatest common divisor 1 all large numbers are sums. */
  lemma LargeSums(l: iset<nat>) returns (t: nat)
    requires OnlyUnit(l)
    ensures forall n: nat | n >= t :: SumOf(l, n)
  {
    if forall y | y in l :: y == 0 {
      forall y | y in l ensures Divides(2, y) {
        assert y == 0 * 2;
      }
      assert DividesAll(2, l);
    }
    var x :| x in l && x > 0;
    SumOne(l, x);
    var s, m := LeastGap(l, 0, x);
    t := s * s;
    forall n: nat | n >= t ensures SumOf(l, n) {
      ConsecutiveSums(l, s, n);
    }
  }

  lemma LargeQuotient(s: nat, n: nat) returns (q: nat, r: nat)
    requires s > 0 && n >= s * s
    ensures q * s + r == n && r < s <= q
  {
    q, r := Remainder(n, s);
    BelowSquare(q, r, s);
  }

  lemma BelowSquare(q: nat, r: nat, s: nat)
    ensures q < s && r < s ==> q * s + r < s * s
  {
    if q < s && r < s {
      assert (s - (q + 1)) * s >= 0;
      assert (s - (q + 1)) * s == s * s - q * s - s;
    }
  }

  lemma Mixed(q: nat, r: nat, s: nat)
    requires r <= q
    ensures (q - r) * s + r * (s + 1) == q * s + r
  {
    assert (q - r) * s == q * s - r * s;
    assert r * (s + 1) == r * s + r;
  }

  lemma ConsecutiveSums(l: iset<nat>, s: nat, n: nat)
    requires SumOf(l, s) && SumOf(l, s + 1) && n >= s * s
    ensures SumOf(l, n)
  {
    if s == 0 {
      SumTimes(l, n, 1);
    } else {
      var q, r := LargeQuotient(s, n);
      SumTimes(l, q - r, s);
      SumTimes(l, r, s + 1);
      SumPlus(l, (q - r) * s, r * (s + 1));
      Mixed(q, r, s);
    }
  }

  /** And only then. */
  lemma AllLargeAreSums(l: iset<nat>, t: nat)
    requires forall n: nat | n >= t :: SumOf(l, n)
    ensures l != iset{} && OnlyUnit(l)
  {
    assert SumOf(l, t + 1);
    forall d: nat | DividesAll(d, l) ensures d == 1 {
      SumDivides(l, d, t);
      SumDivides(l, d, t + 1);
      DividesPlus(d, t + 1, t);
      UnitDivides(d);
    }
  }

  lemma UnitDivides(d: nat)
    requires Divides(d, 1)
    ensures d == 1
  {
    var k: int :| 1 == k * d;
    NoSmallMultiple(k, d);
  }
}

/** The rounds on a graph whose root may have predecessors. What a node lacks is passed on along paths that do not come
    back to the root, one round later for each edge that does not rise, and the root itself gets it back in loops. */
module RootLoops {
  import opened Collections
  import opened Dominance
  import opened DominatorSets
  import opened LengthSums
  import opened Ratios

  /** The sets after t rounds. */
  function After(preds: seq<seq<nat>>, t: nat): (dom: seq<set<nat>>)
    requires |preds| > 0 && InRange(preds)
    ensures |dom| == |preds|
  {
    Rounds(preds, Start(|preds|), t)
  }

  /** How many edges of a path do not lead to a larger number. */
  ghost function Backs(p: seq<nat>): nat {
    if |p| < 2 then 0 else Backs(p[..|p| - 1]) + if p[|p| - 2] >= p[|p| - 1] then 1 else 0
  }

  /** A path to b that avoids a and never comes back to the root. */
  ghost predicate Route(preds: seq<seq<nat>>, a: nat, p: seq<nat>, b: nat) {
    PathTo(preds, p, b) && a !in p && forall k | 0 < k < |p| :: p[k] != 0
  }

  /** A route to a predecessor of the root, closed by the edge back to it. */
  ghost predicate Loop(preds: seq<seq<nat>>, a: nat, p: seq<nat>) {
    |preds| > 0 && |p| > 0 && Route(preds, a, p, p[|p| - 1]) && p[|p| - 1] in preds[0]
  }

  ghost predicate LoopLength(preds: seq<seq<nat>>, a: nat, n: nat) {
    exists p :: Loop(preds, a, p) && n == 1 + Backs(p)
  }

  ghost function Loops(preds: seq<seq<nat>>, a: nat): iset<nat> {
    iset n: nat | LoopLength(preds, a, n)
  }

  /** The equation of a node is evaluated on the new sets of smaller numbers and the old sets of the others. */
  lemma {:induction false} RoundAt(preds: seq<seq<nat>>, dom: seq<set<nat>>, j: nat, i: nat)
    requires InRange(preds) && |dom| == |preds| && j <= i < |preds|
    ensures var r := RoundFrom(preds, dom, j); r[i] == Equation(preds, r[..i] + dom[i..], i)
    decreases i - j
  {
    var next := dom[j := Equation(preds, dom, j)];
    var r := RoundFrom(preds, dom, j);
    assert r == RoundFrom(preds, next, j + 1);
    if j < i {
      RoundAt(preds, next, j + 1, i);
      assert next[i..] == dom[i..];
    } else {
      forall k: nat | k <= i ensures r[k] == next[k] {
        RoundKeepsBelow(preds, next, i + 1, k);
      }
      assert r[..i] + dom[i..] == dom;
    }
  }

  /** The set of p that the equation of i sees in round t. */
  ghost function Seen(preds: seq<seq<nat>>, t: nat, i: nat, p: nat): set<nat>
    requires |preds| > 0 && InRange(preds) && t > 0 && p < |preds|
  {
    if p < i then After(preds, t)[p] else After(preds, t - 1)[p]
  }

  lemma StepAt(preds: seq<seq<nat>>, t: nat, i: nat, a: nat)
    requires |preds| > 0 && InRange(preds) && t > 0 && i < |preds|
    ensures a in After(preds, t)[i] <==>
              a == i ||
              ((exists p :: p in preds[i] && Seen(preds, t, i, p) != {}) &&
               forall p | p in preds[i] && Seen(preds, t, i, p) != {} :: a in Seen(preds, t, i, p))
  {
    var was, now := After(preds, t - 1), After(preds, t);
    var seen := now[..i] + was[i..];
    RoundAt(preds, was, 0, i);
    assert now[i] == Equation(preds, seen, i);
    MeetMembers(seen, preds[i]);
    forall p | p in preds[i] ensures p < |preds| && seen[p] == Seen(preds, t, i, p) {
      var k :| 0 <= k < |preds[i]| && preds[i][k] == p;
    }
    SeenMeet(preds, t, i, a, seen);
  }

  lemma SeenMeet(preds: seq<seq<nat>>, t: nat, i: nat, a: nat, seen: seq<set<nat>>)
    requires |preds| > 0 && InRange(preds) && t > 0 && i < |preds| && |seen| == |preds|
    requires forall p | p in preds[i] :: p < |preds| && seen[p] == Seen(preds, t, i, p)
    ensures InMeet(seen, preds[i], a) <==>
              (exists p :: p in preds[i] && Seen(preds, t, i, p) != {}) &&
              forall p | p in preds[i] && Seen(preds, t, i, p) != {} :: a in Seen(preds, t, i, p)
  {
    if p :| p in preds[i] && Seen(preds, t, i, p) != {} {
      var k :| 0 <= k < |preds[i]| && preds[i][k] == p;
      assert Known(seen, preds[i][k]);
    }
    if InMeet(seen, preds[i], a) {
      forall p | p in preds[i] && Seen(preds, t, i, p) != {} ensures a in Seen(preds, t, i, p) {
        var k :| 0 <= k < |preds[i]| && preds[i][k] == p;
        assert Known(seen, preds[i][k]);
      }
    }
  }

  lemma HoldsItself(preds: seq<seq<nat>>, t: nat, i: nat)
    requires |preds| > 0 && InRange(preds) && t > 0 && i < |preds|
    ensures i in After(preds, t)[i]
  {
    StepAt(preds, t, i, i);
  }

  /** Any node but the root lacks what it is not itself and what one of its predecessors lacked when it was looked
      at. */
  ghost predicate LackedBy(preds: seq<seq<nat>>, a: nat, t: nat, i: nat, p: nat)
    requires |preds| > 0 && InRange(preds) && t > 0
  {
    p < |preds| && if p < i then a !in After(preds, t)[p] else t > 1 && a !in After(preds, t - 1)[p]
  }

  lemma LackStep(preds: seq<seq<nat>>, a: nat, t: nat, i: nat)
    requires Numbered(preds) && InRange(preds) && t > 0 && 0 < i < |preds|
    ensures a !in After(preds, t)[i] <==> a != i && exists p :: p in preds[i] && LackedBy(preds, a, t, i, p)
  {
    StepAt(preds, t, i, a);
    forall p | p in preds[i]
      ensures p < |preds| && (Seen(preds, t, i, p) != {} <==> p < i || t > 1)
    {
      var k :| 0 <= k < |preds[i]| && preds[i][k] == p;
      if p < i {
        HoldsItself(preds, t, p);
      } else if t > 1 {
        HoldsItself(preds, t - 1, p);
      }
    }
    var j :| j in preds[i] && j < i;
    assert Seen(preds, t, i, j) != {};
  }

  /** So does the root from the second round on, when it has predecessors. */
  lemma RootStep(preds: seq<seq<nat>>, a: nat, t: nat)
    requires Numbered(preds) && InRange(preds) && t > 0 && preds[0] != []
    ensures a !in After(preds, t + 1)[0] <==>
              a != 0 && exists p :: p in preds[0] && p < |preds| && a !in After(preds, t)[p]
  {
    StepAt(preds, t + 1, 0, a);
    forall p | p in preds[0] ensures p < |preds| && Seen(preds, t + 1, 0, p) == After(preds, t)[p] != {} {
      var k :| 0 <= k < |preds[0]| && preds[0][k] == p;
      HoldsItself(preds, t, p);
    }
    assert preds[0][0] in preds[0];
  }

  /** The first round leaves it with itself, and with the placeholder if it is its own predecessor. */
  lemma RootFirst(preds: seq<seq<nat>>)
    requires Numbered(preds) && InRange(preds)
    ensures After(preds, 1)[0] == if 0 in preds[0] then {0, 1} else {0}
  {
    forall a: nat ensures a in After(preds, 1)[0] <==> a == 0 || (a == 1 && 0 in preds[0]) {
      StepAt(preds, 1, 0, a);
      forall p | p in preds[0] ensures p < |preds| && (Seen(preds, 1, 0, p) == if p == 0 then {1} else {}) {
        var k :| 0 <= k < |preds[0]| && preds[0][k] == p;
        assert After(preds, 0)[p] == Start(|preds|)[p];
      }
    }
  }

  lemma RootAlone(preds: seq<seq<nat>>, t: nat)
    requires Numbered(preds) && InRange(preds) && preds[0] == [] && t > 0
    ensures After(preds, t)[0] == {0}
  {
    forall a: nat ensures a in After(preds, t)[0] <==> a == 0 {
      StepAt(preds, t, 0, a);
    }
  }

  // ----- What a node lacks, by routes -----

  /** A route along which the node has learnt by round t that a is missing. */
  ghost predicate Brings(preds: seq<seq<nat>>, a: nat, t: nat, i: nat, p: seq<nat>)
    requires |preds| > 0 && InRange(preds)
  {
    Route(preds, a, p, i) && Backs(p) < t && a !in After(preds, t - Backs(p))[0]
  }

  lemma RouteMore(preds: seq<seq<nat>>, a: nat, p: seq<nat>, b: nat, i: nat)
    requires Route(preds, a, p, b) && 0 < i < |preds| && b in preds[i] && a != i
    ensures Route(preds, a, p + [i], i) && Backs(p + [i]) == Backs(p) + if b >= i then 1 else 0
  {
    var q := p + [i];
    assert q[..|q| - 1] == p;
    ExtendPath(preds, p, b, i);
  }

  lemma RouteLess(preds: seq<seq<nat>>, a: nat, p: seq<nat>, i: nat)
    requires Route(preds, a, p, i) && i > 0
    ensures |p| > 1 && i < |preds| && p[|p| - 2] in preds[i] && p[|p| - 2] < |preds|
    ensures Route(preds, a, p[..|p| - 1], p[|p| - 2])
    ensures Backs(p) == Backs(p[..|p| - 1]) + if p[|p| - 2] >= i then 1 else 0
  {
    var q := p[..|p| - 1];
    assert |p| > 1 && i == p[|p| - 1] && p[|p| - 2] in preds[i];
    assert Path(preds, q) && q[|q| - 1] == p[|p| - 2];
    assert a !in q;
  }

  lemma RootRoute(preds: seq<seq<nat>>, a: nat, t: nat)
    requires |preds| > 0 && InRange(preds) && t > 0
    ensures a !in After(preds, t)[0] <==> exists p :: Brings(preds, a, t, 0, p)
  {
    HoldsItself(preds, t, 0);
    if a !in After(preds, t)[0] {
      assert Brings(preds, a, t, 0, [0]);
    }
  }

  lemma BringsMore(preds: seq<seq<nat>>, a: nat, t: nat, i: nat, p: nat, q: seq<nat>)
    requires |preds| > 0 && InRange(preds) && t > 0 && 0 < i < |preds| && p in preds[i] && a != i
    requires Brings(preds, a, if p < i then t else t - 1, p, q)
    ensures Brings(preds, a, t, i, q + [i])
  {
    RouteMore(preds, a, q, p, i);
  }

  lemma BringsLess(preds: seq<seq<nat>>, a: nat, t: nat, i: nat, q: seq<nat>) returns (p: nat)
    requires |preds| > 0 && InRange(preds) && t > 0 && i > 0 && Brings(preds, a, t, i, q)
    ensures i < |preds| && p in preds[i] && p < |preds| && a != i && (p < i || t > 1)
    ensures Brings(preds, a, if p < i then t else t - 1, p, q[..|q| - 1])
  {
    RouteLess(preds, a, q, i);
    p := q[|q| - 2];
    assert q[|q| - 1] == i;
  }

  /** A node lacks a after round t exactly when some route to it brings the message from a root that lacked it. */
  lemma {:induction false} Lacking(preds: seq<seq<nat>>, a: nat, t: nat, i: nat)
    requires Numbered(preds) && InRange(preds) && t > 0 && i < |preds|
    ensures a !in After(preds, t)[i] <==> exists p :: Brings(preds, a, t, i, p)
    decreases t, i
  {
    if i == 0 {
      RootRoute(preds, a, t);
    } else {
      LackStep(preds, a, t, i);
      if p :| p in preds[i] && LackedBy(preds, a, t, i, p) && a != i {
        var t' := if p < i then t else t - 1;
        Lacking(preds, a, t', p);
        var q :| Brings(preds, a, t', p, q);
        BringsMore(preds, a, t, i, p, q);
      }
      if q :| Brings(preds, a, t, i, q) {
        var p := BringsLess(preds, a, t, i, q);
        Lacking(preds, a, if p < i then t else t - 1, p);
        assert LackedBy(preds, a, t, i, p);
      }
    }
  }

  /** A loop takes the message once round. */
  lemma LoopBrings(preds: seq<seq<nat>>, a: nat, n: nat)
    requires Numbered(preds) && InRange(preds) && preds[0] != [] && a != 0 && n > 0
    ensures a !in After(preds, 1 + n)[0] <==>
              exists x :: x in Loops(preds, a) && 0 < x <= n && a !in After(preds, 1 + n - x)[0]
  {
    RootStep(preds, a, n);
    if p :| p in preds[0] && p < |preds| && a !in After(preds, n)[p] {
      Lacking(preds, a, n, p);
      var q :| Brings(preds, a, n, p, q);
      assert Loop(preds, a, q) && 1 + Backs(q) in Loops(preds, a);
    }
    if x :| x in Loops(preds, a) && 0 < x <= n && a !in After(preds, 1 + n - x)[0] {
      var q :| Loop(preds, a, q) && x == 1 + Backs(q);
      Lacking(preds, a, n, q[|q| - 1]);
      assert Brings(preds, a, n, q[|q| - 1], q);
    }
  }

  /** The root lacks a after round 1 + n exactly when n is a sum of lengths of loops that avoid a. */
  lemma {:induction false} RootSums(preds: seq<seq<nat>>, a: nat, n: nat)
    requires Numbered(preds) && InRange(preds) && preds[0] != [] && 0 !in preds[0] && a != 0
    ensures a !in After(preds, 1 + n)[0] <==> SumOf(Loops(preds, a), n)
    decreases n
  {
    if n == 0 {
      RootFirst(preds);
    } else {
      LoopBrings(preds, a, n);
      forall x | x in Loops(preds, a) && 0 < x <= n
        ensures a !in After(preds, 1 + n - x)[0] <==> SumOf(Loops(preds, a), n - x)
      {
        RootSums(preds, a, n - x);
      }
    }
  }

  // ----- Where the rounds lead -----

  ghost predicate Quiet(preds: seq<seq<nat>>, k: nat)
    requires |preds| > 0 && InRange(preds)
  {
    After(preds, k + 1) == After(preds, k)
  }

  /** The loop over the rounds ends. */
  ghost predicate Ends(preds: seq<seq<nat>>)
    requires |preds| > 0 && InRange(preds)
  {
    exists k :: Quiet(preds, k)
  }

  ghost predicate EndsWithDominators(preds: seq<seq<nat>>)
    requires |preds| > 0 && InRange(preds)
  {
    exists k :: Quiet(preds, k) && TrueSets(preds, After(preds, k))
  }

  lemma {:induction false} QuietStays(preds: seq<seq<nat>>, k: nat, t: nat)
    requires |preds| > 0 && InRange(preds) && Quiet(preds, k) && t >= k
    ensures After(preds, t) == After(preds, k)
    decreases t
  {
    if t > k {
      QuietStays(preds, k, t - 1);
      assert After(preds, t) == RoundFrom(preds, After(preds, t - 1), 0);
      assert After(preds, k + 1) == RoundFrom(preds, After(preds, k), 0);
    }
  }

  /** The part of a path after its last visit to the root. */
  lemma CutAtRoot(preds: seq<seq<nat>>, a: nat, p: seq<nat>) returns (r: seq<nat>)
    requires Path(preds, p) && a !in p
    ensures Route(preds, a, r, p[|p| - 1])
  {
    assert p[0] in p;
    var k := LastAt(p, 0);
    r := p[k..];
    forall j | 0 < j < |r| ensures r[j - 1] in preds[r[j]] && r[j] != 0 {
      assert r[j] == p[k + j] && r[j - 1] == p[k + j - 1];
      assert r[j] == p[k + 1..][j - 1];
    }
  }

  lemma DominatesByRoutes(preds: seq<seq<nat>>, a: nat, i: nat)
    ensures Dominates(preds, a, i) <==> !exists p :: Route(preds, a, p, i)
  {
    if !Dominates(preds, a, i) {
      var p :| PathTo(preds, p, i) && a !in p;
      var r := CutAtRoot(preds, a, p);
    }
  }

  /** What the sets come to: the dominators, and the placeholder if the root is its own predecessor. */
  ghost predicate Stays(preds: seq<seq<nat>>, a: nat, i: nat)
    requires |preds| > 0
  {
    Dominates(preds, a, i) || (a == 1 && 0 in preds[0])
  }

  ghost predicate Final(preds: seq<seq<nat>>, a: nat, u: nat)
    requires |preds| > 0 && InRange(preds)
  {
    u > 0 && forall t: nat, i: nat | t >= u && i < |preds| :: a in After(preds, t)[i] <==> Stays(preds, a, i)
  }

  ghost predicate LackedFrom(preds: seq<seq<nat>>, a: nat, s: nat)
    requires |preds| > 0 && InRange(preds)
  {
    s > 0 && forall t: nat | t >= s :: a !in After(preds, t)[0]
  }

  /** Once the root lacks a for good, in the end so does every node that a does not dominate. */
  lemma {:induction false} FinalBelow(preds: seq<seq<nat>>, a: nat, s: nat, m: nat) returns (u: nat)
    requires Numbered(preds) && InRange(preds) && LackedFrom(preds, a, s) && m <= |preds|
    ensures u > 0 && forall t: nat, i: nat | t >= u && i < m :: a in After(preds, t)[i] <==> Dominates(preds, a, i)
  {
    if m == 0 {
      u := 1;
    } else {
      var i := m - 1;
      var u0 := FinalBelow(preds, a, s, i);
      DominatesByRoutes(preds, a, i);
      if p :| Route(preds, a, p, i) {
        u := if u0 > s + Backs(p) then u0 else s + Backs(p);
        forall t: nat | t >= u ensures a !in After(preds, t)[i] {
          assert Brings(preds, a, t, i, p);
          Lacking(preds, a, t, i);
        }
      } else {
        u := u0;
        forall t: nat | t >= u ensures a in After(preds, t)[i] {
          Lacking(preds, a, t, i);
        }
      }
    }
  }

  lemma LackedIsFinal(preds: seq<seq<nat>>, a: nat, s: nat) returns (u: nat)
    requires Numbered(preds) && InRange(preds) && LackedFrom(preds, a, s) && !(a == 1 && 0 in preds[0])
    ensures Final(preds, a, u)
  {
    u := FinalBelow(preds, a, s, |preds|);
  }

  /** The root is in every set. */
  lemma RootIsFinal(preds: seq<seq<nat>>)
    requires Numbered(preds) && InRange(preds)
    ensures Final(preds, 0, 1)
  {
    forall t: nat, i: nat | t >= 1 && i < |preds| ensures 0 in After(preds, t)[i] && Dominates(preds, 0, i) {
      Lacking(preds, 0, t, i);
      RootDominates(preds, i);
    }
  }

  lemma StartHolds(preds: seq<seq<nat>>, i: nat)
    requires InRange(preds) && i < |preds|
    ensures After(preds, 0)[i] == if i == 0 then {1} else {}
  {
  }

  /** Numbers that are no nodes are in none. */
  lemma {:induction false} NoOthers(preds: seq<seq<nat>>, a: nat, t: nat, i: nat)
    requires Numbered(preds) && InRange(preds) && t > 0 && i < |preds| <= a && !(a == 1 && 0 in preds[0])
    ensures a !in After(preds, t)[i]
    decreases t, i
  {
    StepAt(preds, t, i, a);
    if a in After(preds, t)[i] {
      var p :| p in preds[i] && p < |preds| && Seen(preds, t, i, p) != {} && a in Seen(preds, t, i, p);
      StartHolds(preds, p);
      if p < i {
        NoOthers(preds, a, t, p);
      } else if t > 1 {
        NoOthers(preds, a, t - 1, p);
      }
    }
  }

  lemma OthersAreFinal(preds: seq<seq<nat>>, a: nat)
    requires Numbered(preds) && InRange(preds) && |preds| <= a && !(a == 1 && 0 in preds[0])
    ensures Final(preds, a, 1)
  {
    forall t: nat, i: nat | t >= 1 && i < |preds| ensures a !in After(preds, t)[i] && !Dominates(preds, a, i) {
      NoOthers(preds, a, t, i);
      if Dominates(preds, a, i) {
        DominatorsAreSmaller(preds, a, i);
      }
    }
  }

  ghost predicate BecomesFinal(preds: seq<seq<nat>>, a: nat)
    requires |preds| > 0 && InRange(preds)
  {
    exists u :: Final(preds, a, u)
  }

  lemma {:induction false} AllFinal(preds: seq<seq<nat>>, m: nat) returns (u: nat)
    requires |preds| > 0 && InRange(preds) && forall a: nat | a < m :: BecomesFinal(preds, a)
    ensures u > 0 && forall a: nat | a < m :: Final(preds, a, u)
  {
    if m == 0 {
      u := 1;
    } else {
      var last: nat := m - 1;
      var u0 := AllFinal(preds, last);
      assert BecomesFinal(preds, last);
      var u1: nat :| Final(preds, last, u1);
      u := if u0 < u1 then u1 else u0;
      forall a: nat | a < m ensures Final(preds, a, u) {
        assert Final(preds, a, if a < last then u0 else u1);
      }
    }
  }

  /** Then the loop ends, with these sets. */
  lemma FinalEnds(preds: seq<seq<nat>>) returns (u: nat)
    requires Numbered(preds) && InRange(preds) && forall a: nat | 0 < a < |preds| || a == 1 :: BecomesFinal(preds, a)
    ensures Quiet(preds, u) && forall i: nat, a: nat | i < |preds| :: a in After(preds, u)[i] <==> Stays(preds, a, i)
  {
    RootIsFinal(preds);
    assert BecomesFinal(preds, 0);
    u := AllFinal(preds, if |preds| < 2 then 2 else |preds|);
    forall t: nat, i: nat, a: nat | t >= u && i < |preds| ensures a in After(preds, t)[i] <==> Stays(preds, a, i) {
      if a < |preds| || a == 1 {
        assert Final(preds, a, u);
      } else {
        OthersAreFinal(preds, a);
      }
    }
    var v := u + 1;
    forall i: nat | i < |preds| ensures After(preds, v)[i] == After(preds, u)[i] {
      forall a: nat ensures a in After(preds, v)[i] <==> a in After(preds, u)[i] {
        assert a in After(preds, v)[i] <==> Stays(preds, a, i);
      }
    }
  }

  // ----- The three kinds of root -----

  lemma FreeRoot(preds: seq<seq<nat>>)
    requires Numbered(preds) && InRange(preds) && preds[0] == []
    ensures EndsWithDominators(preds)
  {
    forall a: nat | 0 < a < |preds| || a == 1 ensures BecomesFinal(preds, a) {
      forall t: nat | t >= 1 ensures a !in After(preds, t)[0] {
        RootAlone(preds, t);
      }
      var u := LackedIsFinal(preds, a, 1);
    }
    var u := FinalEnds(preds);
    assert TrueSets(preds, After(preds, u));
  }

  /** A root that is its own predecessor keeps the placeholder, and so does every other node. */
  lemma {:induction false} SelfRootKeeps(preds: seq<seq<nat>>, t: nat, i: nat)
    requires Numbered(preds) && InRange(preds) && 0 in preds[0] && t > 0 && i < |preds|
    ensures 1 in After(preds, t)[i]
    decreases t
  {
    if t == 1 {
      RootFirst(preds);
    } else {
      var s: nat := t - 1;
      RootStep(preds, 1, s);
      forall p: nat | p < |preds| ensures 1 in After(preds, s)[p] {
        SelfRootKeeps(preds, s, p);
      }
      assert OneInAll(preds, s);
    }
    SelfRootPasses(preds, t, i);
  }

  ghost predicate OneInAll(preds: seq<seq<nat>>, t: nat)
    requires |preds| > 0 && InRange(preds)
  {
    forall p: nat | p < |preds| :: 1 in After(preds, t)[p]
  }

  lemma {:induction false} SelfRootPasses(preds: seq<seq<nat>>, t: nat, i: nat)
    requires Numbered(preds) && InRange(preds) && t > 0 && i < |preds|
    requires 1 in After(preds, t)[0]
    requires t > 1 ==> OneInAll(preds, t - 1)
    ensures 1 in After(preds, t)[i]
    decreases i
  {
    if i > 0 {
      LackStep(preds, 1, t, i);
      forall p | p in preds[i] && p < i ensures 1 in After(preds, t)[p] {
        SelfRootPasses(preds, t, p);
      }
    }
  }

  lemma {:induction false} SelfRootLacks(preds: seq<seq<nat>>, a: nat, t: nat)
    requires Numbered(preds) && InRange(preds) && 0 in preds[0] && a > 1 && t > 0
    ensures a !in After(preds, t)[0]
    decreases t
  {
    if t == 1 {
      RootFirst(preds);
    } else {
      SelfRootLacks(preds, a, t - 1);
      RootStep(preds, a, t - 1);
    }
  }

  lemma SelfRootFinal(preds: seq<seq<nat>>, a: nat)
    requires Numbered(preds) && InRange(preds) && 0 in preds[0] && a > 0
    ensures BecomesFinal(preds, a)
  {
    if a == 1 {
      forall t: nat, i: nat | t >= 1 && i < |preds| ensures a in After(preds, t)[i] {
        SelfRootKeeps(preds, t, i);
      }
      assert Final(preds, a, 1);
    } else {
      forall t: nat | t >= 1 ensures a !in After(preds, t)[0] {
        SelfRootLacks(preds, a, t);
      }
      var u := LackedIsFinal(preds, a, 1);
    }
  }

  /** Not with the dominators: the root does not lose the placeholder. */
  lemma SelfRootIsWrong(preds: seq<seq<nat>>, j: nat)
    requires Numbered(preds) && InRange(preds) && 0 in preds[0] && Quiet(preds, j)
    ensures !TrueSets(preds, After(preds, j))
  {
    assert PathTo(preds, [0], 0) && 1 !in [0];
    QuietStays(preds, j, j + 1);
    SelfRootKeeps(preds, j + 1, 0);
  }

  /** The loop ends with the dominators and the number 1 in every set, the root's too. */
  lemma SelfRoot(preds: seq<seq<nat>>) returns (k: nat)
    requires Numbered(preds) && InRange(preds) && 0 in preds[0]
    ensures Quiet(preds, k) && !EndsWithDominators(preds)
    ensures forall i: nat, a: nat | i < |preds| :: a in After(preds, k)[i] <==> a == 1 || Dominates(preds, a, i)
  {
    forall a: nat | 0 < a < |preds| || a == 1 ensures BecomesFinal(preds, a) {
      SelfRootFinal(preds, a);
    }
    k := FinalEnds(preds);
    forall j: nat | Quiet(preds, j) ensures !TrueSets(preds, After(preds, j)) {
      SelfRootIsWrong(preds, j);
    }
  }

  /** Every other node is avoided by loops, whose lengths have the greatest common divisor 1. */
  ghost predicate RegularLoops(preds: seq<seq<nat>>) {
    forall a: nat | 0 < a < |preds| :: Loops(preds, a) != iset{} && OnlyUnit(Loops(preds, a))
  }

  lemma RegularIsFinal(preds: seq<seq<nat>>, a: nat)
    requires Numbered(preds) && InRange(preds) && preds[0] != [] && 0 !in preds[0] && a != 0
    requires OnlyUnit(Loops(preds, a))
    ensures BecomesFinal(preds, a)
  {
    var t := LargeSums(Loops(preds, a));
    forall s: nat | s >= t + 1 ensures a !in After(preds, s)[0] {
      RootSums(preds, a, s - 1);
    }
    var u := LackedIsFinal(preds, a, t + 1);
  }

  lemma EndIsRegular(preds: seq<seq<nat>>, k: nat, a: nat)
    requires Numbered(preds) && InRange(preds) && preds[0] != [] && 0 !in preds[0] && a != 0
    requires Quiet(preds, k) && a !in After(preds, k)[0] && k > 0
    ensures Loops(preds, a) != iset{} && OnlyUnit(Loops(preds, a))
  {
    forall n: nat | n >= k ensures SumOf(Loops(preds, a), n) {
      QuietStays(preds, k, 1 + n);
      RootSums(preds, a, n);
    }
    AllLargeAreSums(Loops(preds, a), k);
  }

  lemma TrueIsRegular(preds: seq<seq<nat>>, k: nat, a: nat)
    requires Numbered(preds) && InRange(preds) && preds[0] != [] && 0 !in preds[0] && 0 < a < |preds|
    requires Quiet(preds, k) && TrueSets(preds, After(preds, k))
    ensures Loops(preds, a) != iset{} && OnlyUnit(Loops(preds, a))
  {
    assert PathTo(preds, [0], 0) && a !in [0];
    assert a !in After(preds, k)[0];
    QuietStays(preds, k, k + 1);
    QuietStays(preds, k, k + 2);
    EndIsRegular(preds, k + 1, a);
  }

  /** Exactly when the loop ends with the dominators. */
  ghost predicate RightRoot(preds: seq<seq<nat>>)
    requires |preds| > 0
  {
    preds[0] == [] || (0 !in preds[0] && RegularLoops(preds))
  }

  lemma RightRootIsExact(preds: seq<seq<nat>>)
    requires Numbered(preds) && InRange(preds)
    ensures EndsWithDominators(preds) <==> RightRoot(preds)
  {
    if preds[0] == [] {
      FreeRoot(preds);
    } else if 0 in preds[0] {
      var k := SelfRoot(preds);
    } else {
      if RegularLoops(preds) {
        RegularEnds(preds);
      }
      if k: nat :| Quiet(preds, k) && TrueSets(preds, After(preds, k)) {
        forall a: nat | 0 < a < |preds| ensures Loops(preds, a) != iset{} && OnlyUnit(Loops(preds, a)) {
          TrueIsRegular(preds, k, a);
        }
      }
    }
  }

  lemma RegularEnds(preds: seq<seq<nat>>)
    requires Numbered(preds) && InRange(preds) && preds[0] != [] && 0 !in preds[0] && RegularLoops(preds)
    ensures EndsWithDominators(preds)
  {
    assert |preds| > 1;
    forall a: nat | 0 < a < |preds| || a == 1 ensures BecomesFinal(preds, a) {
      RegularIsFinal(preds, a);
    }
    var u := FinalEnds(preds);
    assert TrueSets(preds, After(preds, u));
  }

  /** Where loops avoid a node, but only with lengths that have a greater common divisor, the loop does not end. */
  lemma RunsForEver(preds: seq<seq<nat>>, a: nat)
    requires Numbered(preds) && InRange(preds) && preds[0] != [] && 0 !in preds[0] && a != 0
    requires Loops(preds, a) != iset{} && !OnlyUnit(Loops(preds, a))
    ensures !Ends(preds)
  {
    if k: nat :| Quiet(preds, k) {
      var x :| x in Loops(preds, a);
      var n := LargeSum(Loops(preds, a), x, k);
      RootSums(preds, a, n);
      QuietStays(preds, k, 1 + n);
      QuietStays(preds, k, k + 1);
      QuietStays(preds, k, k + 2);
      EndIsRegular(preds, k + 1, a);
    }
  }

  // ----- When the loop ends at all -----

  /** From u on all numbers are in the set, or none. */
  ghost predicate SettledFrom(s: iset<nat>, u: nat) {
    (forall n: nat | n >= u :: n in s) || (forall n: nat | n >= u :: n !in s)
  }

  ghost predicate Settles(s: iset<nat>) {
    exists u :: SettledFrom(s, u)
  }

  /** The lengths of the routes to i that avoid a. */
  ghost function RouteLengths(preds: seq<seq<nat>>, a: nat, i: nat): iset<nat> {
    iset n: nat | RouteLength(preds, a, i, n)
  }

  ghost predicate RouteLength(preds: seq<seq<nat>>, a: nat, i: nat, n: nat) {
    exists p :: Route(preds, a, p, i) && Backs(p) == n
  }

  /** The rounds after the first by which i lacks a. */
  ghost function Missing(preds: seq<seq<nat>>, a: nat, i: nat): iset<nat>
    requires |preds| > 0 && InRange(preds) && i < |preds|
  {
    iset n: nat | MissingAfter(preds, a, i, n)
  }

  ghost predicate MissingAfter(preds: seq<seq<nat>>, a: nat, i: nat, n: nat)
    requires |preds| > 0 && InRange(preds) && i < |preds|
  {
    a !in After(preds, 1 + n)[i]
  }

  /** When no loop avoids a, the root lacks a once, and that is all there is to pass on. */
  lemma MissedOnce(preds: seq<seq<nat>>, a: nat, i: nat)
    requires Numbered(preds) && InRange(preds) && preds[0] != [] && 0 !in preds[0] && a != 0 && i < |preds|
    requires Loops(preds, a) == iset{}
    ensures Missing(preds, a, i) == RouteLengths(preds, a, i)
  {
    forall n: nat ensures n in Missing(preds, a, i) <==> n in RouteLengths(preds, a, i) {
      Lacking(preds, a, 1 + n, i);
      forall p | Route(preds, a, p, i) && Backs(p) <= n ensures Brings(preds, a, 1 + n, i, p) <==> Backs(p) == n {
        RootSums(preds, a, n - Backs(p));
      }
      if p :| Route(preds, a, p, i) && Backs(p) == n {
        assert Brings(preds, a, 1 + n, i, p);
      }
    }
  }

  lemma {:induction false} RowSettles(preds: seq<seq<nat>>, a: nat, m: nat) returns (u: nat)
    requires |preds| > 0 && InRange(preds) && m <= |preds|
    requires forall i: nat | i < m :: Settles(Missing(preds, a, i))
    ensures forall i: nat | i < m :: SettledFrom(Missing(preds, a, i), u)
  {
    if m == 0 {
      u := 0;
    } else {
      var last: nat := m - 1;
      var u0 := RowSettles(preds, a, last);
      assert Settles(Missing(preds, a, last));
      var u1: nat :| SettledFrom(Missing(preds, a, last), u1);
      u := if u0 < u1 then u1 else u0;
      forall i: nat | i < m ensures SettledFrom(Missing(preds, a, i), u) {
        assert SettledFrom(Missing(preds, a, i), if i < last then u0 else u1);
      }
    }
  }

  ghost predicate Settling(preds: seq<seq<nat>>, a: nat, u: nat)
    requires |preds| > 0 && InRange(preds)
  {
    forall i: nat | i < |preds| :: SettledFrom(Missing(preds, a, i), u)
  }

  lemma {:induction false} AllSettle(preds: seq<seq<nat>>, m: nat) returns (u: nat)
    requires |preds| > 0 && InRange(preds)
    requires forall a: nat, i: nat | a < m && i < |preds| :: Settles(Missing(preds, a, i))
    ensures forall a: nat | a < m :: Settling(preds, a, u)
  {
    if m == 0 {
      u := 0;
    } else {
      var last: nat := m - 1;
      var u0 := AllSettle(preds, last);
      var u1 := RowSettles(preds, last, |preds|);
      u := if u0 < u1 then u1 else u0;
      forall a: nat, i: nat | a < m && i < |preds| ensures SettledFrom(Missing(preds, a, i), u) {
        assert a < last ==> Settling(preds, a, u0);
        assert SettledFrom(Missing(preds, a, i), if a < last then u0 else u1);
      }
    }
  }

  lemma SettledEnds(preds: seq<seq<nat>>)
    requires Numbered(preds) && InRange(preds) && 0 !in preds[0]
    requires forall a: nat, i: nat | a < |preds| && i < |preds| :: Settles(Missing(preds, a, i))
    ensures Ends(preds)
  {
    var u := AllSettle(preds, |preds|);
    var v, w := u + 1, u + 2;
    forall i: nat | i < |preds| ensures After(preds, w)[i] == After(preds, v)[i] {
      forall a: nat ensures a in After(preds, w)[i] <==> a in After(preds, v)[i] {
        if a < |preds| {
          assert Settling(preds, a, u) && SettledFrom(Missing(preds, a, i), u);
          assert u in Missing(preds, a, i) <==> v in Missing(preds, a, i);
        } else {
          NoOthers(preds, a, v, i);
          NoOthers(preds, a, w, i);
        }
      }
    }
    assert Quiet(preds, v);
  }

  lemma QuietSettles(preds: seq<seq<nat>>, k: nat, a: nat, i: nat)
    requires |preds| > 0 && InRange(preds) && Quiet(preds, k) && i < |preds|
    ensures Settles(Missing(preds, a, i))
  {
    forall n: nat | n >= k ensures n in Missing(preds, a, i) <==> a !in After(preds, k)[i] {
      QuietStays(preds, k, 1 + n);
    }
    assert SettledFrom(Missing(preds, a, i), k);
  }

  lemma FinalSettles(preds: seq<seq<nat>>, a: nat, i: nat)
    requires |preds| > 0 && InRange(preds) && BecomesFinal(preds, a) && i < |preds|
    ensures Settles(Missing(preds, a, i))
  {
    var u: nat :| Final(preds, a, u);
    forall n: nat | n >= u ensures n in Missing(preds, a, i) <==> !Stays(preds, a, i) {
      assert a in After(preds, 1 + n)[i] <==> Stays(preds, a, i);
    }
    assert SettledFrom(Missing(preds, a, i), u);
  }

  /** The loop comes to an end: a root without predecessors or with itself for one, or one that for each other node
      is on loops that avoid it with 1 for their greatest common divisor, or on none while the routes that avoid it
      settle. */
  ghost predicate EndingRoot(preds: seq<seq<nat>>)
    requires |preds| > 0
  {
    preds[0] == [] || 0 in preds[0] || forall a: nat | 0 < a < |preds| :: EndingLoops(preds, a)
  }

  ghost predicate EndingLoops(preds: seq<seq<nat>>, a: nat) {
    if Loops(preds, a) != iset{} then OnlyUnit(Loops(preds, a))
    else forall i: nat | i < |preds| :: Settles(RouteLengths(preds, a, i))
  }

  lemma EndsExactly(preds: seq<seq<nat>>)
    requires Numbered(preds) && InRange(preds)
    ensures Ends(preds) <==> EndingRoot(preds)
  {
    if preds[0] == [] {
      FreeRoot(preds);
    } else if 0 in preds[0] {
      var k := SelfRoot(preds);
    } else {
      if k: nat :| Quiet(preds, k) {
        forall a: nat | 0 < a < |preds| ensures EndingLoops(preds, a) {
          EndNeeds(preds, k, a);
        }
      }
      if EndingRoot(preds) {
        forall a: nat, i: nat | a < |preds| && i < |preds| ensures Settles(Missing(preds, a, i)) {
          EndSuffices(preds, a, i);
        }
        SettledEnds(preds);
      }
    }
  }

  lemma EndNeeds(preds: seq<seq<nat>>, k: nat, a: nat)
    requires Numbered(preds) && InRange(preds) && preds[0] != [] && 0 !in preds[0] && Quiet(preds, k) && a != 0
    ensures EndingLoops(preds, a)
  {
    if Loops(preds, a) != iset{} {
      if !OnlyUnit(Loops(preds, a)) {
        RunsForEver(preds, a);
      }
    } else {
      forall i: nat | i < |preds| ensures Settles(RouteLengths(preds, a, i)) {
        MissedOnce(preds, a, i);
        QuietSettles(preds, k, a, i);
      }
    }
  }

  lemma EndSuffices(preds: seq<seq<nat>>, a: nat, i: nat)
    requires Numbered(preds) && InRange(preds) && preds[0] != [] && 0 !in preds[0]
    requires a < |preds| && i < |preds| && (a == 0 || EndingLoops(preds, a))
    ensures Settles(Missing(preds, a, i))
  {
    if a == 0 {
      RootIsFinal(preds);
      FinalSettles(preds, 0, i);
    } else if Loops(preds, a) != iset{} {
      RegularIsFinal(preds, a);
      FinalSettles(preds, a, i);
    } else {
      MissedOnce(preds, a, i);
    }
  }

  /** A sufficient condition that is easy to see: every other node is avoided by a loop that rises up to its last
      edge. */
  ghost predicate RisingLoops(preds: seq<seq<nat>>) {
    forall a: nat | 0 < a < |preds| :: 1 in Loops(preds, a)
  }

  lemma RisingLacks(preds: seq<seq<nat>>, t: nat, a: nat)
    requires Numbered(preds) && InRange(preds) && preds[0] != [] && 0 !in preds[0] && t > 0 && 0 < a < |preds|
    requires 1 in Loops(preds, a)
    ensures a !in After(preds, t)[0] && OnlyUnit(Loops(preds, a))
  {
    SumOne(Loops(preds, a), 1);
    SumTimes(Loops(preds, a), t - 1, 1);
    RootSums(preds, a, t - 1);
    forall d: nat | DividesAll(d, Loops(preds, a)) ensures d == 1 {
      UnitDivides(d);
    }
  }

  lemma RisingRoot(preds: seq<seq<nat>>, t: nat)
    requires Numbered(preds) && InRange(preds) && preds[0] != [] && 0 !in preds[0] && RisingLoops(preds) && t > 0
    ensures After(preds, t)[0] == {0}
  {
    forall a: nat ensures a in After(preds, t)[0] <==> a == 0 {
      if a == 0 {
        HoldsItself(preds, t, 0);
      } else if a < |preds| {
        RisingLacks(preds, t, a);
      } else {
        NoOthers(preds, a, t, 0);
      }
    }
  }

  lemma RisingStays(preds: seq<seq<nat>>, t: nat)
    requires Numbered(preds) && InRange(preds) && preds[0] != [] && 0 !in preds[0] && RisingLoops(preds) && t > 0
    ensures After(preds, t)[0] == {0} && EndsWithDominators(preds)
  {
    RisingRoot(preds, t);
    forall a: nat | 0 < a < |preds| ensures Loops(preds, a) != iset{} && OnlyUnit(Loops(preds, a)) {
      RisingLacks(preds, t, a);
    }
    RegularEnds(preds);
  }

  /** The necessary half: no other node dominates all predecessors of the root exactly when loops avoid each. */
  lemma LoopsAvoid(preds: seq<seq<nat>>, a: nat)
    requires |preds| > 0 && InRange(preds) && preds[0] != []
    ensures Loops(preds, a) != iset{} <==> !DominatesAll(preds, a, preds[0])
  {
    if n :| n in Loops(preds, a) {
      var p :| Loop(preds, a, p) && n == 1 + Backs(p);
      var k :| 0 <= k < |preds[0]| && preds[0][k] == p[|p| - 1];
      assert !Dominates(preds, a, preds[0][k]);
    }
    if !DominatesAll(preds, a, preds[0]) {
      var k :| 0 <= k < |preds[0]| && !Dominates(preds, a, preds[0][k]);
      DominatesByRoutes(preds, a, preds[0][k]);
      var p :| Route(preds, a, p, preds[0][k]);
      assert Loop(preds, a, p);
      assert 1 + Backs(p) in Loops(preds, a);
    }
  }

  /** Node 1 is avoided by loops of length 2 only, over 4 and then 2 or 3: the loop does not end, although no other node
      dominates both predecessors of the root. */
  lemma EvenLoopsExample(preds: seq<seq<nat>>)
    requires |preds| == 5 && preds[0] == [2, 3] && preds[1] == [0] && preds[4] == [0]
    requires preds[2] == [1, 4] && preds[3] == [1, 4]
    ensures Numbered(preds) && InRange(preds) && RootStands(preds) && !Ends(preds)
  {
    assert forall i | 0 < i < |preds| :: preds[i][0] in preds[i] && preds[i][0] < i;
    EvenRootStands(preds);
    forall n | n in Loops(preds, 1) ensures n == 2 && Divides(2, n) {
      var p :| Loop(preds, 1, p) && n == 1 + Backs(p);
      EvenRoute(preds, p);
      assert 2 == 1 * 2;
    }
    var q := [0, 4, 2];
    assert Route(preds, 1, q, 2) && Loop(preds, 1, q) by {
      assert 0 in preds[4] && 4 in preds[2];
    }
    assert 1 + Backs(q) in Loops(preds, 1);
    assert DividesAll(2, Loops(preds, 1));
    RunsForEver(preds, 1);
  }

  lemma EvenRootStands(preds: seq<seq<nat>>)
    requires |preds| == 5 && preds[0] == [2, 3] && preds[1] == [0] && preds[4] == [0]
    requires preds[2] == [1, 4] && preds[3] == [1, 4]
    ensures RootStands(preds)
  {
    forall a: nat | a != 0 ensures !DominatesAll(preds, a, preds[0]) {
      assert 0 in preds[1] && 0 in preds[4] && 1 in preds[2] && 4 in preds[2] && 1 in preds[3];
      assert PathTo(preds, [0, 1, 2], 2) && PathTo(preds, [0, 4, 2], 2) && PathTo(preds, [0, 1, 3], 3);
      assert Dominates(preds, a, 2) ==> a in [0, 1, 2] && a in [0, 4, 2];
      assert Dominates(preds, a, 3) ==> a in [0, 1, 3];
      assert preds[0][0] == 2 && preds[0][1] == 3;
    }
  }

  lemma EvenRoute(preds: seq<seq<nat>>, p: seq<nat>)
    requires |preds| == 5 && preds[0] == [2, 3] && preds[1] == [0] && preds[4] == [0]
    requires preds[2] == [1, 4] && preds[3] == [1, 4] && Loop(preds, 1, p)
    ensures Backs(p) == 1
  {
    var b := p[|p| - 1];
    RouteLess(preds, 1, p, b);
    var q := p[..|p| - 1];
    assert q[|q| - 1] in q;
    RouteLess(preds, 1, q, 4);
    assert q[..|q| - 1][|q| - 2] == 0;
    assert |q| == 2;
  }
}
