/** The tree of immediate dominators and the dominance frontiers. */
module DominatorTree {
  import opened Collections
  import opened Dominance
  import opened DominatorSets
  import opened RootLoops

  /** Parents that are immediate dominators; only the root has none. */
  ghost predicate Parents(preds: seq<seq<nat>>, parent: seq<int>) {
    && Numbered(preds) && |parent| == |preds| && parent[0] == -1
    && forall i: nat | 0 < i < |parent| :: 0 <= parent[i] < i && ImmediatelyDominates(preds, parent[i], i)
  }

  /** x is met on the way from p up to the root. */
  predicate Above(parent: seq<int>, x: int, p: int)
    decreases p
  {
    x == p || (0 < p < |parent| && parent[p] < p && Above(parent, x, parent[p]))
  }

  /** Dominance is ancestry in the tree, which has the one root 0. */
  lemma {:induction false} TreeIsDominance(preds: seq<seq<nat>>, parent: seq<int>, x: nat, p: nat)
    requires Parents(preds, parent) && p < |parent|
    ensures Above(parent, x, p) <==> Dominates(preds, x, p)
  {
    SelfDominates(preds, p);
    if p == 0 {
      if Dominates(preds, x, 0) {
        DominatorsAreSmaller(preds, x, 0);
      }
    } else {
      TreeIsDominance(preds, parent, x, parent[p]);
      if Dominates(preds, x, parent[p]) {
        Transitive(preds, x, parent[p], p);
      }
    }
  }

  /** Dominating b strictly and dominating its immediate dominator are the same. */
  lemma StrictlyIsUpward(preds: seq<seq<nat>>, x: nat, d: nat, b: nat)
    requires Numbered(preds) && d < b < |preds| && ImmediatelyDominates(preds, d, b)
    ensures StrictlyDominates(preds, x, b) <==> Dominates(preds, x, d)
  {
    if Dominates(preds, x, d) {
      Transitive(preds, x, d, b);
      DominatorsAreSmaller(preds, x, d);
    }
  }

  /** Going up one step leaves exactly the node left behind. */
  lemma StepUp(preds: seq<seq<nat>>, parent: seq<int>, r: nat, x: nat)
    requires Parents(preds, parent) && 0 < r < |parent|
    ensures Dominates(preds, x, r) <==> x == r || Dominates(preds, x, parent[r])
    ensures !Dominates(preds, r, parent[r])
  {
    SelfDominates(preds, r);
    StrictlyIsUpward(preds, x, parent[r], r);
    if Dominates(preds, r, parent[r]) {
      DominatorsAreSmaller(preds, r, parent[r]);
    }
  }

  /** b is in the frontier of x by one of the reached sources of its first k incoming edges. */
  ghost predicate FrontierBy(incoming: seq<seq<nat>>, count: nat, x: nat, b: nat, k: int)
    requires count <= |incoming| && b < |incoming|
  {
    exists j | 0 <= j < k && j < |incoming[b]| ::
      incoming[b][j] < count
      && Dominates(Read(incoming, count), x, incoming[b][j]) && !StrictlyDominates(Read(incoming, count), x, b)
  }

  lemma OnlyPredecessorIsSmaller(preds: seq<seq<nat>>, b: nat, p: nat)
    requires Numbered(preds) && 0 < b < |preds| && preds[b] == [p]
    ensures p < b
  {
    var j :| j in preds[b] && j < b;
  }

  /** A node with a single predecessor is in no frontier: what dominates the predecessor dominates the node. */
  lemma OnlyPredecessor(preds: seq<seq<nat>>, x: nat, b: nat, p: nat)
    requires Numbered(preds) && 0 < b < |preds| && preds[b] == [p] && Dominates(preds, x, p)
    ensures StrictlyDominates(preds, x, b)
  {
    forall q | PathTo(preds, q, b) ensures x in q {
      assert |q| > 1 && q[|q| - 2] in preds[b];
      PrefixPath(preds, q, |q| - 2);
      assert x in q[..|q| - 2 + 1];
    }
    OnlyPredecessorIsSmaller(preds, b, p);
    DominatorsAreSmaller(preds, x, p);
  }

  lemma SingleHasNoFrontier(incoming: seq<seq<nat>>, count: nat, x: nat, b: nat)
    requires Flow(incoming, count) && b < |incoming| && |incoming[b]| <= 1 && (b > 0 || incoming[b] == [])
    ensures !FrontierBy(incoming, count, x, b, |incoming[b]|)
  {
    var preds := Read(incoming, count);
    ReadNumbered(incoming, count);
    if FrontierBy(incoming, count, x, b, |incoming[b]|) {
      var p := incoming[b][0];
      assert b < count;
      assert preds[b] == [p];
      OnlyPredecessor(preds, x, b, p);
    }
  }

  /** The root is different: all dominators of its only predecessor, itself included, have it in their frontier. */
  lemma RootFrontier(incoming: seq<seq<nat>>, count: nat, x: nat)
    requires Flow(incoming, count) && |incoming[0]| == 1 && incoming[0][0] < count
    ensures FrontierBy(incoming, count, x, 0, 1) <==> Dominates(Read(incoming, count), x, incoming[0][0])
  {
    ReadNumbered(incoming, count);
    if StrictlyDominates(Read(incoming, count), x, 0) {
      DominatorsAreSmaller(Read(incoming, count), x, 0);
    }
  }

  /** With harmless strays the computed frontiers are those of the graph itself. */
  lemma FrontierOfGraph(incoming: seq<seq<nat>>, count: nat, x: nat, b: nat)
    requires Flow(incoming, count) && StraysAreHarmless(incoming, count) && b < |incoming|
    ensures FrontierBy(incoming, count, x, b, |incoming[b]|) <==>
      (exists p :: p in incoming[b] && p < count && Dominates(incoming, x, p)) && !StrictlyDominates(incoming, x, b)
  {
    ReadingKeepsDominance(incoming, count);
    var preds := Read(incoming, count);
    if p :| p in incoming[b] && p < count && Dominates(incoming, x, p) {
      assert b < count by {
        var j :| 0 <= j < |incoming[b]| && incoming[b][j] == p;
      }
      var j :| 0 <= j < |incoming[b]| && incoming[b][j] == p;
      assert Dominates(preds, x, p);
    }
    if FrontierBy(incoming, count, x, b, |incoming[b]|) {
      var j :| 0 <= j < |incoming[b]| && incoming[b][j] < count
        && Dominates(preds, x, incoming[b][j]) && !StrictlyDominates(preds, x, b);
      assert b < count;
      assert incoming[b][j] in incoming[b] && Dominates(incoming, x, incoming[b][j]);
    }
  }

  lemma MeetMore(dom: seq<set<nat>>, l: seq<nat>, k: nat)
    requires k < |l| && forall j | 0 <= j < |l| :: l[j] < |dom|
    ensures Meet(dom, l[..k + 1]) ==
      if dom[l[k]] == {} then Meet(dom, l[..k]) else if !SomeKnown(dom, l[..k]) then dom[l[k]]
      else Meet(dom, l[..k]) * dom[l[k]]
    ensures SomeKnown(dom, l[..k + 1]) <==> SomeKnown(dom, l[..k]) || dom[l[k]] != {}
  {
    var m := l[..k + 1];
    assert m[..k] == l[..k];
    if SomeKnown(dom, l[..k]) {
      var j :| 0 <= j < k && Known(dom, l[..k][j]);
      assert Known(dom, m[j]);
    }
    if dom[l[k]] != {} {
      assert Known(dom, m[k]);
    }
    if SomeKnown(dom, m) && dom[l[k]] == {} {
      var j :| 0 <= j < k + 1 && Known(dom, m[j]);
      assert Known(dom, l[..k][j]);
    }
  }

  /** The state of a round after i nodes. */
  ghost predicate RoundState(preds: seq<seq<nat>>, was: seq<set<nat>>, dom: seq<set<nat>>, i: nat, changed: bool) {
    && InRange(preds) && |was| == |dom| == |preds| && i <= |preds|
    && (if i == 0 then dom == was && (Narrowing(preds, was) || Fresh(preds, was)) else Narrowing(preds, dom))
    && (forall j: nat | j < i :: Known(dom, j))
    && (if changed then Narrowing(preds, was) ==> Weight(dom, |preds|) < Weight(was, |preds|)
        else dom == was &&
             forall j: nat {:trigger Equation(preds, was, j)} | j < i :: was[j] == Equation(preds, was, j))
  }

  /** A step of a round, from the fresh state at the root or from a narrowing one. */
  lemma RoundKeeps(preds: seq<seq<nat>>, was: seq<set<nat>>, dom: seq<set<nat>>, i: nat, changed: bool, s: set<nat>)
    requires Numbered(preds) && RoundState(preds, was, dom, i, changed) && i < |preds|
    requires s == Equation(preds, dom, i)
    ensures RoundState(preds, was, dom[i := s], i + 1, changed || s != dom[i])
    ensures RoundFrom(preds, dom, i) == RoundFrom(preds, dom[i := s], i + 1)
  {
    NodeNarrows(preds, dom, i, s);
    var d := dom[i := s];
    assert forall j: nat | j < i + 1 :: j != i ==> Known(dom, j);
    if s == dom[i] {
      assert d == dom;
    }
  }

  lemma NodeNarrows(preds: seq<seq<nat>>, dom: seq<set<nat>>, i: nat, s: set<nat>)
    requires Numbered(preds) && InRange(preds) && |dom| == |preds| && i < |preds|
    requires s == Equation(preds, dom, i)
    requires Narrowing(preds, dom) || (i == 0 && Fresh(preds, dom))
    requires forall j: nat | j < i :: Known(dom, j)
    ensures Narrowing(preds, dom[i := s]) && i in s
    ensures Narrowing(preds, dom) && s != dom[i] ==> Weight(dom[i := s], |preds|) < Weight(dom, |preds|)
    ensures Fresh(preds, dom) ==> s == {0}
  {
    if Narrowing(preds, dom) {
      MeetMembers(dom, preds[i]);
      if i > 0 {
        var j :| j in preds[i] && j < i;
        var k :| 0 <= k < |preds[i]| && preds[i][k] == j;
        assert Known(dom, preds[i][k]);
      }
      Narrow(preds, dom, i, s);
    } else {
      FirstNarrowing(preds, dom);
    }
  }

  lemma FirstNarrowing(preds: seq<seq<nat>>, dom: seq<set<nat>>)
    requires Fresh(preds, dom)
    ensures Narrowing(preds, dom[0 := {0}])
  {
    var d := dom[0 := {0}];
    forall i: nat, a: nat | i < |d| && Known(d, i) && Dominates(preds, a, i) ensures a in d[i] {
      DominatorsAreSmaller(preds, a, i);
    }
  }

  lemma ParentFound(preds: seq<seq<nat>>, i: nat, m: int)
    requires Numbered(preds) && i < |preds|
    requires m == -1 || (m >= 0 && StrictlyDominates(preds, m, i))
    requires forall a: nat | StrictlyDominates(preds, a, i) :: a <= m
    ensures if i == 0 then m == -1 else 0 <= m < i && ImmediatelyDominates(preds, m, i)
  {
    RootDominates(preds, i);
    assert i > 0 ==> StrictlyDominates(preds, 0, i);
    if m >= 0 {
      DominatorsAreSmaller(preds, m, i);
      LargestIsImmediate(preds, m, i);
    }
  }

  /** The largest member of the set other than i, or -1. */
  ghost predicate LargestOther(s: set<nat>, i: nat, m: int) {
    if m == -1 then s <= {i} else m >= 0 && m in s && m != i && forall x | x in s && x != i :: x <= m
  }

  lemma ParentsFromDominators(preds: seq<seq<nat>>, dom: seq<set<nat>>, parent: seq<int>)
    requires Numbered(preds) && TrueSets(preds, dom) && |parent| == |preds|
    requires forall i: nat | i < |preds| :: LargestOther(dom[i], i, parent[i])
    ensures Parents(preds, parent)
  {
    forall i: nat | i < |preds|
      ensures if i == 0 then parent[i] == -1 else 0 <= parent[i] < i && ImmediatelyDominates(preds, parent[i], i)
    {
      assert LargestOther(dom[i], i, parent[i]);
      ParentFound(preds, i, parent[i]);
    }
  }

  /** The sets that the loop ends with. */
  ghost predicate Limit(preds: seq<seq<nat>>, dom: seq<set<nat>>)
    requires |preds| > 0 && InRange(preds)
  {
    exists k :: Quiet(preds, k) && dom == After(preds, k)
  }

  lemma LimitIsOne(preds: seq<seq<nat>>, dom: seq<set<nat>>, dom': seq<set<nat>>)
    requires |preds| > 0 && InRange(preds) && Limit(preds, dom) && Limit(preds, dom')
    ensures dom == dom'
  {
    var j: nat :| Quiet(preds, j) && dom == After(preds, j);
    var k: nat :| Quiet(preds, k) && dom' == After(preds, k);
    QuietStays(preds, j, j + k);
    QuietStays(preds, k, j + k);
  }

  lemma LimitIsRight(preds: seq<seq<nat>>, dom: seq<set<nat>>)
    requires Numbered(preds) && InRange(preds) && Limit(preds, dom)
    ensures TrueSets(preds, dom) <==> RightRoot(preds)
  {
    RightRootIsExact(preds);
    if k: nat :| Quiet(preds, k) && TrueSets(preds, After(preds, k)) {
      LimitIsOne(preds, dom, After(preds, k));
    }
  }

  /** With the root on its own list of predecessors, 1 becomes its parent, and the root that of 1. */
  lemma SelfRootParents(preds: seq<seq<nat>>, dom: seq<set<nat>>, parent: seq<int>)
    requires Numbered(preds) && InRange(preds) && 0 in preds[0] && Limit(preds, dom) && |parent| == |preds|
    requires forall i: nat | i < |preds| :: LargestOther(dom[i], i, parent[i])
    ensures parent[0] == 1 && (|preds| > 1 ==> parent[1] == 0)
  {
    var k := SelfRoot(preds);
    LimitIsOne(preds, dom, After(preds, k));
    forall i: nat, a: nat | i < |preds| && i < 2 && a in dom[i] ensures a < 2 {
      if a != 1 {
        DominatorsAreSmaller(preds, a, i);
      }
    }
    assert 1 in dom[0] && LargestOther(dom[0], 0, parent[0]);
    if |preds| > 1 {
      RootDominates(preds, 1);
      assert 0 in dom[1] && LargestOther(dom[1], 1, parent[1]);
    }
  }

  /** A source that is not reached is read as the root, so an edge from one into the root makes it its own
      predecessor. */
  lemma StrayIntoRoot(incoming: seq<seq<nat>>, count: nat)
    requires Flow(incoming, count)
    ensures 0 in Read(incoming, count)[0] <==> exists x :: x in incoming[0] && (x == 0 || x >= count)
  {
    var l := ReadOne(incoming[0], count);
    if 0 in l {
      var k :| 0 <= k < |l| && l[k] == 0;
      assert incoming[0][k] in incoming[0];
    }
    if x :| x in incoming[0] && (x == 0 || x >= count) {
      var k :| 0 <= k < |incoming[0]| && incoming[0][k] == x;
      assert l[k] == 0;
    }
  }

  lemma FrontierStep(incoming: seq<seq<nat>>, count: nat, b: nat, k: nat,
                     was: seq<set<nat>>, before: seq<set<nat>>, now: seq<set<nat>>)
    requires count <= |incoming| && b < |incoming| && k < |incoming[b]| && |was| == |before| == |now| == count
    requires forall x: nat | x < count :: b in before[x] <==> b in was[x] || FrontierBy(incoming, count, x, b, k)
    requires forall x: nat | x < count :: b in now[x] <==>
        (b in before[x] || (incoming[b][k] < count && Dominates(Read(incoming, count), x, incoming[b][k])
          && !StrictlyDominates(Read(incoming, count), x, b)))
    ensures forall x: nat | x < count :: b in now[x] <==> b in was[x] || FrontierBy(incoming, count, x, b, k + 1)
  {
  }

  lemma StepChanges(was: seq<set<nat>>, dom: seq<set<nat>>, i: nat, s: set<nat>)
    requires |was| == |dom| && i < |dom| && dom[i..] == was[i..]
    ensures dom[i := s][i + 1..] == was[i + 1..]
    ensures dom[i := s] != was <==> dom != was || s != dom[i]
  {
    assert dom[i] == dom[i..][0] == was[i];
    assert dom[i + 1..] == dom[i..][1..] && was[i + 1..] == was[i..][1..];
    assert dom[i := s][i] == s;
    assert s == dom[i] ==> dom[i := s] == dom;
  }

  /** A round that changes something comes before the quiet one. */
  lemma GoesOn(preds: seq<seq<nat>>, last: nat, t: nat)
    requires |preds| > 0 && InRange(preds) && Quiet(preds, last) && !Quiet(preds, t)
    ensures t < last
  {
    var next := t + 1;
    if t >= last {
      QuietStays(preds, last, next);
      QuietStays(preds, last, t);
    }
  }

  class DomTree {
    const incoming: seq<seq<nat>>
    const count: nat
    /** The parent in the tree, or -1. */
    const parent: array<int>
    const domFront: array<set<nat>>

    ghost predicate Valid()
      reads this, parent, domFront
    {
      && Flow(incoming, count) && parent.Length == domFront.Length == count
      && Parents(Read(incoming, count), parent[..])
      && forall x: nat, b: nat | x < count && b in domFront[x] ::
          b < |incoming| && FrontierBy(incoming, count, x, b, |incoming[b]|)
    }

    /** Where the iteration ends, each node gets the largest other member of its set for a parent: a tree of immediate
        dominators exactly when the sets are the dominators. */
    constructor (incoming: seq<seq<nat>>, count: nat)
      requires Flow(incoming, count) && Ends(Read(incoming, count))
      ensures fresh(parent) && fresh(domFront) && this.incoming == incoming && this.count == count
      ensures parent.Length == domFront.Length == count
      ensures exists dom :: Limit(Read(incoming, count), dom) &&
                            forall i: nat | i < count :: LargestOther(dom[i], i, parent[i])
      ensures RightRoot(Read(incoming, count)) ==> Valid()
      ensures forall x | 0 <= x < count :: domFront[x] == {}
    {
      this.incoming := incoming;
      this.count := count;
      parent := new int[count](i => -1);
      domFront := new set<nat>[count](i => {});
      new;
      ReadNumbered(incoming, count);
      var domSet := DominatorSets();
      ImmediateDominators(domSet);
      if RightRoot(Read(incoming, count)) {
        ParentsFromDominators(Read(incoming, count), domSet[..], parent[..]);
      }
    }

    /** The value of a node's equation: the first known set, intersected with the later known ones, and the node. */
    method MeetPreds(domSet: array<set<nat>>, i: nat) returns (tmpDom: set<nat>)
      requires Flow(incoming, count) && domSet.Length == count && i < count
      requires InRange(Read(incoming, count))
      ensures tmpDom == Equation(Read(incoming, count), domSet[..], i)
    {
      ghost var l := Read(incoming, count)[i];
      ghost var dom := domSet[..];
      var src := incoming[i];
      var k := 0;
      tmpDom := {};
      while k < |src| && domSet[NodeNum(src[k], count)] == {}
        invariant k <= |src| && !SomeKnown(dom, l[..k]) && Meet(dom, l[..k]) == {}
      {
        MeetMore(dom, l, k);
        k := k + 1;
      }
      if k < |src| {
        tmpDom := domSet[NodeNum(src[k], count)];
        MeetMore(dom, l, k);
        k := k + 1;
      }
      while k < |src|
        invariant k <= |src| && Meet(dom, l[..k]) == tmpDom && (k < |src| ==> SomeKnown(dom, l[..k]))
      {
        var nodeNum := NodeNum(src[k], count);
        if domSet[nodeNum] != {} {
          tmpDom := tmpDom * domSet[nodeNum];
        }
        MeetMore(dom, l, k);
        k := k + 1;
      }
      assert l[..k] == l;
      tmpDom := tmpDom + {i};
    }

    /** One round of the iteration. From a state that keeps the invariant of narrowing it goes to another, with smaller
        sets unless nothing changes. */
    method Round(domSet: array<set<nat>>) returns (changed: bool)
      requires Flow(incoming, count) && domSet.Length == count
      requires Numbered(Read(incoming, count)) && InRange(Read(incoming, count))
      modifies domSet
      ensures domSet[..] == RoundFrom(Read(incoming, count), old(domSet[..]), 0)
      ensures changed <==> domSet[..] != old(domSet[..])
      ensures RoundState(Read(incoming, count), old(domSet[..]), old(domSet[..]), 0, false) ==>
                RoundState(Read(incoming, count), old(domSet[..]), domSet[..], count, changed)
    {
      ghost var preds := Read(incoming, count);
      ghost var was, dom := domSet[..], domSet[..];
      changed := false;
      for i := 0 to count
        invariant domSet[..] == dom && dom[i..] == was[i..]
        invariant changed <==> dom != was
        invariant RoundState(preds, was, was, 0, false) ==> RoundState(preds, was, dom, i, changed)
        invariant RoundFrom(preds, dom, i) == RoundFrom(preds, was, 0)
      {
        var tmpDom := MeetPreds(domSet, i);
        if RoundState(preds, was, was, 0, false) {
          RoundKeeps(preds, was, dom, i, changed, tmpDom);
        }
        StepChanges(was, dom, i, tmpDom);
        dom := dom[i := tmpDom];
        if tmpDom != domSet[i] {
          changed := true;
          domSet[i] := tmpDom;
        }
      }
    }

    /** The dominator sets: rounds until one changes nothing. */
    method DominatorSets() returns (domSet: array<set<nat>>)
      requires Flow(incoming, count) && Ends(Read(incoming, count))
      ensures fresh(domSet) && domSet.Length == count && Limit(Read(incoming, count), domSet[..])
      ensures (forall i: nat, a: nat | i < count :: a in domSet[i] <==> Dominates(Read(incoming, count), a, i))
        <==> RightRoot(Read(incoming, count))
    {
      ReadNumbered(incoming, count);
      ghost var preds := Read(incoming, count);
      ghost var last: nat :| Quiet(preds, last);
      domSet := new set<nat>[count](i => if i == 0 then {1} else {});
      ghost var t := 0;
      assert domSet[..] == After(preds, 0);
      var changed := true;
      while changed
        invariant domSet[..] == After(preds, t) && (if changed then t <= last else Quiet(preds, t))
        decreases last - t, changed
      {
        changed := Round(domSet);
        if changed {
          GoesOn(preds, last, t);
          t := t + 1;
        }
      }
      LimitIsRight(preds, domSet[..]);
    }

    /** The largest other member of each node's set becomes its parent. */
    method ImmediateDominators(domSet: array<set<nat>>)
      requires domSet.Length == parent.Length == count
      modifies parent
      ensures forall i: nat | i < count :: LargestOther(domSet[i], i, parent[i])
    {
      for i := 0 to count
        invariant forall j: nat | j < i :: LargestOther(domSet[j], j, parent[j])
      {
        var parentOfI: int := -1;
        var rest := domSet[i];
        while rest != {}
          invariant rest <= domSet[i]
          invariant parentOfI == -1 || (parentOfI >= 0 && parentOfI in domSet[i] && parentOfI != i)
          invariant forall a: nat | a in domSet[i] && a != i :: a in rest || a <= parentOfI
          decreases |rest|
        {
          var val :| val in rest;
          if parentOfI < val && val != i {
            parentOfI := val;
          }
          rest := rest - {val};
        }
        parent[i] := parentOfI;
      }
    }

    /** Every source's chain of parents up to the parent of b gets b into its frontier. The root has no parent to
        stop at: the walk fails when one is taken for it, and a single edge into the root is passed over. */
    method ComputeDominanceFrontiers() returns (ok: bool)
      requires Valid()
      modifies domFront
      ensures Valid()
      ensures ok <==> !(|incoming[0]| > 1 && exists k :: 0 <= k < |incoming[0]| && incoming[0][k] < count)
      ensures ok ==> forall x: nat, b: nat | x < count && b < |incoming| ::
          b in domFront[x] <==>
            if b == 0 then old(b in domFront[x]) else FrontierBy(incoming, count, x, b, |incoming[b]|)
    {
      for b := 0 to |incoming|
        invariant Valid()
        invariant b > 0 ==> !(|incoming[0]| > 1 && exists k :: 0 <= k < |incoming[0]| && incoming[0][k] < count)
        invariant forall x: nat, c: nat | x < count && c < b ::
            c in domFront[x] <==>
              if c == 0 then old(c in domFront[x]) else FrontierBy(incoming, count, x, c, |incoming[c]|)
        invariant b == 0 ==> domFront[..] == old(domFront[..])
      {
        ghost var was := domFront[..];
        if |incoming[b]| > 1 {
          for k := 0 to |incoming[b]|
            invariant forall x: nat, c: nat | x < count && c != b :: c in domFront[x] <==> c in was[x]
            invariant b > 0 ==> forall x: nat | x < count ::
              b in domFront[x] <==> b in was[x] || FrontierBy(incoming, count, x, b, k)
            invariant b == 0 ==> domFront[..] == was && forall j | 0 <= j < k :: incoming[0][j] >= count
          {
            ghost var before := domFront[..];
            if incoming[b][k] < count {
              if b == 0 {
                return false;
              }
              RunUp(b, k);
            }
            if b > 0 {
              FrontierStep(incoming, count, b, k, was, before, domFront[..]);
            }
          }
        } else if b > 0 {
          forall x: nat | x < count ensures !FrontierBy(incoming, count, x, b, |incoming[b]|) {
            SingleHasNoFrontier(incoming, count, x, b);
          }
        }
      }
      ok := true;
    }

    method RunUp(b: nat, k: nat)
      requires Flow(incoming, count) && parent.Length == domFront.Length == count
      requires Parents(Read(incoming, count), parent[..])
      requires 0 < b < |incoming| && k < |incoming[b]| && incoming[b][k] < count
      modifies domFront
      ensures forall x: nat, c: nat | x < count :: c in domFront[x] <==>
          (c in old(domFront[x]) || (c == b && Dominates(Read(incoming, count), x, incoming[b][k])
            && !StrictlyDominates(Read(incoming, count), x, b)))
    {
      ghost var preds := Read(incoming, count);
      ghost var was := domFront[..];
      ghost var up := parent[..];
      var runner := incoming[b][k];
      assert 0 < b < count;
      assert preds[b][k] == runner && runner in preds[b];
      DominatesPred(preds, up[b], b, runner);
      forall x: nat ensures StrictlyDominates(preds, x, b) <==> Dominates(preds, x, up[b]) {
        StrictlyIsUpward(preds, x, up[b], b);
      }
      while runner != parent[b]
        invariant 0 <= runner < count && Dominates(preds, up[b], runner) && parent[..] == up
        invariant forall x: nat, c: nat | x < count :: c in domFront[x] <==>
            (c in was[x] || (c == b && Dominates(preds, x, incoming[b][k]) && !Dominates(preds, x, runner)))
        invariant forall x: nat | Dominates(preds, x, runner) :: Dominates(preds, x, incoming[b][k])
        decreases runner
      {
        assert runner > 0 by {
          DominatorsAreSmaller(preds, up[b], runner);
        }
        forall x: nat
          ensures Dominates(preds, x, runner) <==> x == runner || Dominates(preds, x, up[runner])
          ensures !Dominates(preds, runner, up[runner])
        {
          StepUp(preds, up, runner, x);
        }
        domFront[runner] := domFront[runner] + {b};
        runner := parent[runner];
      }
    }
  }
}

/** The depth-first numbers of a linked graph are what the dominator tree builds on. */
module GraphDominators {
  import opened Collections
  import opened DepthFirst
  import opened DirectedGraphs
  import opened Dominance
  import opened DominatorSets

  /** Numbers for all nodes, the reached ones in traversal order, and the sources of their incoming edges. */
  ghost predicate NumbersGraph(g: DGraph, all: seq<Node>, incoming: seq<seq<nat>>)
    requires g.Linked() && g.rootNode != null
    reads g, g.nodeSet, g.edgeSet
  {
    && g.Order() <= all && Distinct(all) && Inside(all, g.nodeSet)
    && |incoming| == |all|
    && forall i | 0 <= i < |all| :: NumbersSources(all, all[i].incomingEdges, incoming[i])
  }

  ghost predicate NumbersSources(all: seq<Node>, edges: seq<Edge>, sources: seq<nat>) {
    && |sources| == |edges|
    && forall k | 0 <= k < |edges| :: sources[k] < |all| && all[sources[k]] == edges[k].n1
  }

  lemma NumberIsUnique(all: seq<Node>, i: nat, j: nat)
    requires Distinct(all) && i < |all| && j < |all| && all[i] == all[j]
    ensures i == j
  {
  }

  /** A reached node other than the root has a source that was reached before it. */
  lemma ParentIsSource(g: DGraph, all: seq<Node>, incoming: seq<seq<nat>>, i: nat)
    requires g.Linked() && g.rootNode != null && NumbersGraph(g, all, incoming) && 0 < i < |g.Order()|
    ensures SomeBelow(incoming[i], i)
  {
    g.OrderIsReachable();
    var order := g.Order();
    assert HasParent(g.Adj(), order, i);
    var j :| 0 <= j < i && order[j] in g.Adj() && order[i] in g.Adj()[order[j]];
    assert order[j] == all[j] && order[i] == all[i];
    var m := g.AdjacentByEdge(all[j], all[i]);
    assert NumbersSources(all, all[i].incomingEdges, incoming[i]);
    NumberIsUnique(all, incoming[i][m], j);
    assert incoming[i][m] in incoming[i];
  }

  /** A node that was not reached has no reached source. */
  lemma StraySources(g: DGraph, all: seq<Node>, incoming: seq<seq<nat>>, i: nat, k: nat)
    requires g.Linked() && g.rootNode != null && NumbersGraph(g, all, incoming)
    requires i < |all| && k < |incoming[i]| && incoming[i][k] < |g.Order()|
    ensures i < |g.Order()|
  {
    g.OrderIsReachable();
    var order := g.Order();
    assert NumbersSources(all, all[i].incomingEdges, incoming[i]);
    var x := order[incoming[i][k]];
    g.EdgeIsAdjacent(all[i], k);
    assert x == all[incoming[i][k]];
    assert AllIn(g.Adj()[x], order);
    var j :| 0 <= j < |order| && order[j] == all[i];
    NumberIsUnique(all, i, j);
  }

  /** The numbers meet what the dominator tree asks of them. */
  lemma GraphIsFlow(g: DGraph, all: seq<Node>, incoming: seq<seq<nat>>)
    requires g.Linked() && g.rootNode != null && NumbersGraph(g, all, incoming)
    ensures Flow(incoming, |g.Order()|) && |incoming[0]| == |g.rootNode.incomingEdges|
  {
    g.OrderIsReachable();
    var count := |g.Order()|;
    assert all[0] == g.rootNode;
    assert NumbersSources(all, all[0].incomingEdges, incoming[0]);
    forall i, k | 0 <= i < |incoming| && 0 <= k < |incoming[i]| ensures incoming[i][k] < |incoming| {
      assert NumbersSources(all, all[i].incomingEdges, incoming[i]);
    }
    forall i | 0 < i < count ensures SomeBelow(incoming[i], i) {
      ParentIsSource(g, all, incoming, i);
    }
    forall i, k | count <= i < |incoming| && 0 <= k < |incoming[i]| ensures incoming[i][k] >= count {
      if incoming[i][k] < count {
        StraySources(g, all, incoming, i, k);
      }
    }
  }
}
