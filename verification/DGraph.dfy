/** Depth-first order of a graph given by adjacency lists, as a function. */
module DepthFirst {
  import opened Collections

  ghost predicate Closed<T>(nodes: set<T>, adj: map<T, seq<T>>) {
    && nodes <= adj.Keys
    && forall n, k | n in nodes && 0 <= k < |adj[n]| :: adj[n][k] in nodes
  }

  ghost predicate Inside<T>(l: seq<T>, nodes: set<T>) {
    forall k | 0 <= k < |l| :: l[k] in nodes
  }

  lemma {:induction false} DistinctSize<T>(l: seq<T>, nodes: set<T>)
    requires Inside(l, nodes) && Distinct(l)
    ensures |l| <= |nodes| && (|l| == |nodes| ==> forall x | x in nodes :: x in l)
  {
    if l != [] {
      var x, rest := l[|l| - 1], l[..|l| - 1];
      forall k | 0 <= k < |rest| ensures rest[k] in nodes - {x} {
        assert rest[k] == l[k] && l[k] != l[|l| - 1];
      }
      DistinctSize(rest, nodes - {x});
      assert forall y | y in rest :: y in l;
      assert l[|l| - 1] == x;
    }
  }

  /** The nodes in the order in which a depth-first search meets them that has met those of the chain and is to visit
      those of the list. */
  ghost function Dfs<T>(nodes: set<T>, adj: map<T, seq<T>>, l: seq<T>, chain: seq<T>): (r: seq<T>)
    requires Closed(nodes, adj) && Inside(l, nodes) && Inside(chain, nodes) && Distinct(chain)
    ensures Inside(r, nodes) && Distinct(r) && chain <= r
    decreases |nodes| - |chain|, |l|
  {
    DistinctSize(chain, nodes);
    if l == [] then chain
    else if l[0] in chain then Dfs(nodes, adj, l[1..], chain)
    else
      DistinctSize(chain + [l[0]], nodes);
      var r := Dfs(nodes, adj, adj[l[0]], chain + [l[0]]);
      DistinctSize(r, nodes);
      Dfs(nodes, adj, l[1..], r)
  }

  lemma PrefixIn<T>(c: seq<T>, r: seq<T>)
    requires c <= r
    ensures forall x | x in c :: x in r
  {
    forall x | x in c ensures x in r {
      var k :| 0 <= k < |c| && c[k] == x;
      assert r[k] == x;
    }
  }

  ghost predicate AllIn<T>(l: seq<T>, r: seq<T>) {
    forall x | x in l :: x in r
  }

  /** The nodes of r not in the chain have their adjacent nodes in r. */
  ghost predicate Explored<T>(adj: map<T, seq<T>>, r: seq<T>, chain: seq<T>) {
    forall x | x in r && x !in chain && x in adj :: AllIn(adj[x], r)
  }

  /** Every node on the list is in the result, and the result is closed under adjacency but for the chain. */
  lemma {:induction false} DfsCloses<T>(nodes: set<T>, adj: map<T, seq<T>>, l: seq<T>, chain: seq<T>)
    requires Closed(nodes, adj) && Inside(l, nodes) && Inside(chain, nodes) && Distinct(chain)
    ensures AllIn(l, Dfs(nodes, adj, l, chain)) && Explored(adj, Dfs(nodes, adj, l, chain), chain)
    decreases |nodes| - |chain|, |l|
  {
    DistinctSize(chain, nodes);
    if l != [] {
      var r := Dfs(nodes, adj, l, chain);
      PrefixIn(chain, r);
      assert forall x | x in l :: x == l[0] || x in l[1..];
      if l[0] in chain {
        DfsCloses(nodes, adj, l[1..], chain);
      } else {
        DistinctSize(chain + [l[0]], nodes);
        var c := chain + [l[0]];
        var mid := Dfs(nodes, adj, adj[l[0]], c);
        DistinctSize(mid, nodes);
        DfsCloses(nodes, adj, adj[l[0]], c);
        DfsCloses(nodes, adj, l[1..], mid);
        PrefixIn(c, mid);
        PrefixIn(mid, r);
        assert l[0] == c[|chain|];
        forall x | x in r && x !in chain && x in adj ensures AllIn(adj[x], r) {
          assert x == l[0] || x in mid ==> AllIn(adj[x], mid);
        }
      }
    }
  }

  // ----- In what order nodes are met -----

  /** The first node on the list that is not among those met. */
  ghost predicate FirstUnmet<T>(l: seq<T>, met: seq<T>, x: T) {
    x !in met && exists k :: 0 <= k < |l| && l[k] == x && AllIn(l[..k], met)
  }

  /** A depth-first search meets x next: x is the first unmet neighbour of the latest of the nodes searched so far
      that has an unmet one. */
  ghost predicate Next<T>(adj: map<T, seq<T>>, searched: seq<T>, met: seq<T>, x: T) {
    exists j :: NextAt(adj, searched, met, x, j)
  }

  ghost predicate NextAt<T>(adj: map<T, seq<T>>, searched: seq<T>, met: seq<T>, x: T, j: int) {
    && 0 <= j < |searched| && searched[j] in adj && FirstUnmet(adj[searched[j]], met, x)
    && AllSearched(adj, searched, met, j + 1)
  }

  /** The nodes from the j-th on have no unmet neighbours. */
  ghost predicate AllSearched<T>(adj: map<T, seq<T>>, searched: seq<T>, met: seq<T>, j: int) {
    forall m | 0 <= j <= m < |searched| && searched[m] in adj :: AllIn(adj[searched[m]], met)
  }

  /** Behind the chain, r lists what a search meets that has searched the nodes of v before, each where it is next. */
  ghost predicate Deep<T>(adj: map<T, seq<T>>, v: seq<T>, chain: seq<T>, r: seq<T>) {
    chain <= r && forall i | |chain| <= i < |r| :: Next(adj, v + r[|chain|..i], r[..i], r[i])
  }

  lemma DeepFirst<T>(adj: map<T, seq<T>>, v: seq<T>, chain: seq<T>, j: nat, k: nat)
    requires j < |v| && v[j] in adj && k < |adj[v[j]]| && adj[v[j]][k] !in chain && AllIn(adj[v[j]][..k], chain)
    requires AllSearched(adj, v, chain, j + 1)
    ensures Next(adj, v, chain, adj[v[j]][k])
  {
    assert NextAt(adj, v, chain, adj[v[j]][k], j);
  }

  lemma DeepJoined<T>(adj: map<T, seq<T>>, v: seq<T>, chain: seq<T>, x: T, mid: seq<T>, r: seq<T>)
    requires Next(adj, v, chain, x) && Deep(adj, v + [x], chain + [x], mid)
    requires chain + [x] <= mid && Deep(adj, v + mid[|chain|..], mid, r)
    ensures Deep(adj, v, chain, r)
  {
    forall i | |chain| <= i < |r| ensures Next(adj, v + r[|chain|..i], r[..i], r[i]) {
      if i == |chain| {
        assert v + r[|chain|..i] == v && r[..i] == chain && r[i] == mid[i];
      } else if i < |mid| {
        assert v + r[|chain|..i] == v + [x] + mid[|chain + [x]|..i] && r[..i] == mid[..i] && r[i] == mid[i];
      } else {
        assert v + r[|chain|..i] == v + mid[|chain|..] + r[|mid|..i];
      }
    }
  }

  /** With all earlier nodes of mid searched, and x and what was met from it. */
  lemma SearchedMore<T>(adj: map<T, seq<T>>, v: seq<T>, chain: seq<T>, x: T, mid: seq<T>, j: nat)
    requires AllSearched(adj, v, chain, j) && j <= |v| && chain + [x] <= mid && Distinct(mid)
    requires (x in adj ==> AllIn(adj[x], mid)) && Explored(adj, mid, chain + [x])
    ensures AllSearched(adj, v + mid[|chain|..], mid, j)
  {
    var w := v + mid[|chain|..];
    PrefixIn(chain, mid);
    forall m | j <= m < |w| && w[m] in adj ensures AllIn(adj[w[m]], mid) {
      if m < |v| {
        assert w[m] == v[m];
      } else {
        var i := m - |v| + |chain|;
        assert w[m] == mid[i];
        if i == |chain| {
          assert mid[i] == (chain + [x])[i];
        } else {
          forall y | y in chain + [x] ensures y != mid[i] {
            var h :| 0 <= h < |chain + [x]| && (chain + [x])[h] == y;
            assert mid[h] == y;
          }
        }
      }
    }
  }

  lemma {:induction false} DfsGoesDeep<T>(nodes: set<T>, adj: map<T, seq<T>>, l: seq<T>, chain: seq<T>, v: seq<T>,
                                          j: nat, k: nat)
    requires Closed(nodes, adj) && Inside(l, nodes) && Inside(chain, nodes) && Distinct(chain)
    requires j < |v| && v[j] in adj && k <= |adj[v[j]]| && l == adj[v[j]][k..] && AllIn(adj[v[j]][..k], chain)
    requires AllSearched(adj, v, chain, j + 1)
    ensures Deep(adj, v, chain, Dfs(nodes, adj, l, chain))
    decreases |nodes| - |chain|, |l|
  {
    DistinctSize(chain, nodes);
    if l != [] {
      var x := l[0];
      assert adj[v[j]][..k + 1] == adj[v[j]][..k] + [x];
      if x in chain {
        DfsGoesDeep(nodes, adj, l[1..], chain, v, j, k + 1);
      } else {
        var c := chain + [x];
        DistinctSize(c, nodes);
        var mid := Dfs(nodes, adj, adj[x], c);
        DistinctSize(mid, nodes);
        DfsCloses(nodes, adj, adj[x], c);
        PrefixIn(c, mid);
        PrefixIn(chain, c);
        assert c[|chain|] == x;
        DeepFirst(adj, v, chain, j, k);
        DfsGoesDeep(nodes, adj, adj[x], c, v + [x], |v|, 0);
        SearchedMore(adj, v, chain, x, mid, j + 1);
        DfsGoesDeep(nodes, adj, l[1..], mid, v + mid[|chain|..], j, k + 1);
        DeepJoined(adj, v, chain, x, mid, Dfs(nodes, adj, l[1..], mid));
      }
    }
  }

  /** The search from a meets every node where it is next. */
  lemma DfsIsDeep<T>(nodes: set<T>, adj: map<T, seq<T>>, a: T, chain: seq<T>)
    requires Closed(nodes, adj) && a in nodes && Inside(adj[a], nodes) && Inside(chain, nodes) && Distinct(chain)
    ensures Deep(adj, [a], chain, Dfs(nodes, adj, adj[a], chain))
  {
    DfsGoesDeep(nodes, adj, adj[a], chain, [a], 0, 0);
  }

  /** A search among nodes met before meets none. */
  lemma {:induction false} DfsOfMet<T>(nodes: set<T>, adj: map<T, seq<T>>, l: seq<T>, chain: seq<T>)
    requires Closed(nodes, adj) && Inside(l, nodes) && Inside(chain, nodes) && Distinct(chain)
    requires forall x | x in l :: x in chain
    ensures Dfs(nodes, adj, l, chain) == chain
    decreases |l|
  {
    if l != [] {
      DfsOfMet(nodes, adj, l[1..], chain);
    }
  }

  /** The last node of a search is explored when it is not the one the search started from. */
  lemma LastExplored<T>(nodes: set<T>, adj: map<T, seq<T>>, l: seq<T>, chain: seq<T>)
    requires Closed(nodes, adj) && Inside(l, nodes) && Inside(chain, nodes) && Distinct(chain)
    ensures var r := Dfs(nodes, adj, l, chain);
      |r| > |chain| ==> AllIn(adj[r[|r| - 1]], r)
  {
    DfsCloses(nodes, adj, l, chain);
    var r := Dfs(nodes, adj, l, chain);
    if |r| > |chain| {
      assert r[|r| - 1] in r && r[|r| - 1] !in chain;
    }
  }

  ghost predicate SearchFrom<T>(nodes: set<T>, adj: map<T, seq<T>>, n: T, chain: seq<T>) {
    && Closed(nodes, adj) && n in nodes && Inside(adj[n], nodes)
    && Inside(chain, nodes) && Distinct(chain) && |chain| > 0 && chain[|chain| - 1] == n && |chain| <= |nodes|
  }

  /** The search from n has come to the k-th adjacent node and meets r so far. */
  ghost predicate Searching<T>(nodes: set<T>, adj: map<T, seq<T>>, n: T, k: int, chain: seq<T>, r: seq<T>) {
    && SearchFrom(nodes, adj, n, chain) && 0 <= k <= |adj[n]|
    && Inside(r, nodes) && Distinct(r) && chain <= r && Inside(adj[n][k..], nodes)
    && Dfs(nodes, adj, adj[n][k..], r) == Dfs(nodes, adj, adj[n], chain)
    && (|r| > |chain| ==> AllIn(adj[r[|r| - 1]], r))
  }

  lemma SearchSkips<T>(nodes: set<T>, adj: map<T, seq<T>>, n: T, k: nat, chain: seq<T>, r: seq<T>)
    requires Searching(nodes, adj, n, k, chain, r) && k < |adj[n]| && adj[n][k] in r
    ensures Searching(nodes, adj, n, k + 1, chain, r)
  {
    assert adj[n][k..][1..] == adj[n][k + 1..];
  }

  /** A step that searches from the next adjacent node, which is new or, without effect, the last one met. */
  lemma SearchSteps<T>(nodes: set<T>, adj: map<T, seq<T>>, n: T, k: nat, chain: seq<T>, r: seq<T>, c: seq<T>)
    requires Searching(nodes, adj, n, k, chain, r) && k < |adj[n]|
    requires c == if adj[n][k] in r then r else r + [adj[n][k]]
    requires adj[n][k] in r ==> adj[n][k] == r[|r| - 1]
    ensures SearchFrom(nodes, adj, adj[n][k], c)
    ensures Searching(nodes, adj, n, k + 1, chain, Dfs(nodes, adj, adj[adj[n][k]], c))
  {
    var m := adj[n][k];
    var rest := adj[n][k + 1..];
    assert adj[n][k..][1..] == rest;
    DistinctSize(c, nodes);
    var r2 := Dfs(nodes, adj, adj[m], c);
    if m !in r {
      DfsCloses(nodes, adj, adj[m], c);
      LastExplored(nodes, adj, adj[m], c);
    } else if |r| > |chain| {
      DfsOfMet(nodes, adj, adj[m], r);
    } else {
      assert r == chain && m == n;
      DfsCloses(nodes, adj, adj[n], chain);
      LastExplored(nodes, adj, adj[n], chain);
      DfsOfMet(nodes, adj, rest, r2);
    }
  }

  /** Some walk of k steps leads from a to b. */
  ghost predicate ReachesIn<T>(nodes: set<T>, adj: map<T, seq<T>>, k: nat, a: T, b: T) {
    if k == 0 then a == b else
      exists m | m in nodes :: ReachesIn(nodes, adj, k - 1, a, m) && m in adj && b in adj[m]
  }

  ghost predicate Reaches<T>(nodes: set<T>, adj: map<T, seq<T>>, a: T, b: T) {
    exists k: nat :: ReachesIn(nodes, adj, k, a, b)
  }

  /** A set closed under adjacency holds all that it reaches. */
  lemma {:induction false} ClosedHoldsReached<T>(nodes: set<T>, adj: map<T, seq<T>>, r: seq<T>, k: nat, a: T, b: T)
    requires a in r && Explored(adj, r, []) && ReachesIn(nodes, adj, k, a, b)
    ensures b in r
  {
    if k > 0 {
      var m :| m in nodes && ReachesIn(nodes, adj, k - 1, a, m) && m in adj && b in adj[m];
      ClosedHoldsReached(nodes, adj, r, k - 1, a, m);
      assert AllIn(adj[m], r);
    }
  }

  /** Each node past the first i has an earlier one that it is adjacent to. */
  ghost predicate Descends<T>(adj: map<T, seq<T>>, r: seq<T>, i: int) {
    forall k | 0 <= i <= k < |r| :: HasParent(adj, r, k)
  }

  ghost predicate HasParent<T>(adj: map<T, seq<T>>, r: seq<T>, k: int) {
    exists j :: 0 <= j < k < |r| && r[j] in adj && r[k] in adj[r[j]]
  }

  lemma {:induction false} DfsDescends<T>(nodes: set<T>, adj: map<T, seq<T>>, l: seq<T>, chain: seq<T>, n: T)
    requires Closed(nodes, adj) && Inside(l, nodes) && Inside(chain, nodes) && Distinct(chain)
    requires n in chain && n in adj && forall x | x in l :: x in adj[n]
    ensures Descends(adj, Dfs(nodes, adj, l, chain), |chain|)
    decreases |nodes| - |chain|, |l|
  {
    DistinctSize(chain, nodes);
    if l != [] {
      if l[0] in chain {
        DfsDescends(nodes, adj, l[1..], chain, n);
      } else {
        var c := chain + [l[0]];
        DistinctSize(c, nodes);
        var mid := Dfs(nodes, adj, adj[l[0]], c);
        DistinctSize(mid, nodes);
        assert c[|chain|] == l[0];
        PrefixIn(chain, c);
        PrefixIn(c, mid);
        DfsDescends(nodes, adj, adj[l[0]], c, l[0]);
        DfsDescends(nodes, adj, l[1..], mid, n);
        var r := Dfs(nodes, adj, l[1..], mid);
        forall k | |chain| <= k < |r| ensures HasParent(adj, r, k) {
          if k == |chain| {
            var j :| 0 <= j < |chain| && chain[j] == n;
            assert r[j] == n && r[k] == l[0];
          } else if k < |mid| {
            assert HasParent(adj, mid, k);
            var j :| 0 <= j < k < |mid| && mid[j] in adj && mid[k] in adj[mid[j]];
            assert r[j] == mid[j] && r[k] == mid[k];
          }
        }
      }
    }
  }

  lemma {:induction false} DescentReaches<T>(nodes: set<T>, adj: map<T, seq<T>>, r: seq<T>, k: nat)
    requires Inside(r, nodes) && Descends(adj, r, 1) && k < |r|
    ensures Reaches(nodes, adj, r[0], r[k])
  {
    if k == 0 {
      assert ReachesIn(nodes, adj, 0, r[0], r[0]);
    } else {
      assert HasParent(adj, r, k);
      var j :| 0 <= j < k && r[j] in adj && r[k] in adj[r[j]];
      DescentReaches(nodes, adj, r, j);
      var i: nat :| ReachesIn(nodes, adj, i, r[0], r[j]);
      assert ReachesIn(nodes, adj, i + 1, r[0], r[k]);
    }
  }

  /** The search from a root meets exactly what the root reaches, each node once, and each but the root has an earlier
      node that it is adjacent to. */
  lemma DfsFindsReachable<T>(nodes: set<T>, adj: map<T, seq<T>>, root: T)
    requires Closed(nodes, adj) && root in nodes
    ensures Inside([root], nodes) && Inside(adj[root], nodes) && Distinct([root])
    ensures var r := Dfs(nodes, adj, adj[root], [root]);
      && Distinct(r) && r[0] == root && Descends(adj, r, 1)
      && forall b :: b in r <==> Reaches(nodes, adj, root, b)
  {
    var r := Dfs(nodes, adj, adj[root], [root]);
    assert r[0] == root;
    DfsCloses(nodes, adj, adj[root], [root]);
    DfsDescends(nodes, adj, adj[root], [root], root);
    forall b | b in r ensures Reaches(nodes, adj, root, b) {
      var k :| 0 <= k < |r| && r[k] == b;
      DescentReaches(nodes, adj, r, k);
    }
    assert Explored(adj, r, []);
    forall b | Reaches(nodes, adj, root, b) ensures b in r {
      var k: nat :| ReachesIn(nodes, adj, k, root, b);
      ClosedHoldsReached(nodes, adj, r, k, root, b);
    }
  }
}

/** Directed graphs of linked node and edge objects, and the threading of their nodes in depth-first order. */
module DirectedGraphs {
  import opened Collections
  import opened DepthFirst

  /** How an operation ended; all but Done are the exceptions of the interface. */
  datatype Status =
    | Done
    | EmptyEdge | DuplicateEdge | NonexistentEdge | EdgeInUse
    | EmptyNode | DuplicateNode | NonexistentNode | NodeInUse
    | DeletingRootOfNonSingletonGraph

  class Node {
    var inUse: bool
    var dfsSucc: Node?
    var incomingEdges: seq<Edge>
    var outgoingEdges: seq<Edge>

    constructor ()
      ensures !inUse && dfsSucc == null && incomingEdges == [] && outgoingEdges == []
    {
      inUse := false;
      dfsSucc := null;
      incomingEdges := [];
      outgoingEdges := [];
    }
  }

  class Edge {
    var inUse: bool
    const n1: Node?
    const n2: Node?

    constructor (n1: Node?, n2: Node?)
      ensures !inUse && this.n1 == n1 && this.n2 == n2
    {
      inUse := false;
      this.n1 := n1;
      this.n2 := n2;
    }
  }

  /** The list without the edges of a set. */
  function Minus(s: seq<Edge>, x: set<Edge>): (r: seq<Edge>)
    ensures forall e | e in r :: e in s && e !in x
    ensures forall e | e in s && e !in x :: e in r
  {
    if s == [] then [] else
      var r := Minus(s[1..], x);
      if s[0] in x then r else [s[0]] + r
  }

  lemma {:induction false} MinusCount(s: seq<Edge>, x: set<Edge>, e: Edge)
    ensures multiset(Minus(s, x))[e] == if e in x then 0 else multiset(s)[e]
  {
    if s != [] {
      assert s == [s[0]] + s[1..];
      MinusCount(s[1..], x, e);
    }
  }

  lemma {:induction false} MinusNothing(s: seq<Edge>, x: set<Edge>)
    requires forall e | e in s :: e !in x
    ensures Minus(s, x) == s
  {
    if s != [] {
      MinusNothing(s[1..], x);
    }
  }

  lemma {:induction false} MinusTwice(s: seq<Edge>, x: set<Edge>, y: set<Edge>)
    ensures Minus(Minus(s, x), y) == Minus(s, x + y)
  {
    if s != [] {
      MinusTwice(s[1..], x, y);
      var r := Minus(s[1..], x);
      if s[0] !in x {
        assert ([s[0]] + r)[1..] == r;
      }
    }
  }

  lemma {:induction false} CountIsIndex(s: seq<Edge>, i: nat, j: nat)
    requires i < j < |s| && multiset(s)[s[i]] == 1
    ensures s[i] != s[j]
  {
    assert s == s[..j] + s[j..];
    assert s[i] in s[..j];
    assert s[j] in s[j..];
  }

  ghost predicate Blank(n: Node)
    reads n
  {
    n.incomingEdges == [] && n.outgoingEdges == []
  }

  ghost predicate EndIn(l: seq<Edge>, nodes: set<Node>) {
    forall k | 0 <= k < |l| :: l[k].n2 != null && l[k].n2 in nodes
  }

  ghost function Sinks(l: seq<Edge>, nodes: set<Node>): (r: seq<Node>)
    requires EndIn(l, nodes)
    ensures |r| == |l| && Inside(r, nodes) && forall k | 0 <= k < |l| :: r[k] == l[k].n2
  {
    if l == [] then [] else [l[0].n2] + Sinks(l[1..], nodes)
  }

  /** The lists of the nodes give the adjacency. */
  ghost predicate Agrees(nodes: set<Node>, adj: map<Node, seq<Node>>)
    reads nodes`outgoingEdges
  {
    forall n | n in nodes :: n in adj && |adj[n]| == |n.outgoingEdges|
      && forall k | 0 <= k < |adj[n]| :: n.outgoingEdges[k].n2 == adj[n][k]
  }

  // ----- Depth-first order by the lists of edges alone -----

  /** All edges of the list lead to nodes that have been met. */
  ghost predicate SinksMet(l: seq<Edge>, met: seq<Node>) {
    forall k | 0 <= k < |l| :: l[k].n2 != null && l[k].n2 in met
  }

  /** The first edge of the list to a node that has not been met leads to x. */
  ghost predicate FirstSink(l: seq<Edge>, met: seq<Node>, x: Node) {
    x !in met && exists k :: 0 <= k < |l| && l[k].n2 == x && SinksMet(l[..k], met)
  }

  /** The latest of the nodes searched that has an edge to a node not met has its first such edge to x. */
  ghost predicate NextSink(nodes: set<Node>, searched: seq<Node>, met: seq<Node>, x: Node)
    reads nodes`outgoingEdges
  {
    Inside(searched, nodes) && exists j :: NextSinkAt(nodes, searched, met, x, j)
  }

  ghost predicate NextSinkAt(nodes: set<Node>, searched: seq<Node>, met: seq<Node>, x: Node, j: int)
    requires Inside(searched, nodes)
    reads nodes`outgoingEdges
  {
    && 0 <= j < |searched| && FirstSink(searched[j].outgoingEdges, met, x)
    && forall m | j < m < |searched| :: SinksMet(searched[m].outgoingEdges, met)
  }

  /** Behind the chain, r lists what a search from n meets, each node where it is next. */
  ghost predicate FollowsLists(nodes: set<Node>, n: Node, chain: seq<Node>, r: seq<Node>)
    reads nodes`outgoingEdges
  {
    chain <= r && forall i | |chain| <= i < |r| :: NextSink(nodes, [n] + r[|chain|..i], r[..i], r[i])
  }

  /** The list starts at the root, goes on with each node where it is next, and ends where none is left. */
  ghost predicate DepthFirstOrder(nodes: set<Node>, root: Node, order: seq<Node>)
    reads nodes`outgoingEdges
  {
    && order != [] && order[0] == root && Inside(order, nodes) && Distinct(order)
    && (forall i | 0 < i < |order| :: NextSink(nodes, order[..i], order[..i], order[i]))
    && (forall i | 0 <= i < |order| :: SinksMet(order[i].outgoingEdges, order))
  }

  /** The sink of the edge has been met, directly behind r if it is new. */
  ghost predicate MetNext(e: Edge, r: seq<Node>, r': seq<Node>) {
    && r <= r' && e.n2 != null && e.n2 in r'
    && (e.n2 !in r ==> |r| < |r'| && r'[|r|] == e.n2)
  }

  lemma SinksListed(l: seq<Edge>, sinks: seq<Node>, met: seq<Node>)
    requires |sinks| == |l| && forall k | 0 <= k < |l| :: l[k].n2 == sinks[k]
    ensures AllIn(sinks, met) ==> SinksMet(l, met)
    ensures forall x | FirstUnmet(sinks, met, x) :: FirstSink(l, met, x)
  {
    forall x | FirstUnmet(sinks, met, x) ensures FirstSink(l, met, x) {
      var k :| 0 <= k < |sinks| && sinks[k] == x && AllIn(sinks[..k], met);
      forall i | 0 <= i < k ensures l[i].n2 != null && l[i].n2 in met {
        assert sinks[i] in sinks[..k];
      }
      assert SinksMet(l[..k], met);
    }
  }

  lemma NextListed(nodes: set<Node>, adj: map<Node, seq<Node>>, searched: seq<Node>, met: seq<Node>, x: Node)
    requires Agrees(nodes, adj) && Inside(searched, nodes) && Next(adj, searched, met, x)
    ensures NextSink(nodes, searched, met, x)
  {
    var j :| NextAt(adj, searched, met, x, j);
    forall m | j <= m < |searched|
      ensures m == j ==> FirstSink(searched[m].outgoingEdges, met, x)
      ensures m > j ==> SinksMet(searched[m].outgoingEdges, met)
    {
      SinksListed(searched[m].outgoingEdges, adj[searched[m]], met);
    }
    assert NextSinkAt(nodes, searched, met, x, j);
  }

  lemma DeepListed(nodes: set<Node>, adj: map<Node, seq<Node>>, n: Node, chain: seq<Node>, r: seq<Node>)
    requires Agrees(nodes, adj) && n in nodes && Inside(r, nodes) && Deep(adj, [n], chain, r)
    ensures FollowsLists(nodes, n, chain, r)
  {
    forall i | |chain| <= i < |r| ensures NextSink(nodes, [n] + r[|chain|..i], r[..i], r[i]) {
      NextListed(nodes, adj, [n] + r[|chain|..i], r[..i], r[i]);
    }
  }

  lemma SearchListed(nodes: set<Node>, adj: map<Node, seq<Node>>, n: Node, chain: seq<Node>)
    requires Agrees(nodes, adj) && SearchFrom(nodes, adj, n, chain)
    ensures FollowsLists(nodes, n, chain, Dfs<Node>(nodes, adj, adj[n], chain))
  {
    DfsIsDeep<Node>(nodes, adj, n, chain);
    DeepListed(nodes, adj, n, chain, Dfs<Node>(nodes, adj, adj[n], chain));
  }

  lemma OrderListed(nodes: set<Node>, adj: map<Node, seq<Node>>, root: Node, order: seq<Node>)
    requires Agrees(nodes, adj) && root in nodes && Inside(order, nodes) && Distinct(order) && [root] <= order
    requires Deep(adj, [root], [root], order) && Explored(adj, order, [])
    ensures DepthFirstOrder(nodes, root, order)
  {
    DeepListed(nodes, adj, root, [root], order);
    forall i | 0 < i < |order| ensures NextSink(nodes, order[..i], order[..i], order[i]) {
      assert order[..i] == [root] + order[1..i];
    }
    forall i | 0 <= i < |order| ensures SinksMet(order[i].outgoingEdges, order) {
      SinksListed(order[i].outgoingEdges, adj[order[i]], order);
    }
  }

  /** The links run along the chain, whose last node has none or, in a repeated search, one to itself. */
  ghost predicate Threaded(nodes: set<Node>, chain: seq<Node>, again: bool)
    reads nodes`dfsSucc
  {
    && |chain| > 0 && Inside(chain, nodes)
    && (forall i | 0 <= i < |chain| - 1 :: chain[i].dfsSucc == chain[i + 1])
    && chain[|chain| - 1].dfsSucc == (if again then chain[|chain| - 1] else null)
    && forall n | n in nodes && n !in chain :: n.dfsSucc == null
  }

  lemma NullIsLast(nodes: set<Node>, chain: seq<Node>, again: bool, m: Node)
    requires Threaded(nodes, chain, again) && m.dfsSucc == null
    ensures m in chain ==> m == chain[|chain| - 1] && !again
  {
    forall i | 0 <= i < |chain| - 1 ensures chain[i].dfsSucc != null {
      assert chain[i].dfsSucc == chain[i + 1];
    }
  }

  /** Each edge is once in the list of its source and once in that of its sink, both of them among the nodes. */
  ghost predicate EndsListed(nodes: set<Node>, edges: set<Edge>)
    reads nodes`incomingEdges, nodes`outgoingEdges
  {
    forall e | e in edges ::
      && e.n1 != null && e.n1 in nodes && multiset(e.n1.outgoingEdges)[e] == 1
      && e.n2 != null && e.n2 in nodes && multiset(e.n2.incomingEdges)[e] == 1
  }

  /** The lists hold nothing else. */
  ghost predicate OnlyListed(nodes: set<Node>, edges: set<Edge>)
    reads nodes`incomingEdges, nodes`outgoingEdges
  {
    && (forall n, e | n in nodes && e in n.outgoingEdges :: e in edges && e.n1 == n)
    && (forall n, e | n in nodes && e in n.incomingEdges :: e in edges && e.n2 == n)
  }

  ghost function Taken(l: seq<Edge>, k: nat): set<Edge>
    requires k <= |l|
  {
    set e | e in l[..k]
  }

  lemma TakenMore(l: seq<Edge>, k: nat)
    requires k < |l| && forall i, j | 0 <= i < j < |l| :: l[i] != l[j]
    ensures l[k] in l && l[k] !in l[..k] && Taken(l, k + 1) == Taken(l, k) + {l[k]}
  {
    assert l[..k + 1] == l[..k] + [l[k]];
  }

  /** Takes an edge off the list of its sink, where alone it can be. */
  method UnlistAtSink(e: Edge, ghost nodes: set<Node>)
    requires e.n2 != null && e.n2 in nodes
    requires forall m, x | m in nodes && x in m.incomingEdges :: x.n2 == m
    modifies e.n2`incomingEdges
    ensures forall m | m in nodes :: m.incomingEdges == Minus(old(m.incomingEdges), {e})
  {
    forall m | m in nodes && m != e.n2 ensures Minus(m.incomingEdges, {e}) == m.incomingEdges {
      MinusNothing(m.incomingEdges, {e});
    }
    e.n2.incomingEdges := Minus(e.n2.incomingEdges, {e});
  }

  /** The same at its source. */
  method UnlistAtSource(e: Edge, ghost nodes: set<Node>)
    requires e.n1 != null && e.n1 in nodes
    requires forall m, x | m in nodes && x in m.outgoingEdges :: x.n1 == m
    modifies e.n1`outgoingEdges
    ensures forall m | m in nodes :: m.outgoingEdges == Minus(old(m.outgoingEdges), {e})
  {
    forall m | m in nodes && m != e.n1 ensures Minus(m.outgoingEdges, {e}) == m.outgoingEdges {
      MinusNothing(m.outgoingEdges, {e});
    }
    e.n1.outgoingEdges := Minus(e.n1.outgoingEdges, {e});
  }

  class DGraph {
    var nodeSet: set<Node>
    var edgeSet: set<Edge>
    var rootNode: Node?
    var dfsNeeded: bool

    /** Lists and sets agree: an edge of the graph is once in the list of its source and once in that of its sink,
        both nodes of the graph, and the lists hold nothing else. */
    ghost predicate Linked()
      reads this`nodeSet, this`edgeSet, this`rootNode
      reads nodeSet`inUse, nodeSet`incomingEdges, nodeSet`outgoingEdges, edgeSet`inUse
    {
      && Rooted()
      && (forall n | n in nodeSet :: n.inUse)
      && (forall e | e in edgeSet :: e.inUse)
      && EndsLinked() && ListsLinked()
    }

    ghost predicate Rooted()
      reads this`nodeSet, this`rootNode
    {
      (rootNode == null <==> nodeSet == {}) && (rootNode != null ==> rootNode in nodeSet)
    }

    ghost predicate EndsLinked()
      reads this`nodeSet, this`edgeSet, nodeSet`incomingEdges, nodeSet`outgoingEdges
    {
      EndsListed(nodeSet, edgeSet)
    }

    ghost predicate ListsLinked()
      reads this`nodeSet, this`edgeSet, nodeSet`incomingEdges, nodeSet`outgoingEdges
    {
      OnlyListed(nodeSet, edgeSet)
    }

    /** A graph without nodes; nothing sets the flag before the first node is added. */
    constructor (unset: bool)
      ensures Valid() && nodeSet == {} && edgeSet == {} && rootNode == null
    {
      nodeSet := {};
      edgeSet := {};
      rootNode := null;
      dfsNeeded := unset;
    }

    /** Adds a node. The graph stays linked exactly when an added node brings no edges along. */
    method AddNode(n: Node?) returns (status: Status)
      modifies this`nodeSet, this`rootNode, this`dfsNeeded, n
      ensures status == old(AddingNode(n))
      ensures status == Done ==> nodeSet == old(nodeSet) + {n} && edgeSet == old(edgeSet) && dfsNeeded
      ensures status == Done ==> rootNode == if old(rootNode) == null then n else old(rootNode)
      ensures status == Done ==> unchanged(n`dfsSucc, n`incomingEdges, n`outgoingEdges) && n.inUse
      ensures status == Done && old(Linked()) ==> (Linked() <==> Blank(n)) && (Valid() <==> Blank(n))
      ensures status != Done ==> unchanged(this) && (n != null ==> unchanged(n)) && Valid() == old(Valid())
    {
      if n == null {
        return EmptyNode;
      }
      if n in nodeSet {
        return DuplicateNode;
      }
      if n.inUse {
        return NodeInUse;
      }
      if rootNode == null {
        rootNode := n;
      }
      n.inUse := true;
      nodeSet := nodeSet + {n};
      dfsNeeded := true;
      status := Done;
      ListedIsIncident(n);
    }

    /** Only a node with an edge of the graph can have something on its lists. */
    lemma ListedIsIncident(n: Node)
      ensures Linked() && n in nodeSet && !Blank(n) ==> exists e | e in edgeSet :: e.n1 == n || e.n2 == n
    {
      if Linked() && n in nodeSet && !Blank(n) {
        var e := if n.incomingEdges != [] then n.incomingEdges[0] else n.outgoingEdges[0];
        assert e in n.incomingEdges || e in n.outgoingEdges;
        assert e in edgeSet && (e.n1 == n || e.n2 == n);
      }
    }

    /** A node that came with edges on its lists stays out of step with the sets when e is listed too. */
    lemma StaleBreaks(n: Node, e: Edge, was: set<Edge>, oldIn: seq<Edge>, oldOut: seq<Edge>)
      requires edgeSet == was + {e} && n in nodeSet && forall x | x in was :: x.n1 != n && x.n2 != n
      requires n.incomingEdges == oldIn + if e.n2 == n then [e] else []
      requires n.outgoingEdges == oldOut + if e.n1 == n then [e] else []
      ensures oldIn != [] || oldOut != [] ==> !Linked()
    {
      if oldIn != [] {
        var x := oldIn[0];
        assert x in n.incomingEdges;
        if x == e && e.n2 == n {
          assert multiset(n.incomingEdges)[e] >= 2;
          assert !EndsLinked();
        } else {
          assert !(x in edgeSet && x.n2 == n);
          assert !ListsLinked();
        }
      }
      if oldOut != [] {
        var x := oldOut[0];
        assert x in n.outgoingEdges;
        if x == e && e.n1 == n {
          assert multiset(n.outgoingEdges)[e] >= 2;
          assert !EndsLinked();
        } else {
          assert !(x in edgeSet && x.n1 == n);
          assert !ListsLinked();
        }
      }
    }

    function AddingNode(n: Node?): Status
      reads this, n
    {
      if n == null then EmptyNode else if n in nodeSet then DuplicateNode else if n.inUse then NodeInUse else Done
    }

    /** How adding an edge will end: the nodes it lacks are added first, one after the other. */
    function AddingEdge(e: Edge?): Status
      reads this, e, if e == null then {} else {e.n1, e.n2}
    {
      if e == null then EmptyEdge else if e in edgeSet then DuplicateEdge else if e.inUse then EdgeInUse
      else AddingEnds(e.n1, e.n2)
    }

    function AddingEnds(n1: Node?, n2: Node?): Status
      reads this, n1, n2
    {
      if n1 !in nodeSet && AddingNode(n1) != Done then AddingNode(n1)
      else if n2 !in nodeSet && n2 != n1 then AddingNode(n2)
      else Done
    }

    /** The first of two nodes that was not in the graph, if the graph had no root. */
    function RootAfter(root: Node?, was: set<Node>, n1: Node?, n2: Node?): Node?
      reads this
    {
      if root != null || nodeSet == was then root else if n1 in nodeSet - was then n1 else n2
    }

    /** Adds the ends of an edge that are not in the graph. The first may stay when the second is refused. */
    method AddEnds(n1: Node?, n2: Node?) returns (status: Status)
      modifies this`nodeSet, this`rootNode, this`dfsNeeded, n1, n2
      ensures status == old(AddingEnds(n1, n2))
      ensures status == Done ==> n1 != null && n2 != null && nodeSet == old(nodeSet) + {n1, n2}
      ensures n1 != null ==> unchanged(n1`incomingEdges, n1`outgoingEdges)
      ensures n2 != null ==> unchanged(n2`incomingEdges, n2`outgoingEdges)
      ensures forall n | n in nodeSet && n !in old(nodeSet) :: n.inUse
      ensures forall n | n in old(nodeSet) :: n.inUse == old(n.inUse)
      ensures rootNode == RootAfter(old(rootNode), old(nodeSet), n1, n2)
      ensures nodeSet != old(nodeSet) ==>
                dfsNeeded && rootNode != null && (rootNode == old(rootNode) || rootNode in nodeSet)
      ensures status != Done && nodeSet != old(nodeSet) ==>
        n1 != null && n1 !in old(nodeSet) && nodeSet == old(nodeSet) + {n1} && n2 !in nodeSet
      ensures status != Done && nodeSet == old(nodeSet) ==> Linked() == old(Linked()) && Valid() == old(Valid())
      ensures status != Done && nodeSet != old(nodeSet) && old(Linked()) ==>
        Linked() == old(Blank(n1)) && Valid() == old(Blank(n1))
    {
      status := EnsureNode(n1);
      if status == Done {
        status := EnsureNode(n2);
      }
    }

    /** Adds a node unless it is in the graph. */
    method EnsureNode(n: Node?) returns (status: Status)
      modifies this`nodeSet, this`rootNode, this`dfsNeeded, n
      ensures status == if n in old(nodeSet) then Done else old(AddingNode(n))
      ensures status == Done ==> n != null && nodeSet == old(nodeSet) + {n}
      ensures n != null ==> unchanged(n`incomingEdges, n`outgoingEdges, n`dfsSucc)
      ensures status == Done && n !in old(nodeSet) ==> n.inUse && dfsNeeded
      ensures status == Done && n !in old(nodeSet) ==> rootNode == if old(rootNode) == null then n else old(rootNode)
      ensures status == Done && n !in old(nodeSet) && old(Linked()) ==> Linked() == Blank(n)
      ensures status != Done || n in old(nodeSet) ==> unchanged(this) && (n != null ==> unchanged(n))
      ensures status != Done || n in old(nodeSet) ==> Linked() == old(Linked()) && Valid() == old(Valid())
    {
      status := Done;
      if n !in nodeSet {
        status := AddNode(n);
      }
    }

    /** The part of adding an edge that leaves the lists alone. */
    method BaseAddEdge(e: Edge?) returns (status: Status)
      modifies this, e, if e == null then {} else {e.n1, e.n2}
      ensures status == old(AddingEdge(e))
      ensures status == Done ==> e != null && e.n1 != null && e.n2 != null
      ensures status == Done ==> nodeSet == old(nodeSet) + {e.n1, e.n2} && edgeSet == old(edgeSet) + {e} && e.inUse
      ensures e != null && e.n1 != null ==> unchanged(e.n1`incomingEdges, e.n1`outgoingEdges)
      ensures e != null && e.n2 != null ==> unchanged(e.n2`incomingEdges, e.n2`outgoingEdges)
      ensures status == Done ==> dfsNeeded && e !in old(edgeSet)
      ensures forall n | n in nodeSet && n !in old(nodeSet) :: n.inUse
      ensures forall n | n in old(nodeSet) :: n.inUse == old(n.inUse)
      ensures if e == null then rootNode == old(rootNode)
              else rootNode == RootAfter(old(rootNode), old(nodeSet), e.n1, e.n2)
      ensures nodeSet != old(nodeSet) ==>
                dfsNeeded && rootNode != null && (rootNode == old(rootNode) || rootNode in nodeSet)
      ensures status != Done ==> edgeSet == old(edgeSet) && (e != null ==> unchanged(e))
      ensures status != Done && nodeSet != old(nodeSet) ==>
        e != null && e.n1 != null && e.n1 !in old(nodeSet) && nodeSet == old(nodeSet) + {e.n1} && e.n2 !in nodeSet
      ensures status != Done && nodeSet == old(nodeSet) ==> Linked() == old(Linked()) && Valid() == old(Valid())
      ensures status != Done && nodeSet != old(nodeSet) && old(Linked()) ==>
        Linked() == old(Blank(e.n1)) && Valid() == old(Blank(e.n1))
    {
      if e == null {
        return EmptyEdge;
      }
      if e in edgeSet {
        return DuplicateEdge;
      }
      if e.inUse {
        return EdgeInUse;
      }
      status := AddEnds(e.n1, e.n2);
      if status != Done {
        return;
      }
      e.inUse := true;
      edgeSet := edgeSet + {e};
      dfsNeeded := true;
    }

    /** Listing a new edge at blank or linked nodes keeps the graph linked. */
    twostate lemma EdgeListed(e: Edge)
      requires old(Linked()) && e.n1 != null && e.n2 != null && e !in old(edgeSet)
      requires nodeSet == old(nodeSet) + {e.n1, e.n2} && edgeSet == old(edgeSet) + {e} && e.inUse
      requires e.n1.outgoingEdges == old(e.n1.outgoingEdges) + [e]
      requires e.n2.incomingEdges == old(e.n2.incomingEdges) + [e]
      requires forall n | n in nodeSet :: n != e.n1 ==> n.outgoingEdges == old(n.outgoingEdges)
      requires forall n | n in nodeSet :: n != e.n2 ==> n.incomingEdges == old(n.incomingEdges)
      requires forall n | n in nodeSet && n !in old(nodeSet) :: old(Blank(n))
      ensures EndsLinked() && ListsLinked()
    {
      forall n, x | n in nodeSet && x in n.outgoingEdges ensures x in edgeSet && x.n1 == n {
        assert (x == e && e.n1 == n) || x in old(n.outgoingEdges);
        assert x in old(n.outgoingEdges) ==> n in old(nodeSet) && x in old(edgeSet);
      }
    }

    twostate lemma Added(e: Edge)
      requires old(Linked()) && e.n1 != null && e.n2 != null && e !in old(edgeSet)
      requires nodeSet == old(nodeSet) + {e.n1, e.n2} && edgeSet == old(edgeSet) + {e}
      requires forall n | n in nodeSet :: n.inUse
      requires forall x | x in edgeSet :: x.inUse
      requires rootNode in nodeSet
      requires e.n1.outgoingEdges == old(e.n1.outgoingEdges) + [e]
      requires e.n2.incomingEdges == old(e.n2.incomingEdges) + [e]
      requires forall n | n in nodeSet :: n != e.n1 ==> n.outgoingEdges == old(n.outgoingEdges)
      requires forall n | n in nodeSet :: n != e.n2 ==> n.incomingEdges == old(n.incomingEdges)
      ensures Linked() <==> forall n | n in nodeSet - old(nodeSet) :: old(Blank(n))
    {
      if n :| n in nodeSet - old(nodeSet) && !old(Blank(n)) {
        StaleBreaks(n, e, old(edgeSet), old(n.incomingEdges), old(n.outgoingEdges));
      } else {
        EdgeListed(e);
      }
    }

    /** Adds an edge, and those of its nodes that are not in the graph. The graph stays linked exactly when the added
        nodes bring no edges along. */
    method AddEdge(e: Edge?) returns (status: Status)
      requires Linked()
      modifies this, e, if e == null then {} else {e.n1, e.n2}
      ensures status == old(AddingEdge(e))
      ensures status == Done ==> e != null && e.n1 != null && e.n2 != null
      ensures status == Done ==> nodeSet == old(nodeSet) + {e.n1, e.n2} && edgeSet == old(edgeSet) + {e} && e.inUse
      ensures status == Done || nodeSet != old(nodeSet) ==> dfsNeeded
      ensures status == Done ==> e.n1.outgoingEdges == old(e.n1.outgoingEdges) + [e]
      ensures status == Done ==> e.n2.incomingEdges == old(e.n2.incomingEdges) + [e]
      ensures status == Done && e.n1 != e.n2 ==> unchanged(e.n1`incomingEdges) && unchanged(e.n2`outgoingEdges)
      ensures status != Done ==> edgeSet == old(edgeSet) && (e != null ==> unchanged(e))
      ensures status != Done && nodeSet != old(nodeSet) ==>
        e != null && e.n1 != null && e.n1 !in old(nodeSet) && nodeSet == old(nodeSet) + {e.n1} && e.n2 !in nodeSet
      ensures status != Done && e != null && e.n1 != null ==> unchanged(e.n1`incomingEdges, e.n1`outgoingEdges)
      ensures status != Done && e != null && e.n2 != null ==> unchanged(e.n2`incomingEdges, e.n2`outgoingEdges)
      ensures if e == null then rootNode == old(rootNode)
              else rootNode == RootAfter(old(rootNode), old(nodeSet), e.n1, e.n2)
      ensures Linked() <==> forall n | n in nodeSet - old(nodeSet) :: old(Blank(n))
      ensures old(Valid()) ==> (Valid() <==> forall n | n in nodeSet - old(nodeSet) :: old(Blank(n)))
    {
      status := BaseAddEdge(e);
      if status != Done {
        return;
      }
      assert forall x | x in old(edgeSet) :: x != e;
      e.n1.outgoingEdges := e.n1.outgoingEdges + [e];
      e.n2.incomingEdges := e.n2.incomingEdges + [e];
      Added(e);
    }

    /** The part of removing an edge that leaves the lists alone. */
    method BaseRemoveEdge(e: Edge?) returns (status: Status)
      modifies this`edgeSet, this`dfsNeeded, e
      ensures status == if e == null then EmptyEdge else if e !in old(edgeSet) then NonexistentEdge else Done
      ensures status == Done ==> edgeSet == old(edgeSet) - {e} && !e.inUse && dfsNeeded
      ensures status != Done ==> unchanged(this) && (e != null ==> unchanged(e)) && Valid() == old(Valid())
    {
      if e == null {
        return EmptyEdge;
      }
      if e !in edgeSet {
        return NonexistentEdge;
      }
      edgeSet := edgeSet - {e};
      e.inUse := false;
      dfsNeeded := true;
      status := Done;
    }

    /** Taking some edges off all lists, when their nodes have gone from the graph, leaves the rest linked. */
    twostate lemma Pruned(was: (set<Node>, set<Edge>, set<Edge>))
      requires old(EndsListed(was.0, was.1) && OnlyListed(was.0, was.1))
      requires nodeSet <= was.0 && edgeSet == was.1 - was.2
      requires Rooted()
      requires forall m | m in nodeSet :: m.inUse
      requires forall x | x in edgeSet :: x.inUse && x.n1 in nodeSet && x.n2 in nodeSet
      requires forall m | m in nodeSet :: m.outgoingEdges == Minus(old(m.outgoingEdges), was.2)
      requires forall m | m in nodeSet :: m.incomingEdges == Minus(old(m.incomingEdges), was.2)
      ensures Linked()
    {
      forall x | x in edgeSet ensures x.n1 != null && x.n2 != null
        && multiset(x.n1.outgoingEdges)[x] == 1 && multiset(x.n2.incomingEdges)[x] == 1
      {
        MinusCount(old(x.n1.outgoingEdges), was.2, x);
        MinusCount(old(x.n2.incomingEdges), was.2, x);
      }
    }

    /** Removing an edge takes it out of the graph and off the lists of its nodes. */
    method RemoveEdge(e: Edge?) returns (status: Status)
      requires Linked()
      modifies this`edgeSet, this`dfsNeeded, e, if e == null then {} else {e.n1, e.n2}
      ensures Linked() == old(Linked())
      ensures status == if e == null then EmptyEdge else if e !in old(edgeSet) then NonexistentEdge else Done
      ensures status == Done ==> edgeSet == old(edgeSet) - {e} && !e.inUse && dfsNeeded
      ensures status == Done ==> forall m | m in old(nodeSet) :: m.outgoingEdges == Minus(old(m.outgoingEdges), {e})
      ensures status == Done ==> forall m | m in old(nodeSet) :: m.incomingEdges == Minus(old(m.incomingEdges), {e})
      ensures status != Done ==> unchanged(this) && (e != null ==> unchanged(e))
      ensures status != Done && e != null ==> (e.n1 != null ==> unchanged(e.n1)) && (e.n2 != null ==> unchanged(e.n2))
      ensures Valid() == (old(Valid()) || status == Done)
    {
      status := BaseRemoveEdge(e);
      if status == Done {
        UnlistEdge(e, old(edgeSet));
      }
    }

    /** Takes an edge that has left the graph off the lists of its ends. */
    method UnlistEdge(e: Edge, ghost edges: set<Edge>)
      requires e in edges && edgeSet == edges - {e} && Rooted()
      requires EndsListed(nodeSet, edges) && OnlyListed(nodeSet, edges)
      requires forall m | m in nodeSet :: m.inUse
      requires forall x | x in edgeSet :: x.inUse
      modifies e.n1`outgoingEdges, e.n2`incomingEdges
      ensures Linked()
      ensures forall m | m in nodeSet :: m.outgoingEdges == Minus(old(m.outgoingEdges), {e})
      ensures forall m | m in nodeSet :: m.incomingEdges == Minus(old(m.incomingEdges), {e})
    {
      UnlistAtSink(e, nodeSet);
      UnlistAtSource(e, nodeSet);
      Pruned((nodeSet, edges, {e}));
    }

    /** The part of removing a node that leaves the edges alone. */
    method BaseRemoveNode(n: Node?) returns (status: Status)
      modifies this`nodeSet, this`rootNode, this`dfsNeeded, n
      ensures status == old(RemovingNode(n))
      ensures status == Done ==> nodeSet == old(nodeSet) - {n} && !n.inUse && dfsNeeded
      ensures status == Done ==> rootNode == if n == old(rootNode) then null else old(rootNode)
      ensures n != null ==> unchanged(n`incomingEdges, n`outgoingEdges)
      ensures old(Rooted()) ==> Rooted()
      ensures status != Done ==> unchanged(this) && (n != null ==> unchanged(n)) && Valid() == old(Valid())
    {
      if n == null {
        return EmptyNode;
      }
      if n == rootNode && (edgeSet != {} || |nodeSet| > 1) {
        return DeletingRootOfNonSingletonGraph;
      }
      if n !in nodeSet {
        return NonexistentNode;
      }
      assert n == rootNode ==> |nodeSet - {n}| == 0;
      nodeSet := nodeSet - {n};
      n.inUse := false;
      dfsNeeded := true;
      if n == rootNode {
        rootNode := null;
      }
      status := Done;
    }

    function RemovingNode(n: Node?): Status
      reads this
    {
      if n == null then EmptyNode
      else if n == rootNode && (edgeSet != {} || |nodeSet| > 1) then DeletingRootOfNonSingletonGraph
      else if n !in nodeSet then NonexistentNode else Done
    }

    ghost function Incident(n: Node): set<Edge>
      reads this`edgeSet
    {
      set e | e in edgeSet && (e.n1 == n || e.n2 == n)
    }

    method DropAtSource(e: Edge, ghost nodes: set<Node>)
      requires e in edgeSet && e.n1 != null && e.n1 in nodes
      requires forall m, x | m in nodes && x in m.outgoingEdges :: x.n1 == m
      modifies this`edgeSet, this`dfsNeeded, e, e.n1`outgoingEdges
      ensures edgeSet == old(edgeSet) - {e} && !e.inUse && dfsNeeded
      ensures forall m | m in nodes :: m.outgoingEdges == Minus(old(m.outgoingEdges), {e})
    {
      UnlistAtSource(e, nodes);
      var removed := BaseRemoveEdge(e);
    }

    method DropAtSink(e: Edge, ghost nodes: set<Node>)
      requires e in edgeSet && e.n2 != null && e.n2 in nodes
      requires forall m, x | m in nodes && x in m.incomingEdges :: x.n2 == m
      modifies this`edgeSet, this`dfsNeeded, e, e.n2`incomingEdges
      ensures edgeSet == old(edgeSet) - {e} && !e.inUse && dfsNeeded
      ensures forall m | m in nodes :: m.incomingEdges == Minus(old(m.incomingEdges), {e})
    {
      UnlistAtSink(e, nodes);
      var removed := BaseRemoveEdge(e);
    }

    /** Takes the edges that enter a node out of the graph and off the lists of their sources. */
    method DropIncoming(n: Node, ghost nodes: set<Node>) returns (ghost gone: set<Edge>)
      requires n in nodes
      requires forall i, j | 0 <= i < j < |n.incomingEdges| :: n.incomingEdges[i] != n.incomingEdges[j]
      requires forall e | e in n.incomingEdges :: e in edgeSet && e.n1 in nodes
      requires forall m, e | m in nodes && e in m.outgoingEdges :: e.n1 == m
      modifies this`edgeSet, this`dfsNeeded, edgeSet, nodes`outgoingEdges
      ensures gone == set e | e in old(n.incomingEdges)
      ensures edgeSet == old(edgeSet) - gone
      ensures forall e | e in old(edgeSet) :: e.inUse == (old(e.inUse) && e !in gone)
      ensures forall m | m in nodes :: m.outgoingEdges == Minus(old(m.outgoingEdges), gone)
      ensures old(dfsNeeded) ==> dfsNeeded
    {
      var l := n.incomingEdges;
      gone := {};
      forall m | m in nodes ensures Minus(m.outgoingEdges, {}) == m.outgoingEdges {
        MinusNothing(m.outgoingEdges, {});
      }
      for k := 0 to |l|
        invariant gone == Taken(l, k)
        invariant edgeSet == old(edgeSet) - gone
        invariant forall e | e in old(edgeSet) :: e.inUse == (old(e.inUse) && e !in gone)
        invariant forall m | m in nodes :: m.outgoingEdges == Minus(old(m.outgoingEdges), gone)
        invariant old(dfsNeeded) ==> dfsNeeded
      {
        var e := l[k];
        TakenMore(l, k);
        forall m | m in nodes ensures Minus(old(m.outgoingEdges), gone + {e}) == Minus(m.outgoingEdges, {e}) {
          MinusTwice(old(m.outgoingEdges), gone, {e});
        }
        DropAtSource(e, nodes);
        gone := gone + {e};
      }
      assert l[..|l|] == l;
    }

    /** Takes the edges that leave a node out of the graph and off the lists of their sinks. */
    method DropOutgoing(n: Node, ghost nodes: set<Node>) returns (ghost gone: set<Edge>)
      requires n in nodes
      requires forall i, j | 0 <= i < j < |n.outgoingEdges| :: n.outgoingEdges[i] != n.outgoingEdges[j]
      requires forall e | e in n.outgoingEdges :: e in edgeSet && e.n2 in nodes && e.n2 != n
      requires forall m, e | m in nodes && m != n && e in m.incomingEdges :: e.n2 == m
      modifies this`edgeSet, this`dfsNeeded, edgeSet, nodes`incomingEdges
      ensures gone == set e | e in old(n.outgoingEdges)
      ensures edgeSet == old(edgeSet) - gone
      ensures forall e | e in old(edgeSet) :: e.inUse == (old(e.inUse) && e !in gone)
      ensures forall m | m in nodes && m != n :: m.incomingEdges == Minus(old(m.incomingEdges), gone)
      ensures n.incomingEdges == old(n.incomingEdges) && (old(dfsNeeded) ==> dfsNeeded)
    {
      var l := n.outgoingEdges;
      gone := {};
      forall m | m in nodes ensures Minus(m.incomingEdges, {}) == m.incomingEdges {
        MinusNothing(m.incomingEdges, {});
      }
      for k := 0 to |l|
        invariant gone == Taken(l, k)
        invariant edgeSet == old(edgeSet) - gone
        invariant forall e | e in old(edgeSet) :: e.inUse == (old(e.inUse) && e !in gone)
        invariant forall m | m in nodes && m != n :: m.incomingEdges == Minus(old(m.incomingEdges), gone)
        invariant n.incomingEdges == old(n.incomingEdges) && (old(dfsNeeded) ==> dfsNeeded)
      {
        var e := l[k];
        TakenMore(l, k);
        forall m | m in nodes && m != n
          ensures Minus(old(m.incomingEdges), gone + {e}) == Minus(m.incomingEdges, {e})
        {
          MinusTwice(old(m.incomingEdges), gone, {e});
        }
        DropAtSink(e, nodes - {n});
        gone := gone + {e};
      }
      assert l[..|l|] == l;
    }

    lemma ListsDistinct(n: Node, nodes: set<Node>, edges: set<Edge>)
      requires EndsListed(nodes, edges) && OnlyListed(nodes, edges) && n in nodes
      ensures forall i, j | 0 <= i < j < |n.incomingEdges| :: n.incomingEdges[i] != n.incomingEdges[j]
      ensures forall i, j | 0 <= i < j < |n.outgoingEdges| :: n.outgoingEdges[i] != n.outgoingEdges[j]
    {
      forall i, j | 0 <= i < j < |n.incomingEdges| ensures n.incomingEdges[i] != n.incomingEdges[j] {
        var e := n.incomingEdges[i];
        assert e in edges && e.n2 == n && multiset(e.n2.incomingEdges)[e] == 1;
        CountIsIndex(n.incomingEdges, i, j);
      }
      forall i, j | 0 <= i < j < |n.outgoingEdges| ensures n.outgoingEdges[i] != n.outgoingEdges[j] {
        var e := n.outgoingEdges[i];
        assert e in edges && e.n1 == n && multiset(e.n1.outgoingEdges)[e] == 1;
        CountIsIndex(n.outgoingEdges, i, j);
      }
    }

    /** The lists of the nodes hold each edge once and only at its own ends, among these nodes. */
    ghost predicate Listed(nodes: set<Node>, edges: set<Edge>)
      reads nodes
    {
      forall n | n in nodes ::
        && (forall i, j | 0 <= i < j < |n.incomingEdges| :: n.incomingEdges[i] != n.incomingEdges[j])
        && (forall i, j | 0 <= i < j < |n.outgoingEdges| :: n.outgoingEdges[i] != n.outgoingEdges[j])
        && (forall e | e in n.incomingEdges :: e in edges && e.n2 == n && e.n1 in nodes)
        && (forall e | e in n.outgoingEdges :: e in edges && e.n1 == n && e.n2 in nodes)
        && (forall e | e in n.outgoingEdges && e.n2 == n :: e in n.incomingEdges)
    }

    lemma OnlyListedOnce(nodes: set<Node>, edges: set<Edge>)
      requires EndsListed(nodes, edges) && OnlyListed(nodes, edges)
      ensures Listed(nodes, edges)
    {
      forall n | n in nodes
        ensures forall i, j | 0 <= i < j < |n.incomingEdges| :: n.incomingEdges[i] != n.incomingEdges[j]
        ensures forall i, j | 0 <= i < j < |n.outgoingEdges| :: n.outgoingEdges[i] != n.outgoingEdges[j]
      {
        ListsDistinct(n, nodes, edges);
      }
      forall n, e | n in nodes && e in n.outgoingEdges && e.n2 == n ensures e in n.incomingEdges {
        assert e in edges && multiset(e.n2.incomingEdges)[e] == 1;
      }
    }

    /** Takes all edges of a node out of the graph and off the lists of the other nodes. */
    method DropEdges(n: Node, ghost nodes: set<Node>) returns (ghost gone: set<Edge>)
      requires n in nodes && Listed(nodes, edgeSet)
      modifies this`edgeSet, this`dfsNeeded, edgeSet, nodes`incomingEdges, nodes`outgoingEdges
      ensures gone == (set e | e in old(n.incomingEdges)) + (set e | e in old(n.outgoingEdges))
      ensures edgeSet == old(edgeSet) - gone
      ensures forall e | e in old(edgeSet) :: e.inUse == (old(e.inUse) && e !in gone)
      ensures forall m | m in nodes && m != n :: m.outgoingEdges == Minus(old(m.outgoingEdges), gone)
      ensures forall m | m in nodes && m != n :: m.incomingEdges == Minus(old(m.incomingEdges), gone)
      ensures n.incomingEdges == old(n.incomingEdges)
      ensures n.outgoingEdges == Minus(old(n.outgoingEdges), set e | e in old(n.incomingEdges))
      ensures old(dfsNeeded) ==> dfsNeeded
    {
      ghost var into := DropIncoming(n, nodes);
      MinusDistinct(old(n.outgoingEdges), into);
      ghost var out := DropOutgoing(n, nodes);
      gone := into + out;
      forall m | m in nodes && m != n
        ensures m.outgoingEdges == Minus(old(m.outgoingEdges), gone)
        ensures m.incomingEdges == Minus(old(m.incomingEdges), gone)
      {
        MinusTwice(old(m.outgoingEdges), into, out);
        MinusNothing(m.outgoingEdges, out);
        MinusTwice(old(m.incomingEdges), into, out);
        MinusNothing(old(m.incomingEdges), into);
      }
    }

    /** Removing a node takes all its edges along, loops included, and nothing else. */
    method RemoveNode(n: Node?) returns (status: Status)
      requires Linked()
      modifies this, n, nodeSet, edgeSet
      ensures Linked() == old(Linked())
      ensures status == old(RemovingNode(n))
      ensures status == Done ==>
                nodeSet == old(nodeSet) - {n} && edgeSet == old(edgeSet) - old(Incident(n)) && dfsNeeded
      ensures status == Done ==> rootNode == if n == old(rootNode) then null else old(rootNode)
      ensures status == Done ==> !n.inUse
      ensures status == Done ==> forall e | e in old(Incident(n)) :: !e.inUse
      ensures status == Done ==>
                forall m | m in nodeSet :: m.outgoingEdges == Minus(old(m.outgoingEdges), old(Incident(n)))
      ensures status == Done ==>
                forall m | m in nodeSet :: m.incomingEdges == Minus(old(m.incomingEdges), old(Incident(n)))
      ensures status == Done ==> n.incomingEdges == old(n.incomingEdges)
      ensures status == Done ==> n.outgoingEdges == Minus(old(n.outgoingEdges), set e | e in old(n.incomingEdges))
      ensures Valid() == (old(Valid()) || status == Done)
      ensures status != Done ==> unchanged(this) && (n != null ==> unchanged(n))
      ensures status != Done ==> forall m | m in old(nodeSet) :: unchanged(m)
      ensures status != Done ==> forall e | e in old(edgeSet) :: unchanged(e)
    {
      status := BaseRemoveNode(n);
      if status == Done {
        UnlinkNode(n, old(nodeSet));
      }
    }

    /** What is left of removing a node that is no longer in the graph: its edges. */
    method UnlinkNode(n: Node, ghost nodes: set<Node>)
      requires n in nodes && nodeSet == nodes - {n} && Rooted()
      requires EndsListed(nodes, edgeSet) && OnlyListed(nodes, edgeSet)
      requires forall m | m in nodeSet :: m.inUse
      requires forall e | e in edgeSet :: e.inUse
      modifies this`edgeSet, this`dfsNeeded, edgeSet, nodes`incomingEdges, nodes`outgoingEdges
      ensures Linked() && edgeSet == old(edgeSet) - old(Incident(n))
      ensures forall e | e in old(edgeSet) :: e.inUse == (e !in old(Incident(n)))
      ensures forall m | m in nodeSet :: m.outgoingEdges == Minus(old(m.outgoingEdges), old(Incident(n)))
      ensures forall m | m in nodeSet :: m.incomingEdges == Minus(old(m.incomingEdges), old(Incident(n)))
      ensures n.incomingEdges == old(n.incomingEdges)
      ensures n.outgoingEdges == Minus(old(n.outgoingEdges), set e | e in old(n.incomingEdges))
      ensures old(dfsNeeded) ==> dfsNeeded
    {
      OnlyListedOnce(nodes, edgeSet);
      AllIncident(n, nodes);
      ghost var gone := DropEdges(n, nodes);
      Pruned((nodes, old(edgeSet), gone));
    }

    lemma MinusDistinct(s: seq<Edge>, x: set<Edge>)
      requires forall i, j | 0 <= i < j < |s| :: s[i] != s[j]
      ensures forall i, j | 0 <= i < j < |Minus(s, x)| :: Minus(s, x)[i] != Minus(s, x)[j]
    {
      if s != [] {
        MinusDistinct(s[1..], x);
      }
    }

    lemma AllIncident(n: Node, nodes: set<Node>)
      requires EndsListed(nodes, edgeSet) && OnlyListed(nodes, edgeSet) && n in nodes
      ensures Incident(n) == (set e | e in n.incomingEdges) + (set e | e in n.outgoingEdges)
      ensures forall e | e in edgeSet - Incident(n) :: e.n1 in nodes - {n} && e.n2 in nodes - {n}
    {
      forall e | e in Incident(n) ensures e in n.incomingEdges || e in n.outgoingEdges {
        assert multiset(e.n1.outgoingEdges)[e] == 1 && multiset(e.n2.incomingEdges)[e] == 1;
      }
    }

    /** The edge set says exactly which edges are listed at both ends. */
    lemma EdgeIsListedOnce(e: Edge)
      requires Linked()
      ensures e in edgeSet <==>
        && e.n1 != null && e.n1 in nodeSet && multiset(e.n1.outgoingEdges)[e] == 1
        && e.n2 != null && e.n2 in nodeSet && multiset(e.n2.incomingEdges)[e] == 1
    {
      if e.n1 != null && e.n1 in nodeSet && multiset(e.n1.outgoingEdges)[e] == 1 {
        assert e in e.n1.outgoingEdges;
      }
    }

    lemma EndsInside()
      requires Linked()
      ensures forall n | n in nodeSet :: EndIn(n.outgoingEdges, nodeSet)
    {
      forall n, k | n in nodeSet && 0 <= k < |n.outgoingEdges|
        ensures n.outgoingEdges[k].n2 != null && n.outgoingEdges[k].n2 in nodeSet
      {
        assert n.outgoingEdges[k] in n.outgoingEdges;
      }
    }

    /** The sinks of the edges that leave each node. */
    ghost function Adj(): (adj: map<Node, seq<Node>>)
      requires Linked()
      reads this`nodeSet, this`edgeSet, this`rootNode
      reads nodeSet`inUse, nodeSet`incomingEdges, nodeSet`outgoingEdges, edgeSet`inUse
      ensures Closed(nodeSet, adj) && adj.Keys == nodeSet
    {
      EndsInside();
      var nodes := nodeSet;
      map n | n in nodes :: Sinks(n.outgoingEdges, nodes)
    }

    /** What makes a node adjacent is an edge on the other node's incoming list. */
    lemma AdjacentByEdge(a: Node, b: Node) returns (k: nat)
      requires Linked() && a in nodeSet && b in Adj()[a]
      ensures k < |b.incomingEdges| && b.incomingEdges[k].n1 == a
    {
      var i :| 0 <= i < |a.outgoingEdges| && Adj()[a][i] == b;
      var e := a.outgoingEdges[i];
      assert e in a.outgoingEdges && e.n2 == b;
      assert e in edgeSet && multiset(e.n2.incomingEdges)[e] == 1;
      k :| 0 <= k < |b.incomingEdges| && b.incomingEdges[k] == e;
    }

    lemma EdgeIsAdjacent(b: Node, k: nat)
      requires Linked() && b in nodeSet && k < |b.incomingEdges|
      ensures b.incomingEdges[k].n1 != null && b.incomingEdges[k].n1 in nodeSet && b in Adj()[b.incomingEdges[k].n1]
    {
      var e := b.incomingEdges[k];
      assert e in b.incomingEdges;
      assert e in edgeSet && multiset(e.n1.outgoingEdges)[e] == 1;
      var i :| 0 <= i < |e.n1.outgoingEdges| && e.n1.outgoingEdges[i] == e;
      assert Adj()[e.n1][i] == b;
    }

    /** The depth-first order of the graph from its root. */
    ghost function Order(): seq<Node>
      requires Linked() && rootNode != null
      reads this`nodeSet, this`edgeSet, this`rootNode
      reads nodeSet`inUse, nodeSet`incomingEdges, nodeSet`outgoingEdges, edgeSet`inUse
    {
      var root: Node := rootNode;
      Dfs<Node>(nodeSet, Adj(), Adj()[root], [root])
    }

    /** Links kept from an earlier traversal are those of the graph as it is. */
    ghost predicate Valid()
      reads this, nodeSet, edgeSet
    {
      Linked() && (rootNode != null && !dfsNeeded ==> Threaded(nodeSet, Order(), false))
    }

    /** Threads the nodes that a search from n meets behind n, which ends the chain so far. A null link may mean that
        a node was not met or that it ends the chain; in the second case the node is searched again, without effect. */
    method CreateDfsLinks(n: Node, ghost nodes: set<Node>, ghost adj: map<Node, seq<Node>>, ghost chain: seq<Node>,
                          ghost again: bool)
      returns (last: Node, ghost r: seq<Node>)
      requires Agrees(nodes, adj) && SearchFrom(nodes, adj, n, chain) && Threaded(nodes, chain, again)
      modifies nodes`dfsSucc
      ensures r == Dfs<Node>(nodes, adj, adj[n], chain)
      ensures Threaded(nodes, r, false) && last == r[|r| - 1]
      ensures FollowsLists(nodes, n, chain, r) || !old(Agrees(nodes, adj))
      decreases |nodes| - |chain|, !again, 3
    {
      last, r := VisitSinks(n, nodes, adj, chain, again);
      SearchListed(nodes, adj, n, chain);
    }

    /** The loop over the edges, in the order of the list. */
    method VisitSinks(n: Node, ghost nodes: set<Node>, ghost adj: map<Node, seq<Node>>, ghost chain: seq<Node>,
                      ghost again: bool)
      returns (last: Node, ghost r: seq<Node>)
      requires Agrees(nodes, adj) && SearchFrom(nodes, adj, n, chain) && Threaded(nodes, chain, again)
      modifies nodes`dfsSucc
      ensures r == Dfs<Node>(nodes, adj, adj[n], chain)
      ensures Threaded(nodes, r, false) && last == r[|r| - 1]
      decreases |nodes| - |chain|, !again, 2
    {
      last := n;
      r := chain;
      assert adj[n][0..] == adj[n];
      for k := 0 to |n.outgoingEdges|
        invariant Searching(nodes, adj, n, k, chain, r) && last == r[|r| - 1]
        invariant Threaded(nodes, r, |r| == |chain| && again)
      {
        last, r := VisitSink(n, k, last, nodes, adj, chain, r, again);
      }
      assert adj[n][|adj[n]|..] == [];
      last.dfsSucc := null;
    }

    /** Sets the link of the last node to a new node or, to search it again, to itself. */
    method Link(ghost nodes: set<Node>, ghost r: seq<Node>, ghost c: seq<Node>, ghost again: bool,
                last: Node, neigh: Node)
      requires Threaded(nodes, r, again) && Distinct(r) && last == r[|r| - 1] && neigh in nodes
      requires neigh in r ==> neigh == last
      requires c == if neigh in r then r else r + [neigh]
      modifies nodes`dfsSucc
      ensures Threaded(nodes, c, neigh in r)
    {
      last.dfsSucc := neigh;
    }

    method VisitSink(n: Node, k: nat, last: Node, ghost nodes: set<Node>, ghost adj: map<Node, seq<Node>>,
                     ghost chain: seq<Node>, ghost r: seq<Node>, ghost again: bool)
      returns (last': Node, ghost r': seq<Node>)
      requires k < |n.outgoingEdges| && Agrees(nodes, adj) && Searching(nodes, adj, n, k, chain, r)
      requires last == r[|r| - 1] && Threaded(nodes, r, |r| == |chain| && again)
      modifies nodes`dfsSucc
      ensures Searching(nodes, adj, n, k + 1, chain, r')
      ensures last' == r'[|r'| - 1] && Threaded(nodes, r', |r'| == |chain| && again)
      ensures MetNext(n.outgoingEdges[k], r, r')
      decreases |nodes| - |chain|, !again, 1
    {
      assert n.outgoingEdges[k].n2 == adj[n][k];
      var neigh: Node := n.outgoingEdges[k].n2;
      if neigh.dfsSucc == null {
        last', r' := FollowSink(n, k, last, neigh, nodes, adj, chain, r, again);
      } else {
        last', r' := last, r;
        SearchSkips(nodes, adj, n, k, chain, r);
      }
    }

    /** The neighbour has no link: it is new, or it is the last of the chain and met again. */
    method FollowSink(n: Node, ghost k: nat, last: Node, neigh: Node, ghost nodes: set<Node>,
                      ghost adj: map<Node, seq<Node>>, ghost chain: seq<Node>, ghost r: seq<Node>, ghost again: bool)
      returns (last': Node, ghost r': seq<Node>)
      requires k < |n.outgoingEdges| && Agrees(nodes, adj) && Searching(nodes, adj, n, k, chain, r)
      requires adj[n][k] == neigh && neigh.dfsSucc == null
      requires last == r[|r| - 1] && Threaded(nodes, r, |r| == |chain| && again)
      modifies nodes`dfsSucc
      ensures Searching(nodes, adj, n, k + 1, chain, r')
      ensures last' == r'[|r'| - 1] && Threaded(nodes, r', |r'| == |chain| && again)
      ensures MetNext(n.outgoingEdges[k], r, r')
      decreases |nodes| - |chain|, !again, 0
    {
      ghost var c := if neigh in r then r else r + [neigh];
      NullIsLast(nodes, r, |r| == |chain| && again, neigh);
      SearchSteps(nodes, adj, n, k, chain, r, c);
      Link(nodes, r, c, |r| == |chain| && again, last, neigh);
      last', r' := CreateDfsLinks(neigh, nodes, adj, c, neigh in r);
      assert c <= r' && (|r'| == |chain| ==> !again);
    }

    method ResetLinks()
      modifies nodeSet`dfsSucc
      ensures forall n | n in nodeSet :: n.dfsSucc == null
    {
      var rest := nodeSet;
      while rest != {}
        invariant rest <= nodeSet && forall n | n in nodeSet - rest :: n.dfsSucc == null
        decreases |rest|
      {
        var n :| n in rest;
        n.dfsSucc := null;
        rest := rest - {n};
      }
    }

    /** The order is that of a depth-first search: it starts at the root and holds exactly the nodes that the root
        reaches, each once and each but the root behind one that it is adjacent to. */
    lemma OrderIsReachable()
      requires Linked() && rootNode != null
      ensures Distinct(Order()) && Order()[0] == rootNode && Descends(Adj(), Order(), 1)
      ensures forall b | b in nodeSet :: b in Order() <==> Reaches<Node>(nodeSet, Adj(), rootNode, b)
      ensures Explored(Adj(), Order(), [])
    {
      var root: Node := rootNode;
      DfsFindsReachable<Node>(nodeSet, Adj(), root);
      DfsCloses<Node>(nodeSet, Adj(), Adj()[root], [root]);
    }

    /** By the lists of edges alone: each node but the root is the first sink not met before of the latest node met
        before that has one. */
    lemma OrderIsDepthFirst()
      requires Linked() && rootNode != null
      ensures DepthFirstOrder(nodeSet, rootNode, Order())
    {
      var root: Node := rootNode;
      DfsIsDeep<Node>(nodeSet, Adj(), root, [root]);
      OrderIsReachable();
      OrderListed(nodeSet, Adj(), root, Order());
    }

    /** The links are no part of what makes the graph. */
    twostate lemma LinksAside()
      requires unchanged(`nodeSet, `edgeSet, `rootNode)
      requires forall n | n in nodeSet ::
          unchanged(n`inUse) && n.incomingEdges == old(n.incomingEdges) && n.outgoingEdges == old(n.outgoingEdges)
      requires forall e | e in edgeSet :: unchanged(e`inUse)
      ensures Linked() == old(Linked())
      ensures Linked() ==> Adj() == old(Adj()) && (rootNode != null ==> Order() == old(Order()))
    {
      if Linked() && old(Linked()) {
        assert Adj() == old(Adj());
      }
    }

    /** Forgets all links and threads the nodes anew. */
    method Rethread()
      requires Linked() && rootNode != null
      modifies nodeSet`dfsSucc
      ensures Threaded(nodeSet, old(Order()), false)
    {
      ghost var order := Order();
      ghost var nodes := nodeSet;
      ghost var adj := Adj();
      var root: Node := rootNode;
      StartSearch(nodes, adj, root);
      assert order == Dfs<Node>(nodes, adj, adj[root], [root]);
      ResetLinks();
      var last, r := CreateDfsLinks(root, nodes, adj, [root], false);
    }

    /** Builds the links unless those at hand are of the graph as it is. */
    method PrepareDfs()
      requires Valid()
      modifies this`dfsNeeded, nodeSet`dfsSucc
      ensures Valid() == old(Valid()) && (rootNode == null || !dfsNeeded)
    {
      if rootNode != null {
        if dfsNeeded {
          Rethread();
          dfsNeeded := false;
          LinksAside();
        }
      }
    }

    lemma StartSearch(nodes: set<Node>, adj: map<Node, seq<Node>>, root: Node)
      requires Closed(nodes, adj) && root in nodes
      ensures SearchFrom(nodes, adj, root, [root])
    {
      DistinctSize([root], nodes);
    }
  }

  class DfsIterator {
    var p: Node?

    constructor (g: DGraph)
      requires g.Valid()
      modifies g`dfsNeeded, g.nodeSet`dfsSucc
      ensures g.Valid() == old(g.Valid()) && p == g.rootNode && (p == null || !g.dfsNeeded)
    {
      new;
      g.PrepareDfs();
      p := g.rootNode;
    }

    /** The nodes from a threaded order that the iterator stands at the start of. */
    method Rest(ghost nodes: set<Node>, ghost order: seq<Node>) returns (met: seq<Node>)
      requires if order == [] then p == null else p == order[0] && Threaded(nodes, order, false)
      modifies this
      ensures met == order
    {
      met := [];
      while p != null
        invariant met <= order
        invariant if |met| == |order| then p == null else p == order[|met|] && Threaded(nodes, order, false)
        decreases |order| - |met|
      {
        met := met + [p];
        Next();
      }
    }

    method Next()
      modifies this
      ensures p == if old(p) == null then null else old(p.dfsSucc)
    {
      if p != null {
        p := p.dfsSucc;
      }
    }
  }

  /** A loop over the iterator meets, whether or not the links were at hand, the nodes of the depth-first order. */
  method Traverse(g: DGraph) returns (met: seq<Node>)
    requires g.Valid()
    modifies g`dfsNeeded, g.nodeSet`dfsSucc
    ensures g.Valid() == old(g.Valid())
    ensures if g.rootNode == null then met == [] else met == old(g.Order())
    ensures g.rootNode == null || DepthFirstOrder(g.nodeSet, g.rootNode, met)
  {
    if g.rootNode != null {
      g.OrderIsDepthFirst();
    }
    met := Iterate(g);
  }

  method Iterate(g: DGraph) returns (met: seq<Node>)
    requires g.Valid()
    modifies g`dfsNeeded, g.nodeSet`dfsSucc
    ensures g.Valid() == old(g.Valid())
    ensures if g.rootNode == null then met == [] else met == old(g.Order())
  {
    ghost var order := if g.rootNode == null then [] else g.Order();
    var iter := new DfsIterator(g);
    met := iter.Rest(g.nodeSet, order);
  }

  /** A node that was removed and is added again brings its lists along: they name an edge that is not in the graph. */
  method ReaddExample() returns (g: DGraph, b: Node, e: Edge)
    ensures b in g.nodeSet && e in b.incomingEdges && e !in g.edgeSet && !g.Linked()
  {
    g := new DGraph(true);
    var a := new Node();
    b := new Node();
    e := new Edge(a, b);
    var status := g.AddEdge(e);
    status := g.RemoveNode(b);
    status := g.AddNode(b);
  }
}
