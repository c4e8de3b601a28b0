/** Which nodes a depth-first search adds to those met before. */
module FreeWalks {
  import opened Collections
  import opened DepthFirst

  /** A walk of k steps from a to b that steps on none of the nodes that are barred. */
  ghost predicate WalksIn<T>(nodes: set<T>, adj: map<T, seq<T>>, barred: set<T>, k: nat, a: T, b: T) {
    if k == 0 then a == b else
      b !in barred && exists m | m in nodes :: WalksIn(nodes, adj, barred, k - 1, a, m) && m in adj && b in adj[m]
  }

  ghost predicate Walks<T>(nodes: set<T>, adj: map<T, seq<T>>, barred: set<T>, a: T, b: T) {
    exists k: nat :: WalksIn(nodes, adj, barred, k, a, b)
  }

  lemma {:induction false} DfsWalks<T>(nodes: set<T>, adj: map<T, seq<T>>, l: seq<T>, chain: seq<T>, barred: set<T>,
                                       a: T, n: T)
    requires Closed(nodes, adj) && Inside(l, nodes) && Inside(chain, nodes) && Distinct(chain)
    requires n in nodes && Walks(nodes, adj, barred, a, n) && AllIn(l, adj[n]) && barred <= Elems(chain)
    ensures forall x | x in Dfs(nodes, adj, l, chain) && x !in chain :: Walks(nodes, adj, barred, a, x)
    decreases |nodes| - |chain|, |l|
  {
    DistinctSize(chain, nodes);
    if l != [] {
      if l[0] in chain {
        DfsWalks(nodes, adj, l[1..], chain, barred, a, n);
      } else {
        var c := chain + [l[0]];
        DistinctSize(c, nodes);
        var mid := Dfs(nodes, adj, adj[l[0]], c);
        DistinctSize(mid, nodes);
        PrefixIn(c, mid);
        PrefixIn(chain, c);
        var k: nat :| WalksIn(nodes, adj, barred, k, a, n);
        assert WalksIn(nodes, adj, barred, k + 1, a, l[0]);
        DfsWalks(nodes, adj, adj[l[0]], c, barred, a, l[0]);
        DfsWalks(nodes, adj, l[1..], mid, barred, a, n);
        forall x | x in Dfs(nodes, adj, l, chain) && x !in chain ensures Walks(nodes, adj, barred, a, x) {
          if x in mid && x != l[0] {
            assert x !in c;
          }
        }
      }
    }
  }

  lemma {:induction false} WalkIsMet<T>(nodes: set<T>, adj: map<T, seq<T>>, chain: seq<T>, r: seq<T>, k: nat,
                                        a: T, b: T)
    requires a in chain && chain <= r && a in adj && AllIn(adj[a], r) && Explored(adj, r, chain)
    requires WalksIn(nodes, adj, Elems(chain), k, a, b)
    ensures b in r
  {
    PrefixIn(chain, r);
    if k > 0 {
      var m :| m in nodes && WalksIn(nodes, adj, Elems(chain), k - 1, a, m) && m in adj && b in adj[m];
      WalkIsMet(nodes, adj, chain, r, k - 1, a, m);
      assert m != a ==> m !in chain;
    }
  }

  /** The search from a node that has been met adds exactly the nodes that it can walk to beside those met before. */
  lemma DfsAddsWalked<T>(nodes: set<T>, adj: map<T, seq<T>>, chain: seq<T>, a: T)
    requires Closed(nodes, adj) && Inside(chain, nodes) && Distinct(chain) && a in chain && a in nodes
    requires Inside(adj[a], nodes)
    ensures forall x :: x in Dfs(nodes, adj, adj[a], chain) <==> x in chain || Walks(nodes, adj, Elems(chain), a, x)
  {
    var r := Dfs(nodes, adj, adj[a], chain);
    PrefixIn(chain, r);
    assert WalksIn(nodes, adj, Elems(chain), 0, a, a);
    DfsWalks(nodes, adj, adj[a], chain, Elems(chain), a, a);
    DfsCloses(nodes, adj, adj[a], chain);
    forall x | Walks(nodes, adj, Elems(chain), a, x) ensures x in r {
      var k: nat :| WalksIn(nodes, adj, Elems(chain), k, a, x);
      WalkIsMet(nodes, adj, chain, r, k, a, x);
    }
  }

  /** Walks do not care about barred nodes that they could not step on anyway. */
  lemma {:induction false} WalkBeside<T>(nodes: set<T>, adj: map<T, seq<T>>, c1: set<T>, c2: set<T>, k: nat, a: T, b: T)
    requires WalksIn(nodes, adj, c1, k, a, b)
    requires forall x: T | Walks(nodes, adj, c1, a, x) && x != a :: x !in c2
    requires a in c1
    ensures WalksIn(nodes, adj, c2, k, a, b)
  {
    if k > 0 {
      var m :| m in nodes && WalksIn(nodes, adj, c1, k - 1, a, m) && m in adj && b in adj[m];
      assert Walks(nodes, adj, c1, a, b);
      WalkBeside(nodes, adj, c1, c2, k - 1, a, m);
    }
  }
}

/** The graph of cycle sets and the order in which its nodes are fixed. */
module CycleSets {
  import opened Collections
  import opened DepthFirst
  import opened FreeWalks

  function Adj(lists: seq<seq<nat>>): map<nat, seq<nat>> {
    map i | 0 <= i < |lists| :: lists[i]
  }

  function Nodes(n: nat): (r: set<nat>)
    ensures forall i: nat :: i in r <==> i < n
  {
    if n == 0 then {} else Nodes(n - 1) + {n - 1}
  }

  /** The outgoing and the incoming lists show the same edges. */
  ghost predicate Mirrored(outs: seq<seq<nat>>, ins: seq<seq<nat>>) {
    |outs| == |ins| && forall u, v | 0 <= u < |outs| && 0 <= v < |outs| :: v in outs[u] <==> u in ins[v]
  }

  /** Some numbering rises along every edge. */
  ghost predicate Acyclic(outs: seq<seq<nat>>) {
    exists level: seq<nat> :: Rises(outs, level)
  }

  ghost predicate Rises(outs: seq<seq<nat>>, level: seq<nat>) {
    |level| == |outs| && forall u, v | 0 <= u < |outs| && 0 <= v < |outs| && v in outs[u] :: level[u] < level[v]
  }

  /** The fixed nodes hold the numbers from 1 on in the order in which they were fixed. */
  ghost predicate Marks(fixed: seq<nat>, order: seq<nat>) {
    && Distinct(order) && Inside(order, Nodes(|fixed|))
    && (forall x | 0 <= x < |fixed| :: fixed[x] == 0 <==> x !in order)
    && forall k | 0 <= k < |order| :: fixed[order[k]] == k + 1
  }

  lemma MarksIsBijection(fixed: seq<nat>, order: seq<nat>)
    requires Marks(fixed, order)
    ensures forall x | 0 <= x < |fixed| :: fixed[x] <= |order|
    ensures forall x, y | 0 <= x < |fixed| && 0 <= y < |fixed| && fixed[x] == fixed[y] != 0 :: x == y
    ensures forall id | 1 <= id <= |order| :: id in fixed
  {
    forall x | 0 <= x < |fixed| && fixed[x] != 0 ensures fixed[x] <= |order| && order[fixed[x] - 1] == x {
      var k :| 0 <= k < |order| && order[k] == x;
    }
    forall id | 1 <= id <= |order| ensures id in fixed {
      assert fixed[order[id - 1]] == id;
    }
  }

  lemma MarkNext(fixed: seq<nat>, order: seq<nat>, x: nat)
    requires Marks(fixed, order) && x < |fixed| && fixed[x] == 0
    ensures Marks(fixed[x := |order| + 1], order + [x])
  {
    var f, o := fixed[x := |order| + 1], order + [x];
    assert forall k | 0 <= k < |order| :: o[k] == order[k] && order[k] != x;
    forall y | 0 <= y < |f| ensures f[y] == 0 <==> y !in o {
      assert y in o <==> y in order || y == x;
    }
  }

  lemma ListsClosed(lists: seq<seq<nat>>)
    requires InRange(lists)
    ensures Closed(Nodes(|lists|), Adj(lists))
    ensures forall i | 0 <= i < |lists| :: Inside(lists[i], Nodes(|lists|)) && Adj(lists)[i] == lists[i]
  {
  }

  lemma {:induction false} WalkRises(outs: seq<seq<nat>>, level: seq<nat>, barred: set<nat>, k: nat, a: nat, b: nat)
    requires Rises(outs, level) && InRange(outs) && a < |outs| && WalksIn(Nodes(|outs|), Adj(outs), barred, k, a, b)
    ensures b < |outs| && level[a] + k <= level[b]
  {
    if k > 0 {
      var m :| m in Nodes(|outs|) && WalksIn(Nodes(|outs|), Adj(outs), barred, k - 1, a, m)
        && m in Adj(outs) && b in Adj(outs)[m];
      WalkRises(outs, level, barred, k - 1, a, m);
      var i :| 0 <= i < |outs[m]| && outs[m][i] == b;
    }
  }

  lemma {:induction false} WalkFalls(outs: seq<seq<nat>>, ins: seq<seq<nat>>, level: seq<nat>,
                                     barred: set<nat>, k: nat, a: nat, b: nat)
    requires Rises(outs, level) && InRange(ins) && Mirrored(outs, ins) && a < |outs|
    requires WalksIn(Nodes(|ins|), Adj(ins), barred, k, a, b)
    ensures b < |outs| && level[b] + k <= level[a]
  {
    if k > 0 {
      var m :| m in Nodes(|ins|) && WalksIn(Nodes(|ins|), Adj(ins), barred, k - 1, a, m)
        && m in Adj(ins) && b in Adj(ins)[m];
      WalkFalls(outs, ins, level, barred, k - 1, a, m);
      var i :| 0 <= i < |ins[m]| && ins[m][i] == b;
    }
  }

  /** Without cycles, what was fixed forwards does not stand in the way backwards. */
  lemma BackwardIsFree(outs: seq<seq<nat>>, ins: seq<seq<nat>>, past: set<nat>, s: nat)
    requires InRange(outs) && InRange(ins) && Mirrored(outs, ins) && Acyclic(outs) && s < |outs| && s in past
    ensures Walked(ins, past + Walked(outs, past, s), s) == Walked(ins, past, s)
  {
    var nodes, adj, more := Nodes(|ins|), Adj(ins), past + Walked(outs, past, s);
    var level :| Rises(outs, level);
    forall x: nat | Walks(nodes, adj, past, s, x) && x != s ensures x !in more {
      var k: nat :| WalksIn(nodes, adj, past, k, s, x);
      WalkFalls(outs, ins, level, past, k, s, x);
      if Walks(Nodes(|outs|), Adj(outs), past, s, x) {
        var m: nat :| WalksIn(Nodes(|outs|), Adj(outs), past, m, s, x);
        WalkRises(outs, level, past, m, s, x);
      }
    }
    forall x: nat ensures Walks(nodes, adj, more, s, x) <==> Walks(nodes, adj, past, s, x) {
      if Walks(nodes, adj, more, s, x) {
        var k: nat :| WalksIn(nodes, adj, more, k, s, x);
        WalkBeside(nodes, adj, more, past, k, s, x);
      }
      if Walks(nodes, adj, past, s, x) {
        var k: nat :| WalksIn(nodes, adj, past, k, s, x);
        WalkBeside(nodes, adj, past, more, k, s, x);
      }
    }
  }

  /** The nodes that s walks to along the lists past those in `past`. */
  ghost function Walked(lists: seq<seq<nat>>, past: set<nat>, s: nat): set<nat> {
    set x: nat | x in Nodes(|lists|) && x !in past && Walks(Nodes(|lists|), Adj(lists), past, s, x)
  }

  /** The order after fixing a node: the node, then what a search forwards and one backwards add. */
  ghost function FixOrder(outs: seq<seq<nat>>, ins: seq<seq<nat>>, order: seq<nat>, s: nat): seq<nat>
    requires InRange(outs) && InRange(ins) && |outs| == |ins| && s < |outs|
    requires Distinct(order + [s]) && Inside(order + [s], Nodes(|outs|))
  {
    ListsClosed(outs);
    ListsClosed(ins);
    var c := order + [s];
    Dfs(Nodes(|outs|), Adj(ins), ins[s], Dfs(Nodes(|outs|), Adj(outs), outs[s], c))
  }

  /** One search adds exactly what s walks to past what was met before, and meets each node where it is next. */
  lemma SearchAdds(lists: seq<seq<nat>>, c: seq<nat>, s: nat)
    requires InRange(lists) && s < |lists| && s in c && Distinct(c) && Inside(c, Nodes(|lists|))
    requires Closed(Nodes(|lists|), Adj(lists)) && Inside(lists[s], Nodes(|lists|))
    ensures var r := Dfs(Nodes(|lists|), Adj(lists), lists[s], c);
      Elems(r) == Elems(c) + Walked(lists, Elems(c), s) && Searched(lists, s, c, r)
  {
    var nodes, r := Nodes(|lists|), Dfs(Nodes(|lists|), Adj(lists), lists[s], c);
    DfsAddsWalked(nodes, Adj(lists), c, s);
    forall x | x in r ensures x in nodes {
      var k :| 0 <= k < |r| && r[k] == x;
    }
    assert forall x :: x in r <==> x in Elems(c) + Walked(lists, Elems(c), s);
    DfsIsDeep(nodes, Adj(lists), s, c);
    forall i | |c| <= i < |r| ensures NextOf(lists, [s] + r[|c|..i], r[..i], r[i]) {
      NextIsNext(lists, [s] + r[|c|..i], r[..i], r[i]);
    }
  }

  /** Behind c, r lists what a depth-first search from s meets: each node is the first on the list of its predecessor
      that was not met before, where that is the latest node of the search with such a one on its list. */
  ghost predicate Searched(lists: seq<seq<nat>>, s: nat, c: seq<nat>, r: seq<nat>) {
    c <= r && forall i {:trigger r[..i]} | |c| <= i < |r| :: NextOf(lists, [s] + r[|c|..i], r[..i], r[i])
  }

  ghost predicate NextOf(lists: seq<seq<nat>>, searched: seq<nat>, met: seq<nat>, x: nat) {
    (forall k | 0 <= k < |searched| :: searched[k] < |lists|) && exists j :: NextOfAt(lists, searched, met, x, j)
  }

  ghost predicate NextOfAt(lists: seq<seq<nat>>, searched: seq<nat>, met: seq<nat>, x: nat, j: int)
    requires forall k | 0 <= k < |searched| :: searched[k] < |lists|
  {
    && 0 <= j < |searched| && FirstUnmet(lists[searched[j]], met, x)
    && forall m | j < m < |searched| :: AllIn(lists[searched[m]], met)
  }

  lemma NextIsNext(lists: seq<seq<nat>>, searched: seq<nat>, met: seq<nat>, x: nat)
    requires Next(Adj(lists), searched, met, x) && forall k | 0 <= k < |searched| :: searched[k] < |lists|
    ensures NextOf(lists, searched, met, x)
  {
    var j :| NextAt(Adj(lists), searched, met, x, j);
    assert NextOfAt(lists, searched, met, x, j);
  }

  /** Behind the nodes fixed before come the node itself, what it walks to forwards past them, in depth-first order, and
      what it walks to backwards past all these, in depth-first order too. */
  ghost predicate FixedBothWays(outs: seq<seq<nat>>, ins: seq<seq<nat>>, was: seq<nat>, s: nat, order: seq<nat>,
                                m: nat) {
    && |was| < m <= |order| && was + [s] <= order[..m]
    && Elems(order[|was| + 1..m]) == Walked(outs, Elems(was) + {s}, s)
    && Elems(order[m..]) == Walked(ins, Elems(order[..m]), s)
    && Searched(outs, s, was + [s], order[..m]) && Searched(ins, s, order[..m], order)
  }

  lemma FixedInOrder(outs: seq<seq<nat>>, ins: seq<seq<nat>>, was: seq<nat>, s: nat) returns (m: nat)
    requires InRange(outs) && InRange(ins) && |outs| == |ins| && s < |outs|
    requires Distinct(was + [s]) && Inside(was + [s], Nodes(|outs|))
    ensures FixedBothWays(outs, ins, was, s, FixOrder(outs, ins, was, s), m)
  {
    ListsClosed(outs);
    ListsClosed(ins);
    var c := was + [s];
    assert c[|was|] == s;
    var mid := Dfs(Nodes(|outs|), Adj(outs), outs[s], c);
    SearchAdds(outs, c, s);
    PrefixIn(c, mid);
    SearchAdds(ins, mid, s);
    var order := FixOrder(outs, ins, was, s);
    m := |mid|;
    assert order[..m] == mid && Elems(c) == Elems(was) + {s};
    ElemsBehind(c, mid);
    ElemsBehind(mid, order);
    assert order[|c|..m] == mid[|c|..];
  }

  /** The nodes that have a number. */
  ghost function Fixed(marks: seq<nat>): set<nat> {
    set x: nat | x < |marks| && marks[x] != 0
  }

  lemma MarksFixed(marks: seq<nat>, order: seq<nat>)
    requires Marks(marks, order)
    ensures Fixed(marks) == Elems(order)
  {
    forall x | x in order ensures x < |marks| && marks[x] != 0 {
      var k :| 0 <= k < |order| && order[k] == x;
      assert order[k] in Nodes(|marks|);
    }
  }

  /** The numbers after the nodes f, and then the nodes b, have been fixed behind s: those from before are kept, s
      gets the next, and f and b get the ones behind it. */
  ghost predicate NumberedAs(marks: seq<nat>, last: nat, fixed: seq<nat>, s: nat, f: set<nat>, b: set<nat>) {
    && s < |fixed| == |marks| && fixed[s] == last + 1
    && Fixed(fixed) == Fixed(marks) + {s} + f + b
    && (forall x | x in Fixed(marks) :: fixed[x] == marks[x] <= last)
    && (forall x | x in f :: x < |fixed| && last + 1 < fixed[x] <= last + 1 + |f|)
    && (forall x | x in b :: x < |fixed| && last + 1 + |f| < fixed[x] <= last + 1 + |f| + |b|)
  }

  /** What s walks to forwards past those fixed before, and backwards past all these. */
  ghost function Forwards(outs: seq<seq<nat>>, marks: seq<nat>, s: nat): set<nat> {
    Walked(outs, Fixed(marks) + {s}, s)
  }

  ghost function Backwards(outs: seq<seq<nat>>, ins: seq<seq<nat>>, marks: seq<nat>, s: nat): set<nat> {
    Walked(ins, Fixed(marks) + {s} + Forwards(outs, marks, s), s)
  }

  /** The numbers tell which way a node was found. */
  lemma ForwardsFirst(marks: seq<nat>, last: nat, fixed: seq<nat>, s: nat, f: set<nat>, b: set<nat>, x: nat)
    requires NumberedAs(marks, last, fixed, s, f, b) && x in Fixed(fixed) && x !in Fixed(marks)
    ensures fixed[x] > last
    ensures fixed[x] <= last + 1 + |f| <==> x == s || x in f
    ensures fixed[x] > last + 1 + |f| <==> x in b
  {
    if x in b {
      assert fixed[x] > last + 1 + |f|;
    } else if x in f {
      assert fixed[x] <= last + 1 + |f|;
    }
  }

  lemma {:induction false} ElemsSize<T>(l: seq<T>)
    requires Distinct(l)
    ensures |Elems(l)| == |l|
  {
    if l == [] {
      assert Elems(l) == {};
    } else {
      var rest, x := l[..|l| - 1], l[|l| - 1];
      assert l == rest + [x];
      ElemsSize(rest);
      forall k | 0 <= k < |rest| ensures rest[k] != x {
        assert l[k] != l[|l| - 1];
      }
      assert Elems(l) == Elems(rest) + {x} && x !in Elems(rest);
    }
  }

  /** Where the numbers of a stretch of the order lie. */
  lemma MarksBetween(fixed: seq<nat>, order: seq<nat>, lo: nat, hi: nat)
    requires Marks(fixed, order) && lo <= hi <= |order|
    ensures |Elems(order[lo..hi])| == hi - lo
    ensures forall x | x in order[lo..hi] :: x < |fixed| && lo < fixed[x] <= hi
  {
    forall x | x in order[lo..hi] ensures x < |fixed| && lo < fixed[x] <= hi {
      var k :| 0 <= k < hi - lo && order[lo..hi][k] == x;
      assert order[lo + k] == x && order[lo + k] in Nodes(|fixed|);
    }
    forall i, j | 0 <= i < j < hi - lo ensures order[lo..hi][i] != order[lo..hi][j] {
      assert order[lo + i] != order[lo + j];
    }
    ElemsSize(order[lo..hi]);
  }

  lemma OrderParts(was: seq<nat>, s: nat, order: seq<nat>, m: nat)
    requires |was| < m <= |order| && was + [s] <= order[..m]
    ensures was <= order && order[|was|] == s
    ensures Elems(order[..m]) == Elems(was) + {s} + Elems(order[|was| + 1..m])
    ensures Elems(order) == Elems(order[..m]) + Elems(order[m..])
  {
    var n := |was|;
    assert order[..m][..n] == was && order[..m][n] == s;
    assert order[..m] == was + [s] + order[n + 1..m];
    assert order == order[..m] + order[m..];
  }

  lemma KeptNumbers(marks: seq<nat>, was: seq<nat>, fixed: seq<nat>, order: seq<nat>)
    requires Marks(marks, was) && Marks(fixed, order) && |marks| == |fixed| && was <= order
    ensures forall x | x in Fixed(marks) :: fixed[x] == marks[x] <= |was|
  {
    MarksFixed(marks, was);
    forall x | x in was ensures fixed[x] == marks[x] <= |was| {
      var k :| 0 <= k < |was| && was[k] == x;
      assert order[k] == x;
    }
  }

  lemma PartsSized(was: seq<nat>, fixed: seq<nat>, order: seq<nat>, m: nat)
    requires Marks(fixed, order) && |was| < m <= |order|
    ensures m == |was| + 1 + |Elems(order[|was| + 1..m])| && |order| == m + |Elems(order[m..])|
    ensures forall x | x in order[|was| + 1..m] :: x < |fixed| && |was| + 1 < fixed[x] <= m
    ensures forall x | x in order[m..] :: x < |fixed| && m < fixed[x] <= |order|
  {
    MarksBetween(fixed, order, |was| + 1, m);
    MarksBetween(fixed, order, m, |order|);
    assert order[m..|order|] == order[m..];
  }

  lemma NumbersFollow(marks: seq<nat>, was: seq<nat>, fixed: seq<nat>, order: seq<nat>, s: nat, m: nat)
    requires Marks(marks, was) && Marks(fixed, order) && s < |marks| == |fixed|
    requires |was| < m <= |order| && was + [s] <= order[..m]
    ensures Elems(order[..m]) == Fixed(marks) + {s} + Elems(order[|was| + 1..m])
    ensures NumberedAs(marks, |was|, fixed, s, Elems(order[|was| + 1..m]), Elems(order[m..]))
  {
    PartsSized(was, fixed, order, m);
    OrderParts(was, s, order, m);
    KeptNumbers(marks, was, fixed, order);
    AllFixed(marks, was, fixed, order);
    assert fixed[order[|was|]] == |was| + 1;
  }

  lemma AllFixed(marks: seq<nat>, was: seq<nat>, fixed: seq<nat>, order: seq<nat>)
    requires Marks(marks, was) && Marks(fixed, order)
    ensures Fixed(marks) == Elems(was) && Fixed(fixed) == Elems(order)
  {
    MarksFixed(marks, was);
    MarksFixed(fixed, order);
  }

  /** What fixing a node comes to: the numbers, and the order. */
  ghost predicate FixedNode(outs: seq<seq<nat>>, ins: seq<seq<nat>>, marks: seq<nat>, was: seq<nat>, fixed: seq<nat>,
                            order: seq<nat>, s: nat, result: nat) {
    FixedAs(outs, ins, marks, was, fixed, order, s, result, Forwards(outs, marks, s), Backwards(outs, ins, marks, s))
  }

  ghost predicate FixedAs(outs: seq<seq<nat>>, ins: seq<seq<nat>>, marks: seq<nat>, was: seq<nat>, fixed: seq<nat>,
                          order: seq<nat>, s: nat, result: nat, f: set<nat>, b: set<nat>) {
    && NumberedAs(marks, |was|, fixed, s, f, b) && result == 1 + |f| + |b|
    && FixedBothWays(outs, ins, was, s, order, |was| + 1 + |f|)
  }

  lemma PartsWalked(outs: seq<seq<nat>>, ins: seq<seq<nat>>, marks: seq<nat>, was: seq<nat>, order: seq<nat>, s: nat,
                    m: nat)
    requires FixedBothWays(outs, ins, was, s, order, m) && Fixed(marks) == Elems(was)
    requires Elems(order[..m]) == Fixed(marks) + {s} + Elems(order[|was| + 1..m])
    ensures Elems(order[|was| + 1..m]) == Forwards(outs, marks, s)
    ensures Elems(order[m..]) == Backwards(outs, ins, marks, s)
  {
  }

  lemma SameParts(outs: seq<seq<nat>>, ins: seq<seq<nat>>, was: seq<nat>, order: seq<nat>, s: nat, m: nat, k: nat)
    requires FixedBothWays(outs, ins, was, s, order, m) && m == k
    ensures FixedBothWays(outs, ins, was, s, order, k) || m != k
  {
  }

  lemma PartsFixed(outs: seq<seq<nat>>, ins: seq<seq<nat>>, marks: seq<nat>, was: seq<nat>, fixed: seq<nat>,
                   order: seq<nat>, s: nat, m: nat, result: nat, f: set<nat>, b: set<nat>)
    requires m == |was| + 1 + |f| && result == 1 + |f| + |b|
    requires FixedBothWays(outs, ins, was, s, order, |was| + 1 + |f|) || m != |was| + 1 + |f|
    requires NumberedAs(marks, |was|, fixed, s, f, b) || m != |was| + 1 + |f|
    ensures FixedAs(outs, ins, marks, was, fixed, order, s, result, f, b) || result != 1 + |f| + |b|
  {
  }

  lemma PartsFixedAt(outs: seq<seq<nat>>, ins: seq<seq<nat>>, marks: seq<nat>, was: seq<nat>, fixed: seq<nat>,
                     order: seq<nat>, s: nat, m: nat, f: set<nat>, b: set<nat>)
    requires FixedBothWays(outs, ins, was, s, order, m) && m == |was| + 1 + |f| && |order| == m + |b|
    requires NumberedAs(marks, |was|, fixed, s, f, b)
    ensures FixedAs(outs, ins, marks, was, fixed, order, s, |order| - |was|, f, b) || |order| != m + |b|
  {
    SameParts(outs, ins, was, order, s, m, |was| + 1 + |f|);
    PartsFixed(outs, ins, marks, was, fixed, order, s, m, |order| - |was|, f, b);
  }

  lemma NodeIsFixed(outs: seq<seq<nat>>, ins: seq<seq<nat>>, marks: seq<nat>, was: seq<nat>, fixed: seq<nat>,
                    order: seq<nat>, s: nat, m: nat)
    requires Marks(marks, was) && Marks(fixed, order) && s < |marks| == |fixed|
    requires FixedBothWays(outs, ins, was, s, order, m)
    ensures |order| >= |was|
    ensures FixedNode(outs, ins, marks, was, fixed, order, s, |order| - |was|) || !Marks(fixed, order)
  {
    var f, b := Elems(order[|was| + 1..m]), Elems(order[m..]);
    PartsSized(was, fixed, order, m);
    NumbersFollow(marks, was, fixed, order, s, m);
    PartsFixedAt(outs, ins, marks, was, fixed, order, s, m, f, b);
    MarksFixed(marks, was);
    PartsWalked(outs, ins, marks, was, order, s, m);
  }

  /** On an acyclic graph the searches do not get in each other's way. */
  lemma AcyclicBothWays(outs: seq<seq<nat>>, ins: seq<seq<nat>>, marks: seq<nat>, last: nat, fixed: seq<nat>, s: nat)
    requires InRange(outs) && InRange(ins) && Mirrored(outs, ins) && Acyclic(outs) && s < |outs|
    requires NumberedAs(marks, last, fixed, s, Forwards(outs, marks, s), Backwards(outs, ins, marks, s))
    ensures var past := Fixed(marks) + {s}; Fixed(fixed) == past + Walked(outs, past, s) + Walked(ins, past, s)
  {
    BackwardIsFree(outs, ins, Fixed(marks) + {s}, s);
  }

  lemma NodeFixed(outs: seq<seq<nat>>, ins: seq<seq<nat>>, marks: seq<nat>, was: seq<nat>, fixed: seq<nat>,
                  order: seq<nat>, s: nat, result: nat)
    requires InRange(outs) && InRange(ins) && Mirrored(outs, ins) && s < |outs| == |marks| == |fixed|
    requires Marks(marks, was) && Marks(fixed, order) && Distinct(was + [s]) && Inside(was + [s], Nodes(|outs|))
    requires order == FixOrder(outs, ins, was, s) && result == |order| - |was|
    ensures FixedNode(outs, ins, marks, was, fixed, order, s, result) || result != |order| - |was|
    ensures Acyclic(outs) ==>
      var past := Fixed(marks) + {s}; Fixed(fixed) == past + Walked(outs, past, s) + Walked(ins, past, s)
  {
    var m := FixedInOrder(outs, ins, was, s);
    NodeIsFixed(outs, ins, marks, was, fixed, order, s, m);
    if Acyclic(outs) {
      AcyclicBothWays(outs, ins, marks, |was|, fixed, s);
    }
  }

  lemma ElemsBehind<T>(c: seq<T>, r: seq<T>)
    requires c <= r && Distinct(r)
    ensures Elems(r) == Elems(c) + Elems(r[|c|..]) && Elems(c) !! Elems(r[|c|..])
  {
    assert r == c + r[|c|..];
  }

  class CycleSetDag {
    /** The edges of each node, by the number of the other end, and the place of each node in the schedule, or 0. */
    var outs: seq<seq<nat>>
    var ins: seq<seq<nat>>
    var fixed: seq<nat>
    /** The node of each set. */
    var dagNodes: map<nat, nat>
    var lastFixId: nat
    var numFixedSets: nat
    ghost var order: seq<nat>

    ghost predicate Valid()
      reads this
    {
      && |outs| == |ins| == |fixed| && InRange(outs) && InRange(ins) && Mirrored(outs, ins)
      && (forall s | s in dagNodes :: dagNodes[s] < |outs|)
      && (forall s, t | s in dagNodes && t in dagNodes && dagNodes[s] == dagNodes[t] :: s == t)
      && Marks(fixed, order) && lastFixId == numFixedSets == |order|
    }

    constructor ()
      ensures Valid() && outs == [] && dagNodes == map[] && order == []
    {
      outs, ins, fixed := [], [], [];
      dagNodes := map[];
      lastFixId, numFixedSets := 0, 0;
      order := [];
    }

    /** The node of a set, which is made when there is none. */
    method AddCycleSet(setId: nat) returns (node: nat)
      requires Valid()
      modifies this
      ensures Valid() && order == old(order) && setId in dagNodes && node == dagNodes[setId]
      ensures setId in old(dagNodes) ==> unchanged(this)
      ensures setId !in old(dagNodes) ==> node == |old(outs)| && dagNodes == old(dagNodes)[setId := node]
      ensures setId !in old(dagNodes) ==>
        outs == old(outs) + [[]] && ins == old(ins) + [[]] && fixed == old(fixed) + [0]
    {
      if setId !in dagNodes {
        dagNodes := dagNodes[setId := |outs|];
        outs, ins, fixed := outs + [[]], ins + [[]], fixed + [0];
        MoreUnfixed(old(fixed), order);
      }
      node := dagNodes[setId];
    }

    /** Adds an edge between the nodes of two sets unless there is one; both sets must have nodes. */
    method AddUniqueEdge(s1: nat, s2: nat) returns (ok: bool)
      requires Valid()
      modifies this`outs, this`ins
      ensures Valid() && (ok <==> s1 in dagNodes && s2 in dagNodes)
      ensures !ok ==> unchanged(this)
      ensures ok ==> var u, v := dagNodes[s1], dagNodes[s2];
        && outs == old(outs)[u := if v in old(outs[u]) then old(outs[u]) else old(outs[u]) + [v]]
        && ins == old(ins)[v := if v in old(outs[u]) then old(ins[v]) else old(ins[v]) + [u]]
    {
      if s1 !in dagNodes || s2 !in dagNodes {
        return false;
      }
      var u, v := dagNodes[s1], dagNodes[s2];
      ok := true;
      for k := 0 to |outs[u]|
        invariant forall j | 0 <= j < k :: outs[u][j] != v
      {
        if outs[u][k] == v {
          return;
        }
      }
      outs := outs[u := outs[u] + [v]];
      ins := ins[v := ins[v] + [u]];
      EdgeMirrored(old(outs), old(ins), u, v);
    }

    /** Takes all nodes out of the schedule. */
    method ResetSchedule()
      requires Valid()
      modifies this`fixed, this`lastFixId, this`numFixedSets, this`order
      ensures Valid() && order == [] && forall x | 0 <= x < |fixed| :: fixed[x] == 0
    {
      var n := |fixed|;
      for x := 0 to n
        invariant |fixed| == n && forall y | 0 <= y < x :: fixed[y] == 0
      {
        fixed := fixed[x := 0];
      }
      lastFixId, numFixedSets := 0, 0;
      order := [];
    }

    /** Fixes what can be reached forwards from a node through nodes that are not fixed. */
    method FixForwardSets(node: nat) returns (result: nat)
      requires InRange(outs) && |outs| == |fixed| && node < |outs| && Marks(fixed, order) && lastFixId == |order|
      requires Closed(Nodes(|outs|), Adj(outs)) && Inside(outs[node], Nodes(|outs|))
      modifies this`fixed, this`lastFixId, this`order
      ensures |fixed| == old(|fixed|) && Marks(fixed, order) && lastFixId == |order|
      ensures order == Dfs(Nodes(|outs|), Adj(outs), outs[node], old(order)) && result == |order| - |old(order)|
      decreases |outs| - |order|
    {
      ghost var nodes, adj, n := Nodes(|outs|), Adj(outs), |outs|;
      result := 0;
      assert outs[node][0..] == outs[node];
      for k := 0 to |outs[node]|
        invariant |fixed| == n && Marks(fixed, order) && lastFixId == |order|
        invariant old(order) <= order && result == |order| - |old(order)|
        invariant Inside(outs[node][k..], nodes)
        invariant Dfs(nodes, adj, outs[node][k..], order) == Dfs(nodes, adj, outs[node], old(order))
      {
        var sink := outs[node][k];
        assert outs[node][k..][1..] == outs[node][k + 1..];
        if fixed[sink] == 0 {
          MarkNext(fixed, order, sink);
          OrderFits(n, order + [sink]);
          lastFixId := lastFixId + 1;
          fixed := fixed[sink := lastFixId];
          order := order + [sink];
          var more := FixForwardSets(sink);
          result := result + 1 + more;
        }
      }
      assert outs[node][|outs[node]|..] == [];
    }

    /** Fixes what leads to a node through nodes that are not fixed. */
    method FixBackwardSets(node: nat) returns (result: nat)
      requires InRange(ins) && |ins| == |fixed| && node < |ins| && Marks(fixed, order) && lastFixId == |order|
      requires Closed(Nodes(|ins|), Adj(ins)) && Inside(ins[node], Nodes(|ins|))
      modifies this`fixed, this`lastFixId, this`order
      ensures |fixed| == old(|fixed|) && Marks(fixed, order) && lastFixId == |order|
      ensures order == Dfs(Nodes(|ins|), Adj(ins), ins[node], old(order)) && result == |order| - |old(order)|
      decreases |ins| - |order|
    {
      ghost var nodes, adj, n := Nodes(|ins|), Adj(ins), |ins|;
      result := 0;
      assert ins[node][0..] == ins[node];
      for k := 0 to |ins[node]|
        invariant |fixed| == n && Marks(fixed, order) && lastFixId == |order|
        invariant old(order) <= order && result == |order| - |old(order)|
        invariant Inside(ins[node][k..], nodes)
        invariant Dfs(nodes, adj, ins[node][k..], order) == Dfs(nodes, adj, ins[node], old(order))
      {
        var source := ins[node][k];
        assert ins[node][k..][1..] == ins[node][k + 1..];
        if fixed[source] == 0 {
          MarkNext(fixed, order, source);
          OrderFits(n, order + [source]);
          lastFixId := lastFixId + 1;
          fixed := fixed[source := lastFixId];
          order := order + [source];
          var more := FixBackwardSets(source);
          result := result + 1 + more;
        }
      }
      assert ins[node][|ins[node]|..] == [];
    }

    /** Fixes the node of a set and all that a search both ways finds unfixed; the node must be there and not fixed. */
    method FixSet(sId: nat) returns (ok: bool, result: nat)
      requires Valid()
      modifies this`fixed, this`lastFixId, this`numFixedSets, this`order
      ensures Valid() && (ok <==> sId in dagNodes && old(fixed)[dagNodes[sId]] == 0)
      ensures !ok ==> unchanged(this)
      ensures ok ==> result == |order| - |old(order)|
      ensures ok ==> Distinct(old(order) + [dagNodes[sId]]) && Inside(old(order) + [dagNodes[sId]], Nodes(|outs|))
      ensures ok ==> order == FixOrder(outs, ins, old(order), dagNodes[sId])
      ensures !ok || FixedNode(outs, ins, old(fixed), old(order), fixed, order, dagNodes[sId], result)
      ensures ok && Acyclic(outs) ==> var s, past := dagNodes[sId], Fixed(old(fixed)) + {dagNodes[sId]};
        Fixed(fixed) == past + Walked(outs, past, s) + Walked(ins, past, s)
    {
      if sId !in dagNodes || fixed[dagNodes[sId]] != 0 {
        return false, 0;
      }
      ok := true;
      result := FixNode(dagNodes[sId]);
    }

    method FixNode(nn: nat) returns (result: nat)
      requires Valid() && nn < |fixed| && fixed[nn] == 0
      modifies this`fixed, this`lastFixId, this`numFixedSets, this`order
      ensures Valid() || lastFixId != |order|
      ensures lastFixId == |order| && result == |order| - |old(order)|
      ensures Distinct(old(order) + [nn]) && Inside(old(order) + [nn], Nodes(|outs|))
      ensures order == FixOrder(outs, ins, old(order), nn)
      ensures FixedNode(outs, ins, old(fixed), old(order), fixed, order, nn, result) || result != |order| - |old(order)|
      ensures Acyclic(outs) ==> var past := Fixed(old(fixed)) + {nn};
        Fixed(fixed) == past + Walked(outs, past, nn) + Walked(ins, past, nn)
    {
      result := SearchBothWays(nn);
      numFixedSets := numFixedSets + result;
      assert Valid();
      NodeFixed(outs, ins, old(fixed), old(order), fixed, order, nn, result);
    }

    method SearchBothWays(nn: nat) returns (result: nat)
      requires |outs| == |ins| == |fixed| && InRange(outs) && InRange(ins)
      requires Marks(fixed, order) && lastFixId == |order| && nn < |fixed| && fixed[nn] == 0
      modifies this`fixed, this`lastFixId, this`order
      ensures |fixed| == |outs| && Marks(fixed, order) && lastFixId == |order| && result == |order| - |old(order)|
      ensures Distinct(old(order) + [nn]) && Inside(old(order) + [nn], Nodes(|outs|))
      ensures order == FixOrder(outs, ins, old(order), nn)
    {
      ListsClosed(outs);
      ListsClosed(ins);
      MarkNext(fixed, order, nn);
      lastFixId := lastFixId + 1;
      fixed := fixed[nn := lastFixId];
      order := order + [nn];
      result := 1;
      var more := FixForwardSets(nn);
      result := result + more;
      more := FixBackwardSets(nn);
      result := result + more;
    }

    method IsSetFixed(sId: nat) returns (ok: bool, isFixed: bool)
      requires Valid()
      ensures (ok <==> sId in dagNodes) && (ok ==> (isFixed <==> dagNodes[sId] in order))
    {
      if sId !in dagNodes {
        return false, false;
      }
      ok, isFixed := true, fixed[dagNodes[sId]] != 0;
    }
  }

  lemma MoreUnfixed(fixed: seq<nat>, order: seq<nat>)
    requires Marks(fixed, order)
    ensures Marks(fixed + [0], order)
  {
    assert forall k | 0 <= k < |order| :: order[k] < |fixed|;
  }

  lemma EdgeMirrored(outs: seq<seq<nat>>, ins: seq<seq<nat>>, u: nat, v: nat)
    requires Mirrored(outs, ins) && u < |outs| && v < |outs|
    ensures Mirrored(outs[u := outs[u] + [v]], ins[v := ins[v] + [u]])
  {
    var o, i := outs[u := outs[u] + [v]], ins[v := ins[v] + [u]];
    forall x, y | 0 <= x < |o| && 0 <= y < |o| ensures y in o[x] <==> x in i[y] {
      assert y in o[x] <==> y in outs[x] || (x == u && y == v);
      assert x in i[y] <==> x in ins[y] || (x == u && y == v);
    }
  }

  lemma OrderFits(n: nat, order: seq<nat>)
    requires Distinct(order) && Inside(order, Nodes(n))
    ensures |order| <= n
  {
    DistinctSize(order, Nodes(n));
    NodesSize(n);
  }

  lemma {:induction false} NodesSize(n: nat)
    ensures |Nodes(n)| == n
  {
    if n > 0 {
      NodesSize(n - 1);
    }
  }
}
