/** Cliques of an undirected graph given as a flat 0/1 adjacency matrix. */
module CliqueTheory {
  import opened Collections

  datatype Graph = Graph(n: nat, edges: set<(nat, nat)>) {

    ghost predicate Conn(p: nat, q: nat) {
      (p, q) in edges
    }

    /** Undirected, and every vertex counts as connected to itself. */
    ghost predicate Valid() {
      && (forall p, q :: Conn(p, q) <==> Conn(q, p))
      && (forall p: nat | p < n :: Conn(p, p))
    }
  }

  ghost predicate Clique(g: Graph, k: set<nat>) {
    && (forall a | a in k :: a < g.n)
    && (forall a, b | a in k && b in k :: g.Conn(a, b))
  }

  /** A vertex outside k that is connected to all of k. */
  ghost predicate Extends(g: Graph, k: set<nat>, v: nat) {
    v < g.n && v !in k && forall a | a in k :: g.Conn(v, a)
  }

  /** vs are exactly the vertices that extend k. */
  ghost predicate Extenders(g: Graph, k: set<nat>, vs: set<nat>) {
    forall v: nat :: v in vs <==> Extends(g, k, v)
  }

  ghost predicate Maximal(g: Graph, k: set<nat>) {
    Clique(g, k) && forall v :: !Extends(g, k, v)
  }

  /** The members of vs connected to p. */
  ghost function Near(g: Graph, p: nat, vs: set<nat>): set<nat> {
    set x | x in vs && g.Conn(p, x)
  }

  /** The maximal cliques that grow the partial clique c without touching the excluded vertices. */
  ghost predicate Wanted(g: Graph, c: set<nat>, excluded: set<nat>, k: set<nat>) {
    Maximal(g, k) && c < k && k !! excluded
  }

  /** The wanted cliques that use at least one vertex already branched on. */
  ghost predicate Covered(g: Graph, c: set<nat>, excluded: set<nat>, done: set<nat>, k: set<nat>) {
    Wanted(g, c, excluded, k) && !(k !! done)
  }

  /** `found` lists, each exactly once and without repeated vertices, the sets that `want` accepts. */
  ghost predicate ListsExactly(found: seq<seq<nat>>, want: set<nat> -> bool) {
    && (forall i | 0 <= i < |found| :: Distinct(found[i]) && want(Elems(found[i])))
    && (forall i, j | 0 <= i < j < |found| :: Elems(found[i]) != Elems(found[j]))
    && (forall k {:trigger want(k)} | want(k) :: exists i :: 0 <= i < |found| && Elems(found[i]) == k)
  }

  /** A graph with a vertex has no empty maximal clique, so every maximal clique is a wanted one. */
  lemma WantedAtTop(g: Graph, k: set<nat>)
    requires g.n >= 1
    ensures Wanted(g, {}, {}, k) <==> Maximal(g, k)
  {
    if Maximal(g, k) && k == {} {
      assert Extends(g, k, 0);
    }
  }

  /** Concatenating the lists of two disjoint families lists their union. */
  lemma ListsUnion(f1: seq<seq<nat>>, w1: set<nat> -> bool, f2: seq<seq<nat>>, w2: set<nat> -> bool,
                   w: set<nat> -> bool)
    requires ListsExactly(f1, w1) && ListsExactly(f2, w2)
    requires forall k :: w(k) <==> w1(k) || w2(k)
    requires forall k :: !(w1(k) && w2(k))
    ensures ListsExactly(f1 + f2, w)
  {
    var f := f1 + f2;
    forall i | 0 <= i < |f| ensures Distinct(f[i]) && w(Elems(f[i])) {
      assert f[i] == if i < |f1| then f1[i] else f2[i - |f1|];
    }
    forall i, j | 0 <= i < j < |f| ensures Elems(f[i]) != Elems(f[j]) {
      if i < |f1| <= j {
        assert w1(Elems(f1[i])) && w2(Elems(f2[j - |f1|]));
      }
    }
    forall k | w(k) ensures exists i :: 0 <= i < |f| && Elems(f[i]) == k {
      if w1(k) {
        var i :| 0 <= i < |f1| && Elems(f1[i]) == k;
        assert f[i] == f1[i];
      } else {
        var i :| 0 <= i < |f2| && Elems(f2[i]) == k;
        assert f[|f1| + i] == f2[i];
      }
    }
  }

  /** A clique that grows c uses a vertex that extends c. */
  lemma BiggerClique(g: Graph, c: set<nat>, k: set<nat>)
    ensures Clique(g, k) && c < k ==> exists v :: v in k && Extends(g, c, v)
  {
    if Clique(g, k) && c < k {
      assert !(k <= c);
      var v :| v in k && v !in c;
      assert Extends(g, c, v);
    }
  }

  /** Branching on `sel`: the branch contributes what the recursive call lists, or the clique c + {sel} itself when
      nothing is left to add to it. */
  lemma BranchTargets(g: Graph, c: set<nat>, excluded: set<nat>, done: set<nat>, sel: nat,
                      newNot: set<nat>, newCand: set<nat>, k: set<nat>)
    requires g.Valid() && sel < g.n && sel !in done && sel !in c && done !! c && excluded <= done
    requires newNot == Near(g, sel, done)
    requires Extenders(g, c + {sel}, newNot + newCand)
    requires Clique(g, c + {sel})
    ensures Covered(g, c, excluded, done + {sel}, k) <==>
            || Covered(g, c, excluded, done, k)
            || Wanted(g, c + {sel}, newNot, k)
            || (newNot + newCand == {} && k == c + {sel})
    ensures !(Covered(g, c, excluded, done, k) && Wanted(g, c + {sel}, newNot, k))
    ensures !Covered(g, c, excluded, done, c + {sel})
    ensures newNot + newCand == {} ==> !Wanted(g, c + {sel}, newNot, k)
  {
    var c' := c + {sel};
    assert Maximal(g, c') <==> newNot + newCand == {} by {
      if newNot + newCand != {} {
        var v :| v in newNot + newCand;
        assert Extends(g, c', v);
      }
    }
    if Clique(g, k) && c' <= k {
      assert k !! newNot <==> k !! done by {
        if v :| v in k && v in done {
          assert g.Conn(sel, v);
        }
      }
      if v :| v in k - c' {
        assert Extends(g, c', v);
      }
      if k !! done && k != c' {
        assert c' < k;
        assert Maximal(g, k) ==> Wanted(g, c', newNot, k);
      }
    }
    if Covered(g, c, excluded, done + {sel}, k) && k !! done {
      assert sel in k && c' <= k;
    }
  }

  /** Pivot pruning loses nothing: once every vertex left is connected to a used-up pivot, no wanted clique avoids
      the used-up vertices. */
  lemma PivotLosesNothing(g: Graph, c: set<nat>, done: set<nat>, cand: set<nat>, pivot: nat, k: set<nat>)
    requires g.Valid() && pivot in done && pivot < g.n
    requires Extenders(g, c, done + cand)
    requires forall v | v in cand :: g.Conn(pivot, v)
    requires Clique(g, k) && c <= k && k !! done
    ensures Extends(g, k, pivot) && !Maximal(g, k)
  {
    assert Extends(g, c, pivot);
    forall a | a in k ensures g.Conn(pivot, a) {
      if a !in c {
        assert Extends(g, c, a);
      }
    }
  }

  ghost function WantedBy(g: Graph, c: set<nat>, excluded: set<nat>): set<nat> -> bool {
    k => Wanted(g, c, excluded, k)
  }

  ghost function CoveredBy(g: Graph, c: set<nat>, excluded: set<nat>, done: set<nat>): set<nat> -> bool {
    k => Covered(g, c, excluded, done, k)
  }

  /** What one branch must report: the clique itself when no vertex extends it, else what the deeper call lists. */
  ghost function BranchBy(g: Graph, c: set<nat>, newNot: set<nat>, newCand: set<nat>): set<nat> -> bool {
    k => Wanted(g, c, newNot, k) || (newNot + newCand == {} && k == c)
  }

  lemma BranchDone(g: Graph, c: set<nat>, excluded: set<nat>, done: set<nat>, sel: nat,
                   newNot: set<nat>, newCand: set<nat>, before: seq<seq<nat>>, branch: seq<seq<nat>>)
    requires g.Valid() && sel < g.n && sel !in done && sel !in c && done !! c && excluded <= done
    requires newNot == Near(g, sel, done)
    requires Extenders(g, c + {sel}, newNot + newCand)
    requires Clique(g, c + {sel})
    requires ListsExactly(before, CoveredBy(g, c, excluded, done))
    requires ListsExactly(branch, BranchBy(g, c + {sel}, newNot, newCand))
    ensures ListsExactly(before + branch, CoveredBy(g, c, excluded, done + {sel}))
  {
    forall k {
      BranchTargets(g, c, excluded, done, sel, newNot, newCand, k);
    }
    ListsUnion(before, CoveredBy(g, c, excluded, done), branch, BranchBy(g, c + {sel}, newNot, newCand),
               CoveredBy(g, c, excluded, done + {sel}));
  }

  lemma AtTop(g: Graph, found: seq<seq<nat>>)
    requires g.n >= 1 && ListsExactly(found, WantedBy(g, {}, {}))
    ensures ListsExactly(found, (k: set<nat>) => Maximal(g, k))
  {
    forall k {
      WantedAtTop(g, k);
    }
    var want := (k: set<nat>) => Maximal(g, k);
    forall k | want(k) ensures exists i :: 0 <= i < |found| && Elems(found[i]) == k {
      WantedAtTop(g, k);
      assert WantedBy(g, {}, {})(k);
    }
  }

  lemma TopReady(g: Graph, all: seq<nat>)
    requires |all| == g.n && forall j | 0 <= j < g.n :: all[j] == j
    ensures Distinct(all) && Extenders(g, {}, Elems(all)) && Clique(g, {})
  {
    forall v: nat ensures v in all <==> v < g.n {
      assert v < g.n ==> all[v] == v;
    }
  }

  /** On a graph without vertices nothing is reported, not even the empty clique. */
  lemma NothingAtTop(g: Graph, found: seq<seq<nat>>)
    requires g.n == 0 && ListsExactly(found, WantedBy(g, {}, {}))
    ensures found == []
  {
    if found != [] {
      assert Wanted(g, {}, {}, Elems(found[0]));
      BiggerClique(g, {}, Elems(found[0]));
    }
  }

  /** Every clique lies inside a maximal one, so the reports cover every vertex and every connected pair. */
  lemma {:induction false} InsideMaximal(g: Graph, k: set<nat>) returns (m: set<nat>)
    requires g.Valid() && Clique(g, k)
    ensures k <= m && Maximal(g, m)
    decreases g.n - |k|
  {
    if v :| Extends(g, k, v) {
      VerticesBound(g.n, k + {v});
      m := InsideMaximal(g, k + {v});
    } else {
      m := k;
    }
  }

  lemma {:induction false} VerticesBound(n: nat, k: set<nat>)
    requires forall a | a in k :: a < n
    ensures |k| <= n
  {
    if n > 0 {
      VerticesBound(n - 1, k - {n - 1});
    } else {
      assert k == {};
    }
  }

  lemma EmptyCover(g: Graph, c: set<nat>, excluded: set<nat>, done: set<nat>)
    requires done <= excluded
    ensures ListsExactly([], CoveredBy(g, c, excluded, done))
  {
  }

  lemma ReportSelf(g: Graph, c: set<nat>, clique: seq<nat>)
    requires Clique(g, c) && Extenders(g, c, {}) && Distinct(clique) && Elems(clique) == c
    ensures ListsExactly([clique], BranchBy(g, c, {}, {}))
  {
    forall k {
      BiggerClique(g, c, k);
    }
    assert [clique][0] == clique;
  }

  lemma ReportNone(g: Graph, c: set<nat>, newNot: set<nat>)
    requires Extenders(g, c, newNot) && newNot != {}
    ensures ListsExactly([], BranchBy(g, c, newNot, {}))
  {
    forall k {
      BiggerClique(g, c, k);
    }
  }

  lemma ReportDeeper(g: Graph, c: set<nat>, newNot: set<nat>, newCand: set<nat>, found: seq<seq<nat>>)
    requires newCand != {} && ListsExactly(found, WantedBy(g, c, newNot))
    ensures ListsExactly(found, BranchBy(g, c, newNot, newCand))
  {
    forall k ensures WantedBy(g, c, newNot)(k) == BranchBy(g, c, newNot, newCand)(k) {
    }
  }

  /** When the cycle ends, every wanted clique has been covered. */
  lemma AllCovered(g: Graph, c: set<nat>, excluded: set<nat>, done: set<nat>, cand: set<nat>, pivot: nat,
                   found: seq<seq<nat>>)
    requires g.Valid() && ListsExactly(found, CoveredBy(g, c, excluded, done))
    requires Extenders(g, c, done + cand)
    requires done + cand != {} ==> pivot in done && forall v | v in cand :: g.Conn(pivot, v)
    ensures ListsExactly(found, WantedBy(g, c, excluded))
  {
    forall k ensures Wanted(g, c, excluded, k) <==> Covered(g, c, excluded, done, k) {
      BiggerClique(g, c, k);
      if done + cand != {} && Clique(g, k) && c <= k && k !! done {
        PivotLosesNothing(g, c, done, cand, pivot, k);
      }
    }
    forall k | WantedBy(g, c, excluded)(k) ensures exists i :: 0 <= i < |found| && Elems(found[i]) == k {
      assert CoveredBy(g, c, excluded, done)(k);
    }
  }
}

/** The Bron-Kerbosch enumeration, in place on one array split into a not range and a cand range. */
module BronKerbosch {
  import opened CliqueTheory
  import opened Collections

  /** The caller's list, to which cliques are appended. */
  class CliqueList {
    var items: seq<seq<nat>>
    constructor ()
      ensures items == []
    {
      items := [];
    }
  }

  lemma ElemsSize(s: seq<nat>)
    requires Distinct(s)
    ensures |Elems(s)| == |s|
  {
    if s != [] {
      var t := s[..|s| - 1];
      ElemsSize(t);
      assert Elems(s) == Elems(t) + {s[|s| - 1]};
    }
  }

  /** The entries of s not connected to p. */
  ghost function Disconnected(g: Graph, p: nat, s: seq<nat>): set<nat> {
    set v | v in s && !g.Conn(p, v)
  }

  lemma DisconnectedStep(g: Graph, p: nat, s: seq<nat>, lo: nat, j: nat)
    requires lo <= j < |s| && Distinct(s[..j + 1])
    ensures |Disconnected(g, p, s[lo..j + 1])| ==
            |Disconnected(g, p, s[lo..j])| + if g.Conn(p, s[j]) then 0 else 1
  {
    assert s[lo..j + 1] == s[lo..j] + [s[j]];
    forall t | lo <= t < j ensures s[t] != s[j] {
      assert s[..j + 1][t] != s[..j + 1][j];
    }
    assert Disconnected(g, p, s[lo..j + 1]) == Disconnected(g, p, s[lo..j]) + if g.Conn(p, s[j]) then {} else {s[j]};
  }

  /** The first entry always beats the initial bound: it cannot be disconnected from ce + 1 candidates. */
  lemma FirstFits(g: Graph, s: seq<nat>, ne: int, ce: int)
    requires g.Valid() && -1 <= ne <= ce < |s| && ce >= 0 && Distinct(s[..ce + 1]) && s[0] < g.n
    ensures |Disconnected(g, s[0], s[ne + 1..ce + 1])| < ce + 1
  {
    var cand := s[ne + 1..ce + 1];
    var d := Disconnected(g, s[0], cand);
    assert cand == s[..ce + 1][ne + 1..];
    ElemsSize(cand);
    if ne >= 0 {
      SubsetSize(d, Elems(cand));
    } else {
      assert s[0] == cand[0] && g.Conn(s[0], s[0]);
      assert s[0] in Elems(cand);
      SubsetSize(d, Elems(cand) - {s[0]});
    }
  }

  /** The entries of s connected to p, in order. */
  ghost function Neighbours(g: Graph, p: nat, s: seq<nat>): seq<nat> {
    if s == [] then [] else
      var r := Neighbours(g, p, s[..|s| - 1]);
      if g.Conn(p, s[|s| - 1]) then r + [s[|s| - 1]] else r
  }

  lemma NeighboursStep(g: Graph, p: nat, s: seq<nat>, lo: nat, i: nat)
    requires lo <= i < |s|
    ensures Neighbours(g, p, s[lo..i + 1]) ==
            Neighbours(g, p, s[lo..i]) + if g.Conn(p, s[i]) then [s[i]] else []
  {
    assert s[lo..i + 1][..i - lo] == s[lo..i];
  }

  lemma {:induction false} NeighboursElems(g: Graph, p: nat, s: seq<nat>)
    ensures forall x :: x in Neighbours(g, p, s) <==> x in s && g.Conn(p, x)
    ensures Elems(Neighbours(g, p, s)) == Near(g, p, Elems(s))
    ensures Distinct(s) ==> Distinct(Neighbours(g, p, s))
  {
    if s != [] {
      NeighboursElems(g, p, s[..|s| - 1]);
      assert s == s[..|s| - 1] + [s[|s| - 1]];
    }
  }

  /** Filtering the two ranges around position ne + 1 keeps all entries distinct. */
  lemma DistinctParts(g: Graph, p: nat, s: seq<nat>, ne: int, ce: int)
    requires -1 <= ne < ce < |s| && Distinct(s[..ce + 1])
    ensures Distinct(Neighbours(g, p, s[0..ne + 1]) + Neighbours(g, p, s[ne + 2..ce + 1]))
  {
    var lo, hi := s[0..ne + 1], s[ne + 2..ce + 1];
    assert lo == s[..ce + 1][..ne + 1] && hi == s[..ce + 1][ne + 2..];
    NeighboursElems(g, p, lo);
    NeighboursElems(g, p, hi);
    forall i, j | 0 <= i < |lo| && 0 <= j < |hi| ensures lo[i] != hi[j] {
      assert s[..ce + 1][i] == lo[i] && s[..ce + 1][ne + 2 + j] == hi[j];
    }
    DistinctConcat(Neighbours(g, p, lo), Neighbours(g, p, hi));
  }

  lemma DistinctConcat(a: seq<nat>, b: seq<nat>)
    requires Distinct(a) && Distinct(b) && forall x | x in a :: x !in b
    ensures Distinct(a + b)
  {
    forall i, j | 0 <= i < j < |a + b| ensures (a + b)[i] != (a + b)[j] {
      if i < |a| <= j {
        assert a[i] in a && b[j - |a|] in b;
      }
    }
  }

  ghost function Swapped(v: seq<nat>, i: nat, j: nat): (w: seq<nat>)
    requires i < |v| && j < |v|
    ensures |w| == |v|
  {
    v[i := v[j]][j := v[i]]
  }

  lemma SwapElems(v: seq<nat>, i: nat, j: nat, lo: nat, hi: nat)
    requires lo <= i < hi <= |v| && lo <= j < hi
    ensures Elems(Swapped(v, i, j)[lo..hi]) == Elems(v[lo..hi])
  {
    var w := Swapped(v, i, j);
    var a, b := v[lo..hi], w[lo..hi];
    assert forall t | 0 <= t < |a| ::
        b[t] == if t == i - lo then a[j - lo] else if t == j - lo then a[i - lo] else a[t];
    assert forall t | 0 <= t < |a| ::
        a[t] == if t == i - lo then b[j - lo] else if t == j - lo then b[i - lo] else b[t];
    forall x ensures x in a <==> x in b {
      if x in a {
        var t :| 0 <= t < |a| && a[t] == x;
      }
      if x in b {
        var t :| 0 <= t < |b| && b[t] == x;
      }
    }
  }

  lemma SwapDistinct(v: seq<nat>, i: nat, j: nat, hi: nat)
    requires i < hi <= |v| && j < hi && Distinct(v[..hi])
    ensures Distinct(Swapped(v, i, j)[..hi])
  {
    var a, b := v[..hi], Swapped(v, i, j)[..hi];
    assert forall t | 0 <= t < hi :: b[t] == if t == i then a[j] else if t == j then a[i] else a[t];
  }

  /** Exchanging two entries of the cand range changes neither range as a set. */
  lemma SwapKeeps(v: seq<nat>, i: nat, j: nat, ce: nat)
    requires j <= i <= ce < |v| && Distinct(v[..ce + 1])
    ensures Swapped(v, i, j)[..j] == v[..j] && Swapped(v, i, j)[ce + 1..] == v[ce + 1..]
    ensures Distinct(Swapped(v, i, j)[..ce + 1])
    ensures Elems(Swapped(v, i, j)[..ce + 1]) == Elems(v[..ce + 1])
    ensures Elems(Swapped(v, i, j)[j..ce + 1]) == Elems(v[j..ce + 1])
  {
    SwapDistinct(v, i, j, ce + 1);
    SwapElems(v, i, j, 0, ce + 1);
    SwapElems(v, i, j, j, ce + 1);
    var w := Swapped(v, i, j);
    assert w[0..ce + 1] == w[..ce + 1] && v[0..ce + 1] == v[..ce + 1];
  }

  /** The bookkeeping of the backtrack cycle: as long as `first` holds the pivot itself is the next to branch on,
      and `knod` counts the candidates still to branch on, of which `s` is the next. */
  ghost predicate Cycle(g: Graph, v: seq<nat>, ne: int, ce: int, knod: int, s: int, fixp: nat, first: bool) {
    && -1 <= ne <= ce < |v|
    && (if ce == -1 then knod == 0 else
          && fixp < g.n
          && |Disconnected(g, fixp, v[ne + 1..ce + 1])| == knod - (if first then 1 else 0)
          && (first || fixp in v[..ne + 1])
          && (first ==> knod > 0)
          && (knod > 0 ==> ne + 1 <= s <= ce && if first then v[s] == fixp else !g.Conn(fixp, v[s])))
  }

  /** Of the first i vertices none has fewer disconnections than `minnod`, and the cycle can start as remembered. */
  ghost predicate Best(g: Graph, v: seq<nat>, ne: int, ce: int, i: int, minnod: int, nod: int, s: int, fixp: nat) {
    && -1 <= ne <= ce < |v| && 0 <= i <= ce + 1 && 0 <= minnod <= ce + 1 && (nod == 0 || nod == 1)
    && (forall j | 0 <= j < i :: minnod <= |Disconnected(g, v[j], v[ne + 1..ce + 1])|)
    && (i == 0 ==> minnod == ce + 1 && nod == 0)
    && (i > 0 ==> fixp in v[..i] && minnod == |Disconnected(g, fixp, v[ne + 1..ce + 1])|)
    && (i > 0 && nod == 0 ==> fixp in v[..ne + 1])
    && (i > 0 && nod == 0 && minnod > 0 ==> ne + 1 <= s <= ce && !g.Conn(fixp, v[s]))
    && (nod == 1 ==> ne + 1 <= s < i && v[s] == fixp)
  }

  /** The next vertex is better. */
  lemma BestChanges(g: Graph, v: seq<nat>, ne: int, ce: int, i: int, minnod: int, nod: int, s: int, fixp: nat, pos: int)
    requires Best(g, v, ne, ce, i, minnod, nod, s, fixp) && i <= ce
    requires |Disconnected(g, v[i], v[ne + 1..ce + 1])| < minnod
    requires Disconnected(g, v[i], v[ne + 1..ce + 1]) != {} ==>
               ne + 1 <= pos <= ce && !g.Conn(v[i], v[pos])
    ensures Best(g, v, ne, ce, i + 1, |Disconnected(g, v[i], v[ne + 1..ce + 1])|, if i <= ne then nod else 1,
                 if i <= ne then pos else i, v[i])
  {
  }

  lemma BestStays(g: Graph, v: seq<nat>, ne: int, ce: int, i: int, minnod: int, nod: int, s: int, fixp: nat)
    requires Best(g, v, ne, ce, i, minnod, nod, s, fixp) && 0 < i <= ce
    requires |Disconnected(g, v[i], v[ne + 1..ce + 1])| >= minnod
    ensures Best(g, v, ne, ce, i + 1, minnod, nod, s, fixp)
  {
    assert v[..i] <= v[..i + 1];
  }

  lemma BestStarts(g: Graph, v: seq<nat>, ne: int, ce: int, i: int, minnod: int, nod: int, s: int, fixp: nat)
    requires Best(g, v, ne, ce, i, minnod, nod, s, fixp) && (i == ce + 1 || minnod == 0)
    requires forall j | 0 <= j <= ce :: v[j] < g.n
    ensures Cycle(g, v, ne, ce, minnod + nod, s, fixp, nod == 1)
    ensures ce >= 0 ==> fixp in v[..ce + 1] && minnod == |Disconnected(g, fixp, v[ne + 1..ce + 1])|
    ensures forall j | 0 <= j <= ce :: minnod <= |Disconnected(g, v[j], v[ne + 1..ce + 1])|
  {
    if i > 0 {
      assert v[..i] <= v[..ce + 1];
    }
  }

  lemma DisconnectedPop(g: Graph, p: nat, s: seq<nat>, lo: nat, hi: nat)
    requires lo < hi <= |s| && Distinct(s[..hi])
    ensures |Disconnected(g, p, s[lo + 1..hi])| ==
            |Disconnected(g, p, s[lo..hi])| - if g.Conn(p, s[lo]) then 0 else 1
  {
    var x, rest := s[lo], s[lo + 1..hi];
    assert s[lo..hi] == [x] + rest;
    assert x !in rest by {
      assert s[..hi][lo] == x && rest == s[..hi][lo + 1..];
    }
    assert Disconnected(g, p, s[lo..hi]) == Disconnected(g, p, rest) + if g.Conn(p, x) then {} else {x};
  }

  /** One candidate branched on: it was the pivot or is disconnected from it, so the count stays right. */
  lemma CycleStep(g: Graph, v: seq<nat>, ne: int, ce: int, knod: int, fixp: nat, first: bool)
    requires g.Valid() && Cycle(g, v, ne, ce, knod, ne + 1, fixp, first) && knod > 0 && Distinct(v[..ce + 1])
    ensures ne < ce && Elems(v[..ne + 2]) == Elems(v[..ne + 1]) + {v[ne + 1]}
    ensures |Disconnected(g, fixp, v[ne + 2..ce + 1])| == knod - 1 && fixp in v[..ne + 2]
  {
    assert v[..ne + 2] == v[..ne + 1] + [v[ne + 1]];
    DisconnectedPop(g, fixp, v, ne + 1, ce + 1);
    assert g.Conn(fixp, fixp);
  }

  lemma CycleNext(g: Graph, v: seq<nat>, ne: int, ce: int, knod: int, fixp: nat, first: bool, s: int,
                  ne': int)
    requires g.Valid() && Cycle(g, v, ne, ce, knod, ne + 1, fixp, first) && knod > 0 && Distinct(v[..ce + 1])
    requires ne' == ne + 1 && (knod > 1 ==> ne + 2 <= s <= ce && !g.Conn(fixp, v[s]))
    ensures Cycle(g, v, ne', ce, knod - 1, s, fixp, false)
  {
    CycleStep(g, v, ne, ce, knod, fixp, first);
  }

  /** What the cycle keeps of the array it started from. */
  ghost predicate Kept(w0: seq<nat>, ne0: int, ce: int, v: seq<nat>, ne: int) {
    && -1 <= ne0 <= ne <= ce < |w0| == |v|
    && (forall i | 0 <= i <= ne0 || ce < i < |v| :: v[i] == w0[i])
    && Elems(v[..ce + 1]) == Elems(w0[..ce + 1])
    && Elems(w0[..ne0 + 1]) <= Elems(v[..ne + 1])
  }

  lemma KeptStep(w0: seq<nat>, ne0: int, ce: int, v: seq<nat>, ne: int, s: int)
    requires Kept(w0, ne0, ce, v, ne) && ne + 1 <= s <= ce
    requires Elems(Swapped(v, s, ne + 1)[..ce + 1]) == Elems(v[..ce + 1])
    ensures Kept(w0, ne0, ce, Swapped(v, s, ne + 1), ne + 1)
  {
    var w := Swapped(v, s, ne + 1);
    assert w[..ne + 2] == v[..ne + 1] + [v[s]];
    assert Elems(w[..ne + 2]) == Elems(v[..ne + 1]) + {v[s]};
  }

  /** Bringing the next candidate to the front and counting it as used up. */
  lemma TurnKeeps(g: Graph, v0: seq<nat>, ne: int, ce: int, knod: int, s: int, fixp: nat, first: bool,
                  w0: seq<nat>, ne0: int, v: seq<nat>, ne': int)
    requires Cycle(g, v0, ne, ce, knod, s, fixp, first) && knod > 0 && v == Swapped(v0, s, ne + 1) && ne' == ne + 1
    requires Elems(v[ne + 1..ce + 1]) == Elems(v0[ne + 1..ce + 1]) && Elems(v[..ce + 1]) == Elems(v0[..ce + 1])
    requires Kept(w0, ne0, ce, v0, ne) && g.Valid() && Distinct(v[..ce + 1])
    ensures Cycle(g, v, ne, ce, knod, ne', fixp, first) && Kept(w0, ne0, ce, v, ne')
    ensures Elems(v[..ne' + 1]) == Elems(v[..ne + 1]) + {v[ne + 1]} && Elems(v[..ne + 1]) == Elems(v0[..ne + 1])
    ensures knod > 1 ==> Disconnected(g, fixp, v[ne' + 1..ce + 1]) != {}
  {
    SwapCycle(g, v0, ne, ce, knod, s, fixp, first);
    KeptStep(w0, ne0, ce, v0, ne, s);
    CycleStep(g, v, ne, ce, knod, fixp, first);
    assert v[..ne + 1] == v0[..ne + 1];
  }

  lemma KeptEnd(w0: seq<nat>, ne0: int, ce: int, v: seq<nat>, ne: int)
    requires Kept(w0, ne0, ce, v, ne)
    ensures v[..ne0 + 1] == w0[..ne0 + 1] && v[ce + 1..] == w0[ce + 1..]
  {
  }

  lemma SwapCycle(g: Graph, v: seq<nat>, ne: int, ce: int, knod: int, s: int, fixp: nat, first: bool)
    requires Cycle(g, v, ne, ce, knod, s, fixp, first) && knod > 0
    requires Elems(Swapped(v, s, ne + 1)[ne + 1..ce + 1]) == Elems(v[ne + 1..ce + 1])
    ensures Cycle(g, Swapped(v, s, ne + 1), ne, ce, knod, ne + 1, fixp, first)
  {
    var w := Swapped(v, s, ne + 1);
    assert Disconnected(g, fixp, w[ne + 1..ce + 1]) == Disconnected(g, fixp, v[ne + 1..ce + 1]) by {
      var a, b := w[ne + 1..ce + 1], v[ne + 1..ce + 1];
      forall x ensures x in a <==> x in b {
        assert x in Elems(a) <==> x in Elems(b);
      }
    }
    assert w[..ne + 1] == v[..ne + 1];
  }

  /** The cycle ends with every remaining candidate connected to the pivot, which is used up. */
  lemma CycleEnd(g: Graph, v: seq<nat>, ne: int, ce: int, s: int, fixp: nat, first: bool)
    requires Cycle(g, v, ne, ce, 0, s, fixp, first)
    ensures Elems(v[..ce + 1]) == Elems(v[..ne + 1]) + Elems(v[ne + 1..ce + 1])
    ensures ce >= 0 ==> fixp in v[..ne + 1] && forall x | x in Elems(v[ne + 1..ce + 1]) :: g.Conn(fixp, x)
  {
    assert v[..ce + 1] == v[..ne + 1] + v[ne + 1..ce + 1];
    if ce >= 0 {
      assert Disconnected(g, fixp, v[ne + 1..ce + 1]) == {};
      forall x | x in Elems(v[ne + 1..ce + 1]) ensures g.Conn(fixp, x) {
        assert x !in Disconnected(g, fixp, v[ne + 1..ce + 1]);
      }
    }
  }

  /** What is left at the end is connected to the pivot, in the terms of the theory. */
  lemma PivotEnds(g: Graph, v: seq<nat>, ne: int, ce: int, s: int, fixp: nat)
    requires Cycle(g, v, ne, ce, 0, s, fixp, false)
    ensures Elems(v[..ne + 1]) + Elems(v[ne + 1..ce + 1]) == Elems(v[..ce + 1])
    ensures Elems(v[..ne + 1]) + Elems(v[ne + 1..ce + 1]) != {} ==>
              fixp in Elems(v[..ne + 1]) && forall x | x in Elems(v[ne + 1..ce + 1]) :: g.Conn(fixp, x)
  {
    CycleEnd(g, v, ne, ce, s, fixp, false);
    if ce < 0 {
      assert v[..ce + 1] == [];
    }
  }

  function Cell(n: nat, p: nat, q: nat): int {
    p * n + q
  }

  /** The graph of a flat matrix: p and q are connected when the entry at row p, column q is 1. */
  ghost function GraphOf(n: nat, adj: seq<int>): Graph {
    Graph(n, set p: nat, q: nat | p < n && q < n && 0 <= Cell(n, p, q) < |adj| && adj[Cell(n, p, q)] == 1 :: (p, q))
  }

  class FindCliques {
    const numNodes: nat
    const connected: seq<int>
    ghost const g: Graph
    var compsub: array<nat>
    var nel: int
    ghost var calls: nat  // how many times extend has been entered

    constructor (n: nat, adj: seq<int>)
      ensures numNodes == n && connected == adj && g == GraphOf(n, adj)
      ensures fresh(compsub)
    {
      numNodes := n;
      connected := adj;
      g := GraphOf(n, adj);
      compsub := new nat[0];
      nel := 0;
      calls := 0;
    }

    /** The flat matrix holds 1 exactly at the connected pairs, and 0 elsewhere. */
    ghost predicate Represents() {
      && g.n == numNodes && g.Valid() && |connected| == numNodes * numNodes
      && forall p: nat, q: nat {:trigger Cell(numNodes, p, q)} | p < numNodes && q < numNodes ::
           && 0 <= Cell(numNodes, p, q) < |connected|
           && connected[Cell(numNodes, p, q)] == if g.Conn(p, q) then 1 else 0
    }

    lemma Lookup(p: nat, q: nat)
      requires Represents() && p < numNodes && q < numNodes
      ensures 0 <= p * numNodes + q < |connected|
      ensures connected[p * numNodes + q] == if g.Conn(p, q) then 1 else 0
    {
      assert Cell(numNodes, p, q) == p * numNodes + q;
    }

    /** The partial clique on the stack. */
    ghost function Stack(): seq<nat>
      reads this, compsub
      requires -1 <= nel < compsub.Length
    {
      compsub[..nel + 1]
    }

    /** The part of the precondition about the array alone: distinct vertices in `s[..ce + 1]`. */
    ghost predicate Split(s: seq<nat>, ne: int, ce: int) {
      && Represents()
      && -1 <= ne <= ce < |s|
      && Distinct(s[..ce + 1])
      && forall i | 0 <= i <= ce :: s[i] < numNodes
    }

    /** What extend relies on: the stack is a clique, and `s[..ce + 1]` lists exactly the vertices that extend it. */
    ghost predicate Ready(s: seq<nat>, ne: int, ce: int)
      reads this, compsub
    {
      && -1 <= nel < compsub.Length == numNodes
      && Grows(Stack(), s, ne, ce)
    }

    ghost predicate Grows(c: seq<nat>, s: seq<nat>, ne: int, ce: int) {
      && Split(s, ne, ce)
      && |c| + ce + 1 <= numNodes == |s|
      && Distinct(c) && Clique(g, Elems(c))
      && Extenders(g, Elems(c), Elems(s[..ce + 1]))
    }

    /** Step 1: a vertex of `a[..ce + 1]` with the fewest disconnections in the cand range, and where to start. */
    method SelectPivot(a: array<nat>, ne: int, ce: int)
      returns (minnod: int, nod: int, fixp: nat, s: int)
      requires Split(a[..], ne, ce)
      ensures nod == 0 || nod == 1
      ensures Cycle(g, a[..], ne, ce, minnod + nod, s, fixp, nod == 1)
      ensures ce >= 0 ==> fixp in a[..ce + 1] && minnod == |Disconnected(g, fixp, a[ne + 1..ce + 1])|
      ensures forall i | 0 <= i <= ce :: minnod <= |Disconnected(g, a[i], a[ne + 1..ce + 1])|
    {
      ghost var v := a[..];
      var pos := 0;
      fixp, s, nod, minnod := 0, 0, 0, ce + 1;
      var i := 0;
      while i <= ce && minnod != 0
        invariant Best(g, v, ne, ce, i, minnod, nod, s, fixp)
        decreases ce - i
      {
        var p := a[i];
        var count;
        count, pos := CountDisconnections(a, ne, ce, p, minnod, pos);
        if i == 0 {
          FirstFits(g, v, ne, ce);
        }
        if count < minnod {
          BestChanges(g, v, ne, ce, i, minnod, nod, s, fixp, pos);
          fixp := p;
          minnod := count;
          if i <= ne {
            s := pos;
          } else {
            s := i;
            nod := 1;
          }
        } else {
          BestStays(g, v, ne, ce, i, minnod, nod, s, fixp);
        }
        i := i + 1;
      }
      BestStarts(g, v, ne, ce, i, minnod, nod, s, fixp);
    }

    /** Counts the candidates not connected to p, giving up at `bound`, and remembers the last one seen. */
    method CountDisconnections(a: array<nat>, ne: int, ce: int, p: nat, bound: int, pos0: int)
      returns (count: int, pos: int)
      requires Split(a[..], ne, ce) && p < numNodes && bound > 0
      ensures count == bound ==> bound <= |Disconnected(g, p, a[ne + 1..ce + 1])|
      ensures count != bound ==> 0 <= count == |Disconnected(g, p, a[ne + 1..ce + 1])| < bound
      ensures count > 0 ==> ne + 1 <= pos <= ce && !g.Conn(p, a[pos])
      ensures count == 0 ==> pos == pos0
    {
      ghost var v := a[..];
      var baseIdx := p * numNodes;
      count := 0;
      pos := pos0;
      var j := ne + 1;
      while j <= ce && count < bound
        invariant ne + 1 <= j <= ce + 1 && 0 <= count <= bound
        invariant count == |Disconnected(g, p, v[ne + 1..j])|
        invariant count > 0 ==> ne + 1 <= pos <= ce && !g.Conn(p, v[pos])
        invariant count == 0 ==> pos == pos0
      {
        Lookup(p, v[j]);
        DisconnectedStep(g, p, v[..ce + 1], ne + 1, j);
        assert v[..ce + 1][ne + 1..j] == v[ne + 1..j] && v[..ce + 1][ne + 1..j + 1] == v[ne + 1..j + 1];
        if connected[baseIdx + a[j]] == 0 {
          count := count + 1;
          pos := j;
        }
        j := j + 1;
      }
      assert v[ne + 1..ce + 1] == a[ne + 1..ce + 1];
      SubsetSize(Disconnected(g, p, v[ne + 1..j]), Disconnected(g, p, v[ne + 1..ce + 1]));
    }

    /** Appends the neighbours of `sel` found in `a[lo..hi]` to `newV[..last0 + 1]`. */
    method FillRange(a: array<nat>, lo: int, hi: int, sel: nat, newV: array<nat>, last0: int) returns (last: int)
      requires Represents() && a != newV && sel < numNodes
      requires 0 <= lo <= hi <= a.Length && forall i | lo <= i < hi :: a[i] < numNodes
      requires -1 <= last0 && last0 + 1 + hi - lo <= newV.Length
      modifies newV
      ensures last0 <= last <= last0 + hi - lo
      ensures newV[..last + 1] == old(newV[..last0 + 1]) + Neighbours(g, sel, a[lo..hi])
    {
      ghost var v := a[..];
      ghost var w := newV[..last0 + 1];
      var selIdx := sel * numNodes;
      last := last0;
      var i := lo;
      while i < hi
        invariant lo <= i <= hi && last0 <= last <= last0 + i - lo
        invariant newV[..last + 1] == w + Neighbours(g, sel, v[lo..i])
        invariant a[..] == v
      {
        Lookup(sel, v[i]);
        NeighboursStep(g, sel, v, lo, i);
        if connected[selIdx + a[i]] == 1 {
          last := last + 1;
          newV[last] := a[i];
        }
        i := i + 1;
      }
      assert a[lo..hi] == v[lo..hi];
    }

    /** Step 2: the neighbours of `sel`, split the same way, go to the front of the scratch array. */
    method FillNew(a: array<nat>, ne: int, ce: int, sel: nat, newV: array<nat>) returns (newne: int, newce: int)
      requires Split(a[..], ne, ce) && ne < ce && sel == a[ne + 1]
      requires a != newV && newV.Length == a.Length
      modifies newV
      ensures -1 <= newne <= newce < ce && newce - newne < ce - ne
      ensures Distinct(newV[..newce + 1])
      ensures Elems(newV[..newne + 1]) == Near(g, sel, Elems(a[..ne + 1]))
      ensures Elems(newV[newne + 1..newce + 1]) == Near(g, sel, Elems(a[ne + 2..ce + 1]))
    {
      ghost var v := a[..];
      ghost var lo, hi := Neighbours(g, sel, v[0..ne + 1]), Neighbours(g, sel, v[ne + 2..ce + 1]);
      newne := FillRange(a, 0, ne + 1, sel, newV, -1);
      assert a[..] == v && a[0..ne + 1] == v[0..ne + 1];
      assert newV[..newne + 1] == lo;
      newce := FillRange(a, ne + 2, ce + 1, sel, newV, newne);
      assert a[..] == v && a[ne + 2..ce + 1] == v[ne + 2..ce + 1];
      ghost var w := newV[..newce + 1];
      assert w == lo + hi;
      assert newV[..newne + 1] == w[..|lo|] == lo;
      assert newV[newne + 1..newce + 1] == w[|lo|..] == hi;
      NeighboursElems(g, sel, v[0..ne + 1]);
      NeighboursElems(g, sel, v[ne + 2..ce + 1]);
      DistinctParts(g, sel, v, ne, ce);
    }

    /** The selected vertex extends the stack to a bigger clique, and the scratch array lists what extends that one. */
    lemma BranchReady(v: seq<nat>, w: seq<nat>, ne: int, ce: int, newne: int, newce: int)
      requires Ready(v, ne, ce) && ne < ce && -1 <= newne <= newce < |w|
      requires Elems(w[..newne + 1]) == Near(g, v[ne + 1], Elems(v[..ne + 1]))
      requires Elems(w[newne + 1..newce + 1]) == Near(g, v[ne + 1], Elems(v[ne + 2..ce + 1]))
      ensures v[ne + 1] < numNodes && v[ne + 1] !in Stack() && v[ne + 1] !in v[..ne + 1]
      ensures Elems(v[..ne + 1]) !! Elems(Stack())
      ensures Elems(Stack() + [v[ne + 1]]) == Elems(Stack()) + {v[ne + 1]}
      ensures Distinct(Stack() + [v[ne + 1]]) && Clique(g, Elems(Stack()) + {v[ne + 1]})
      ensures Extenders(g, Elems(Stack()) + {v[ne + 1]}, Elems(w[..newce + 1]))
      ensures Elems(w[..newce + 1]) == Elems(w[..newne + 1]) + Elems(w[newne + 1..newce + 1])
      ensures forall i | 0 <= i <= newce :: w[i] < numNodes
    {
      var sel, c := v[ne + 1], Elems(Stack());
      var all := v[..ce + 1];
      assert all[ne + 1] == sel && sel in all && Extends(g, c, sel);
      assert all == v[..ne + 1] + [sel] + v[ne + 2..ce + 1];
      assert w[..newce + 1] == w[..newne + 1] + w[newne + 1..newce + 1];
      assert sel !in v[..ne + 1] && sel !in v[ne + 2..ce + 1] by {
        assert v[..ne + 1] == all[..ne + 1] && v[ne + 2..ce + 1] == all[ne + 2..];
      }
      forall x: nat ensures x in w[..newce + 1] <==> Extends(g, c + {sel}, x) {
        assert x in w[..newce + 1] <==> x in Elems(w[..newne + 1]) || x in Elems(w[newne + 1..newce + 1]);
        assert x in all && x != sel <==> x in Elems(v[..ne + 1]) + Elems(v[ne + 2..ce + 1]);
        assert x in all <==> Extends(g, c, x);
        if Extends(g, c + {sel}, x) {
          assert Extends(g, c, x);
        }
      }
      forall x | x in v[..ne + 1] ensures x !in c {
        assert Extends(g, c, x);
      }
      forall i | 0 <= i <= newce ensures w[i] < numNodes {
        assert w[i] in w[..newce + 1] && Extends(g, c + {sel}, w[i]);
      }
    }

    /** Step 4, with the selected vertex on the stack: report the stack if nothing extends it, else go deeper while
        there are candidates. */
    method ReportOrExtend(newV: array<nat>, newne: int, newce: int, cliques: CliqueList) returns (more: nat)
      requires Ready(newV[..], newne, newce) && newV != compsub
      modifies this`nel, this`calls, compsub, newV, cliques
      ensures nel == old(nel) && Stack() == old(Stack())
      ensures calls == old(calls) + more
      ensures |old(cliques.items)| <= |cliques.items| && cliques.items[..|old(cliques.items)|] == old(cliques.items)
      ensures ListsExactly(cliques.items[|old(cliques.items)|..],
                           BranchBy(g, Elems(Stack()), old(Elems(newV[..newne + 1])),
                                    old(Elems(newV[newne + 1..newce + 1]))))
      decreases newce - newne, 5
    {
      ghost var c, was := Stack(), cliques.items;
      ghost var newNot, newCand := Elems(newV[..newne + 1]), Elems(newV[newne + 1..newce + 1]);
      assert newV[..newce + 1] == newV[..newne + 1] + newV[newne + 1..newce + 1];
      assert Elems(newV[..newce + 1]) == newNot + newCand;
      more := 0;
      if newce == -1 {
        cliques.items := cliques.items + [compsub[..nel + 1]];
        assert newNot == {} && newCand == {};
        ReportSelf(g, Elems(c), c);
        assert cliques.items[|was|..] == [c];
      } else if newne < newce {
        assert newV[newne + 1] in newCand;
        var deeper := Extend(newV, newne, newce, cliques);
        more := deeper + 1;
        ReportDeeper(g, Elems(c), newNot, newCand, cliques.items[|was|..]);
      } else {
        assert newV[0] in newNot && newCand == {};
        ReportNone(g, Elems(c), newNot);
        assert cliques.items[|was|..] == [];
      }
    }

    /** Steps 3 to 5 for one selected vertex: push it, report or go deeper, and pop it. */
    method Branch(a: array<nat>, ne: int, ce: int, newV: array<nat>, newne: int, newce: int, cliques: CliqueList)
      returns (more: nat)
      requires Ready(a[..], ne, ce) && ne < ce
      requires a != newV && a != compsub && newV != compsub && newV.Length == numNodes
      requires -1 <= newne <= newce < ce && newce - newne < ce - ne && Distinct(newV[..newce + 1])
      requires Elems(newV[..newne + 1]) == Near(g, a[ne + 1], Elems(a[..ne + 1]))
      requires Elems(newV[newne + 1..newce + 1]) == Near(g, a[ne + 1], Elems(a[ne + 2..ce + 1]))
      modifies this`nel, this`calls, compsub, newV, cliques
      ensures nel == old(nel) && Stack() == old(Stack())
      ensures calls == old(calls) + more
      ensures |old(cliques.items)| <= |cliques.items| && cliques.items[..|old(cliques.items)|] == old(cliques.items)
      ensures ListsExactly(cliques.items[|old(cliques.items)|..],
                           BranchBy(g, Elems(Stack()) + {a[ne + 1]}, old(Elems(newV[..newne + 1])),
                                    old(Elems(newV[newne + 1..newce + 1]))))
      decreases ce - ne, 0
    {
      ghost var c := Stack();
      var sel := a[ne + 1];
      BranchReady(a[..], newV[..], ne, ce, newne, newce);
      nel := nel + 1;
      compsub[nel] := sel;
      assert Stack() == c + [sel];
      more := ReportOrExtend(newV, newne, newce, cliques);
      nel := nel - 1;
      assert Stack() == (c + [sel])[..nel + 1] == c;
    }

    /** Step 1 again: the next candidate disconnected from the pivot. One is left, so the scan stays within ce. */
    method NextDisconnected(a: array<nat>, ne: int, ce: int, fixp: nat, ghost v: seq<nat>) returns (s: int)
      requires a[..] == v && Split(v, ne, ce) && fixp < numNodes
      requires Disconnected(g, fixp, v[ne + 1..ce + 1]) != {}
      ensures ne + 1 <= s <= ce && !g.Conn(fixp, v[s])
      ensures forall i | ne + 1 <= i < s :: g.Conn(fixp, v[i])
    {
      ghost var x :| x in Disconnected(g, fixp, v[ne + 1..ce + 1]);
      ghost var t :| ne + 1 <= t <= ce && v[t] == x;
      var fixpIdx := fixp * numNodes;
      s := ne + 1;
      Lookup(fixp, a[s]);
      while connected[fixpIdx + a[s]] == 1
        invariant ne + 1 <= s <= t
        invariant 0 <= fixpIdx + a[s] < |connected| && (connected[fixpIdx + a[s]] == 1 <==> g.Conn(fixp, a[s]))
        invariant forall i | ne + 1 <= i < s :: g.Conn(fixp, v[i])
        decreases t - s
      {
        s := s + 1;
        Lookup(fixp, a[s]);
      }
    }

    /** Brings the candidate at s to the front of the cand range. */
    method Interchange(a: array<nat>, ne: int, ce: int, s: int, ghost v: seq<nat>, ghost c: seq<nat>)
      requires a[..] == v && Grows(c, v, ne, ce) && ne + 1 <= s <= ce
      modifies a
      ensures a[..] == Swapped(v, s, ne + 1) && Grows(c, a[..], ne, ce)
      ensures Swapped(v, s, ne + 1)[..ne + 1] == v[..ne + 1]
      ensures Elems(Swapped(v, s, ne + 1)[..ce + 1]) == Elems(v[..ce + 1])
      ensures Elems(Swapped(v, s, ne + 1)[ne + 1..ce + 1]) == Elems(v[ne + 1..ce + 1])
    {
      if s != ne + 1 {
        var p := a[s];
        a[s] := a[ne + 1];
        a[ne + 1] := p;
      }
      assert a[..] == Swapped(v, s, ne + 1);
      SwapKeeps(v, s, ne + 1, ce);
      forall i | 0 <= i <= ce ensures a[i] < numNodes {
        assert a[i] == v[if i == s then ne + 1 else if i == ne + 1 then s else i];
      }
    }

    /** One turn of the backtrack cycle: afterwards the cliques through the selected vertex are covered too. */
    method Turn(a: array<nat>, ne: int, ce: int, newV: array<nat>, cliques: CliqueList,
                ghost v: seq<nat>, ghost c: seq<nat>, ghost excluded: set<nat>, ghost n0: nat) returns (more: nat)
      requires a[..] == v && -1 <= nel < compsub.Length == numNodes && Stack() == c
      requires Grows(c, v, ne, ce) && ne < ce
      requires a != newV && a != compsub && newV != compsub && newV.Length == numNodes
      requires excluded <= Elems(v[..ne + 1]) && n0 <= |cliques.items|
      requires ListsExactly(cliques.items[n0..], CoveredBy(g, Elems(c), excluded, Elems(v[..ne + 1])))
      modifies this`nel, this`calls, compsub, newV, cliques
      ensures nel == old(nel) && Stack() == c
      ensures calls == old(calls) + more
      ensures n0 <= |cliques.items| && cliques.items[..n0] == old(cliques.items[..n0])
      ensures ListsExactly(cliques.items[n0..], CoveredBy(g, Elems(c), excluded, Elems(v[..ne + 1]) + {v[ne + 1]}))
      decreases ce - ne, 1
    {
      ghost var was, done, sel := cliques.items, Elems(v[..ne + 1]), v[ne + 1];
      assert a[..ne + 1] == v[..ne + 1];
      var newne, newce := FillNew(a, ne, ce, a[ne + 1], newV);
      ghost var newNot, newCand := Elems(newV[..newne + 1]), Elems(newV[newne + 1..newce + 1]);
      BranchReady(v, newV[..], ne, ce, newne, newce);
      more := Branch(a, ne, ce, newV, newne, newce, cliques);
      assert cliques.items[n0..] == was[n0..] + cliques.items[|was|..];
      BranchDone(g, Elems(c), excluded, done, sel, newNot, newCand, was[n0..], cliques.items[|was|..]);
      assert cliques.items[..n0] == cliques.items[..|was|][..n0];
    }

    /** The body of the backtrack cycle: one turn, then the next candidate disconnected from the pivot. */
    method Advance(a: array<nat>, ne: int, ce: int, knod: int, s0: int, fixp: nat, newV: array<nat>,
                   cliques: CliqueList, ghost v0: seq<nat>, ghost c: seq<nat>,
                   ghost w0: seq<nat>, ghost ne0: int, ghost n0: nat, ghost first: bool)
      returns (more: nat, ne': int, s: int, ghost v: seq<nat>)
      requires a[..] == v0 && -1 <= nel < compsub.Length == numNodes && Stack() == c
      requires Grows(c, v0, ne, ce) && Cycle(g, v0, ne, ce, knod, s0, fixp, first) && knod >= 1
      requires a != newV && a != compsub && newV != compsub && newV.Length == numNodes
      requires Kept(w0, ne0, ce, v0, ne) && n0 <= |cliques.items|
      requires ListsExactly(cliques.items[n0..],
                            CoveredBy(g, Elems(c), Elems(w0[..ne0 + 1]), Elems(v0[..ne + 1])))
      modifies this`nel, this`calls, compsub, newV, a, cliques
      ensures a[..] == v && nel == old(nel) && Stack() == c
      ensures calls == old(calls) + more
      ensures ne' == ne + 1 && Grows(c, v, ne', ce) && Cycle(g, v, ne', ce, knod - 1, s, fixp, false)
      ensures Kept(w0, ne0, ce, v, ne')
      ensures n0 <= |cliques.items| && cliques.items[..n0] == old(cliques.items[..n0])
      ensures ListsExactly(cliques.items[n0..],
                           CoveredBy(g, Elems(c), Elems(w0[..ne0 + 1]), Elems(v[..ne' + 1])))
      decreases ce - ne, 2
    {
      Interchange(a, ne, ce, s0, v0, c);
      v := Swapped(v0, s0, ne + 1);
      ne' := ne + 1;
      TurnKeeps(g, v0, ne, ce, knod, s0, fixp, first, w0, ne0, v, ne');
      more := Turn(a, ne, ce, newV, cliques, v, c, Elems(w0[..ne0 + 1]), n0);
      s := s0;
      if knod > 1 {
        s := NextDisconnected(a, ne', ce, fixp, v);
      }
      CycleNext(g, v, ne, ce, knod, fixp, first, s, ne');
    }

    /** Steps 1 to 5 for the pivot, if it is a candidate, and every candidate disconnected from it. */
    method BacktrackCycle(a: array<nat>, ne0: int, ce: int, knod0: int, s0: int, fixp: nat, newV: array<nat>,
                          cliques: CliqueList, ghost v0: seq<nat>, ghost first0: bool)
      returns (result: nat, ghost v: seq<nat>, ghost ne: int, ghost s: int)
      requires a[..] == v0 && Ready(v0, ne0, ce) && Cycle(g, v0, ne0, ce, knod0, s0, fixp, first0)
      requires a != newV && a != compsub && newV != compsub && newV.Length == numNodes
      modifies this`nel, this`calls, compsub, newV, a, cliques
      ensures nel == old(nel) && Stack() == old(Stack())
      ensures a[..] == v && Grows(Stack(), v, ne, ce) && Kept(v0, ne0, ce, v, ne)
      ensures Cycle(g, v, ne, ce, 0, s, fixp, false)
      ensures |old(cliques.items)| <= |cliques.items| && cliques.items[..|old(cliques.items)|] == old(cliques.items)
      ensures ListsExactly(cliques.items[|old(cliques.items)|..],
                           CoveredBy(g, Elems(Stack()), Elems(v0[..ne0 + 1]), Elems(v[..ne + 1])))
      ensures calls == old(calls) + result
      decreases ce - ne0, 3
    {
      result := 0;
      var i, knod, next := ne0, knod0, s0;
      ghost var stack, was, first := Stack(), cliques.items, first0;
      v := v0;
      EmptyCover(g, Elems(stack), Elems(v0[..ne0 + 1]), Elems(v0[..ne0 + 1]));
      assert was[|was|..] == [];
      while knod >= 1
        invariant a[..] == v && nel == old(nel) && Stack() == stack && compsub == old(compsub)
        invariant Grows(stack, v, i, ce)
        invariant Cycle(g, v, i, ce, knod, next, fixp, first)
        invariant Kept(v0, ne0, ce, v, i)
        invariant |was| <= |cliques.items| && cliques.items[..|was|] == was
        invariant ListsExactly(cliques.items[|was|..],
                               CoveredBy(g, Elems(stack), Elems(v0[..ne0 + 1]), Elems(v[..i + 1])))
        invariant calls == old(calls) + result
        decreases knod
      {
        var more;
        more, i, next, v := Advance(a, i, ce, knod, next, fixp, newV, cliques, v, stack, v0, ne0, |was|, first);
        result := result + more;
        first := false;
        knod := knod - 1;
      }
      ne, s := i, next;
    }

    /** Reports every maximal clique that grows the stack by candidates and avoids the not range, each once. */
    method Extend(a: array<nat>, ne0: int, ce: int, cliques: CliqueList) returns (result: nat)
      requires Ready(a[..], ne0, ce) && a != compsub
      modifies this`nel, this`calls, compsub, a, cliques
      ensures nel == old(nel) && Stack() == old(Stack())
      ensures a[ce + 1..] == old(a[ce + 1..]) && a[..ne0 + 1] == old(a[..ne0 + 1])
      ensures Distinct(a[..ce + 1]) && Elems(a[..ce + 1]) == old(Elems(a[..ce + 1]))
      ensures |old(cliques.items)| <= |cliques.items| && cliques.items[..|old(cliques.items)|] == old(cliques.items)
      ensures ListsExactly(cliques.items[|old(cliques.items)|..],
                           WantedBy(g, Elems(Stack()), old(Elems(a[..ne0 + 1]))))
      ensures calls == old(calls) + 1 + result
      decreases ce - ne0, 4
    {
      calls := calls + 1;
      var newV := new nat[numNodes];
      var minnod, nod, fixp, s := SelectPivot(a, ne0, ce);
      ghost var v0, was, v, ne, end := a[..], cliques.items, [], 0, 0;
      result, v, ne, end := BacktrackCycle(a, ne0, ce, minnod + nod, s, fixp, newV, cliques, v0, nod == 1);
      KeptEnd(v0, ne0, ce, v, ne);
      PivotEnds(g, v, ne, ce, end, fixp);
      AllCovered(g, Elems(Stack()), Elems(v0[..ne0 + 1]), Elems(v[..ne + 1]), Elems(v[ne + 1..ce + 1]), fixp,
                 cliques.items[|was|..]);
    }

    /** What the caller must pass: a square 0/1 matrix, symmetric, with every vertex connected to itself. */
    ghost predicate SquareSymmetric() {
      && |connected| == numNodes * numNodes
      && (forall p: nat, q: nat {:trigger Cell(numNodes, p, q)} | p < numNodes && q < numNodes ::
            && 0 <= Cell(numNodes, p, q) < |connected| && 0 <= Cell(numNodes, q, p) < |connected|
            && connected[Cell(numNodes, p, q)] in {0, 1}
            && connected[Cell(numNodes, p, q)] == connected[Cell(numNodes, q, p)]
            && (p == q ==> connected[Cell(numNodes, p, q)] == 1))
    }

    lemma MatrixRepresents()
      requires SquareSymmetric() && g == GraphOf(numNodes, connected)
      ensures Represents()
    {
      assert forall p: nat, q: nat {:trigger Cell(numNodes, p, q)} | p < numNodes && q < numNodes ::
          g.Conn(p, q) <==> connected[Cell(numNodes, p, q)] == 1;
      forall p, q ensures g.Conn(p, q) <==> g.Conn(q, p) {
        var a, b := Cell(numNodes, p, q), Cell(numNodes, q, p);
      }
      forall p: nat | p < numNodes ensures g.Conn(p, p) {
        var a := Cell(numNodes, p, p);
      }
    }

    /** Appends the maximal cliques of the graph to the caller's list: all of them, nothing else, each once. */
    method ComputeCliques(cliques: CliqueList) returns (result: nat)
      requires SquareSymmetric() && g == GraphOf(numNodes, connected)
      modifies this, cliques
      ensures |old(cliques.items)| <= |cliques.items| && cliques.items[..|old(cliques.items)|] == old(cliques.items)
      ensures numNodes >= 1 ==>
                ListsExactly(cliques.items[|old(cliques.items)|..], (k: set<nat>) => Maximal(g, k))
      ensures numNodes == 0 ==> cliques.items == old(cliques.items)
      ensures calls == old(calls) + 1 + result
    {
      MatrixRepresents();
      var all := AllVertices();
      compsub := new nat[numNodes];
      nel := -1;
      ghost var was := cliques.items;
      assert Stack() == [] && all[..numNodes] == all[..];
      TopReady(g, all[..numNodes]);
      result := Extend(all, -1, numNodes - 1, cliques);
      assert Stack() == [] && Elems<nat>([]) == {};
      if numNodes >= 1 {
        AtTop(g, cliques.items[|was|..]);
      } else {
        NothingAtTop(g, cliques.items[|was|..]);
        assert cliques.items == was + cliques.items[|was|..];
      }
    }

    method AllVertices() returns (all: array<nat>)
      ensures fresh(all) && all.Length == numNodes && forall j | 0 <= j < numNodes :: all[j] == j
    {
      all := new nat[numNodes];
      var i := 0;
      while i < numNodes
        invariant 0 <= i <= numNodes && forall j | 0 <= j < i :: all[j] == j
      {
        all[i] := i;
        i := i + 1;
      }
    }
  }
}
