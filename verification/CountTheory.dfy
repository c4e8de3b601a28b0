/** Nodes, edges and the arithmetic of partially counted edge lists, for the control flow graph. */
module CountTheory {

  datatype EdgeKind = Fallthru | DirectBranch | IndirectBranch | Return | Bypass | CfgEdge

  /** `measured`, `computed` and `guessed` are the three flags that each give an edge a count. */
  datatype Edge = Edge(source: nat, sink: nat, kind: EdgeKind, counter: int,
                       measured: bool, computed: bool, guessed: bool) {
    predicate HasCount() {
      measured || computed || guessed
    }

    function Computed(c: int): Edge {
      this.(counter := c, computed := true)
    }
  }

  /** Edges are named by their position; `incoming` and `outgoing` list them in the order they were added. */
  datatype Node = Node(counter: int, measured: bool, computed: bool, partial: bool, routineEntry: bool,
                       callSite: bool, cfgExit: bool, incoming: seq<nat>, outgoing: seq<nat>) {
    predicate HasCount() {
      measured || computed
    }

    function Computed(c: int): Node {
      this.(counter := c, computed := true)
    }

    function Raised(c: int): Node {
      this.(counter := counter + c)
    }
  }

  ghost predicate Within(l: seq<nat>, n: nat) {
    forall i | 0 <= i < |l| :: l[i] < n
  }

  ghost predicate Ids(l: seq<nat>, n: nat) {
    && Within(l, n)
    && (forall i, j | 0 <= i < j < |l| :: l[i] != l[j])
  }

  /** Every edge joins two nodes of the graph and is listed once at each end, and the lists hold nothing else. */
  ghost predicate WellFormed(ns: seq<Node>, es: seq<Edge>) {
    && (forall e | 0 <= e < |es| :: es[e].source < |ns| && es[e].sink < |ns|)
    && (forall v | 0 <= v < |ns| :: Ids(ns[v].incoming, |es|) && Ids(ns[v].outgoing, |es|))
    && (forall v, e: nat {:trigger e in ns[v].incoming} | 0 <= v < |ns| && e < |es| ::
          e in ns[v].incoming <==> es[e].sink == v)
    && (forall v, e: nat {:trigger e in ns[v].outgoing} | 0 <= v < |ns| && e < |es| ::
          e in ns[v].outgoing <==> es[e].source == v)
  }

  /** How many edges of the list have a count. */
  ghost function Counted(es: seq<Edge>, l: seq<nat>): nat
    requires Within(l, |es|)
  {
    if l == [] then 0 else (if es[l[0]].HasCount() then 1 else 0) + Counted(es, l[1..])
  }

  /** The sum of the counts in the list. */
  ghost function SumCounted(es: seq<Edge>, l: seq<nat>): int
    requires Within(l, |es|)
  {
    if l == [] then 0 else (if es[l[0]].HasCount() then es[l[0]].counter else 0) + SumCounted(es, l[1..])
  }

  /** What a flow on edges sends through the list, and through the edges of it that have no count. */
  ghost function Through(fe: seq<int>, l: seq<nat>): int
    requires Within(l, |fe|)
  {
    if l == [] then 0 else fe[l[0]] + Through(fe, l[1..])
  }

  ghost function ThroughRest(es: seq<Edge>, fe: seq<int>, l: seq<nat>): int
    requires |es| == |fe| && Within(l, |es|)
  {
    if l == [] then 0 else (if es[l[0]].HasCount() then 0 else fe[l[0]]) + ThroughRest(es, fe, l[1..])
  }

  lemma {:induction false} CountedBound(es: seq<Edge>, l: seq<nat>)
    requires Within(l, |es|)
    ensures Counted(es, l) <= |l|
    ensures Counted(es, l) == |l| <==> forall e | e in l :: es[e].HasCount()
  {
    if l != [] {
      CountedBound(es, l[1..]);
      assert forall e :: e in l <==> e == l[0] || e in l[1..];
    }
  }

  /** Edges outside the list do not matter. */
  lemma {:induction false} CountedSame(es: seq<Edge>, es': seq<Edge>, l: seq<nat>)
    requires Within(l, |es|) && Within(l, |es'|)
    requires forall e | e in l :: es[e].HasCount() == es'[e].HasCount() && es[e].counter == es'[e].counter
    ensures Counted(es, l) == Counted(es', l) && SumCounted(es, l) == SumCounted(es', l)
  {
    if l != [] {
      CountedSame(es, es', l[1..]);
    }
  }

  /** One edge of the list gets its count. */
  lemma {:induction false} CountedOne(es: seq<Edge>, l: seq<nat>, e: nat, c: int)
    requires Ids(l, |es|) && e in l && !es[e].HasCount()
    ensures Counted(es[e := es[e].Computed(c)], l) == Counted(es, l) + 1
    ensures SumCounted(es[e := es[e].Computed(c)], l) == SumCounted(es, l) + c
  {
    var es' := es[e := es[e].Computed(c)];
    if l[0] == e {
      CountedSame(es, es', l[1..]);
    } else {
      assert e in l[1..];
      CountedOne(es, l[1..], e, c);
    }
  }

  /** One edge of the list loses its count. */
  lemma {:induction false} CountedLess(es: seq<Edge>, l: seq<nat>, e: nat, was: Edge)
    requires Ids(l, |es|) && e in l && es[e].HasCount() && !was.HasCount()
    ensures Counted(es[e := was], l) == Counted(es, l) - 1
  {
    var es' := es[e := was];
    if l[0] == e {
      CountedSame(es, es', l[1..]);
    } else {
      assert e in l[1..];
      CountedLess(es, l[1..], e, was);
    }
  }

  lemma {:induction false} CountedAppend(es: seq<Edge>, l: seq<nat>, m: seq<nat>)
    requires Within(l, |es|) && Within(m, |es|)
    ensures Counted(es, l + m) == Counted(es, l) + Counted(es, m)
    ensures SumCounted(es, l + m) == SumCounted(es, l) + SumCounted(es, m)
  {
    if l == [] {
      assert l + m == m;
    } else {
      assert (l + m)[1..] == l[1..] + m;
      CountedAppend(es, l[1..], m);
    }
  }

  /** A flow that agrees with the counts splits into what is counted and the rest. */
  lemma {:induction false} FlowSplits(es: seq<Edge>, fe: seq<int>, l: seq<nat>)
    requires |es| == |fe| && Within(l, |es|)
    requires forall e | e in l :: fe[e] >= 0 && (es[e].HasCount() ==> es[e].counter == fe[e])
    ensures Through(fe, l) == SumCounted(es, l) + ThroughRest(es, fe, l)
    ensures ThroughRest(es, fe, l) >= 0
    ensures Counted(es, l) == |l| ==> ThroughRest(es, fe, l) == 0
  {
    CountedBound(es, l);
    if l != [] {
      CountedBound(es, l[1..]);
      FlowSplits(es, fe, l[1..]);
    }
  }

  /** With a single uncounted edge, the rest of the flow is what that edge carries. */
  lemma {:induction false} FlowOfLast(es: seq<Edge>, fe: seq<int>, l: seq<nat>, e: nat)
    requires |es| == |fe| && Ids(l, |es|) && e in l && !es[e].HasCount() && Counted(es, l) == |l| - 1
    ensures ThroughRest(es, fe, l) == fe[e]
    ensures forall d | d in l && d != e :: es[d].HasCount()
  {
    CountedBound(es, l[1..]);
    if l[0] == e {
      AllCountedRest(es, fe, l[1..]);
      assert forall d :: d in l <==> d == l[0] || d in l[1..];
    } else {
      assert e in l[1..];
      FlowOfLast(es, fe, l[1..], e);
      assert forall d :: d in l <==> d == l[0] || d in l[1..];
    }
  }

  lemma OnlyOpen(es: seq<Edge>, l: seq<nat>, e: nat)
    requires Ids(l, |es|) && e in l && !es[e].HasCount() && Counted(es, l) + 1 == |l|
    ensures forall d | d in l && d != e :: es[d].HasCount()
  {
    CountedOne(es, l, e, 0);
    CountedBound(es[e := es[e].Computed(0)], l);
  }

  lemma {:induction false} AllCountedRest(es: seq<Edge>, fe: seq<int>, l: seq<nat>)
    requires |es| == |fe| && Within(l, |es|) && Counted(es, l) == |l|
    ensures ThroughRest(es, fe, l) == 0
    ensures forall e | e in l :: es[e].HasCount()
  {
    CountedBound(es, l);
    if l != [] {
      CountedBound(es, l[1..]);
      AllCountedRest(es, fe, l[1..]);
    }
  }

  // ----- The in and out counters -----

  /** The two counter arrays hold, for every node, how many of its edges on that side have a count. */
  ghost predicate Exact(ns: seq<Node>, es: seq<Edge>, inE: seq<int>, outE: seq<int>)
    requires WellFormed(ns, es)
  {
    && |inE| == |outE| == |ns|
    && forall v | 0 <= v < |ns| ::
         && inE[v] == Counted(es, ns[v].incoming)
         && outE[v] == Counted(es, ns[v].outgoing)
  }

  ghost predicate SameLists(ns: seq<Node>, ns': seq<Node>) {
    && |ns| == |ns'|
    && forall v | 0 <= v < |ns| :: ns'[v].incoming == ns[v].incoming && ns'[v].outgoing == ns[v].outgoing
  }

  ghost predicate SameEnds(es: seq<Edge>, es': seq<Edge>) {
    && |es| == |es'|
    && forall e | 0 <= e < |es| :: es'[e].source == es[e].source && es'[e].sink == es[e].sink
  }

  lemma KeepShape(ns: seq<Node>, es: seq<Edge>, ns': seq<Node>, es': seq<Edge>)
    requires WellFormed(ns, es) && SameLists(ns, ns') && SameEnds(es, es')
    ensures WellFormed(ns', es')
  {
  }

  lemma KeepExact(ns: seq<Node>, es: seq<Edge>, inE: seq<int>, outE: seq<int>, ns': seq<Node>)
    requires WellFormed(ns, es) && Exact(ns, es, inE, outE) && SameLists(ns, ns')
    ensures WellFormed(ns', es) && Exact(ns', es, inE, outE)
  {
    KeepShape(ns, es, ns', es);
  }

  lemma MarkExact(ns: seq<Node>, es: seq<Edge>, inE: seq<int>, outE: seq<int>, e: nat, c: int)
    requires WellFormed(ns, es) && Exact(ns, es, inE, outE) && e < |es| && !es[e].HasCount()
    ensures WellFormed(ns, es[e := es[e].Computed(c)])
    ensures Exact(ns, es[e := es[e].Computed(c)],
                  inE[es[e].sink := inE[es[e].sink] + 1], outE[es[e].source := outE[es[e].source] + 1])
  {
    var es' := es[e := es[e].Computed(c)];
    KeepShape(ns, es, ns, es');
    forall v | 0 <= v < |ns|
      ensures Counted(es', ns[v].incoming) == Counted(es, ns[v].incoming) + if v == es[e].sink then 1 else 0
      ensures Counted(es', ns[v].outgoing) == Counted(es, ns[v].outgoing) + if v == es[e].source then 1 else 0
    {
      if v == es[e].sink {
        CountedOne(es, ns[v].incoming, e, c);
      } else {
        CountedSame(es, es', ns[v].incoming);
      }
      if v == es[e].source {
        CountedOne(es, ns[v].outgoing, e, c);
      } else {
        CountedSame(es, es', ns[v].outgoing);
      }
    }
  }

  lemma UnmarkExact(ns: seq<Node>, es: seq<Edge>, inE: seq<int>, outE: seq<int>, e: nat, was: Edge)
    requires WellFormed(ns, es) && Exact(ns, es, inE, outE) && e < |es| && es[e].HasCount() && !was.HasCount()
    requires was.source == es[e].source && was.sink == es[e].sink
    ensures WellFormed(ns, es[e := was])
    ensures Exact(ns, es[e := was], inE[was.sink := inE[was.sink] - 1], outE[was.source := outE[was.source] - 1])
  {
    var es' := es[e := was];
    KeepShape(ns, es, ns, es');
    forall v | 0 <= v < |ns|
      ensures Counted(es', ns[v].incoming) == Counted(es, ns[v].incoming) - if v == was.sink then 1 else 0
      ensures Counted(es', ns[v].outgoing) == Counted(es, ns[v].outgoing) - if v == was.source then 1 else 0
    {
      if v == was.sink {
        CountedLess(es, ns[v].incoming, e, was);
      } else {
        CountedSame(es, es', ns[v].incoming);
      }
      if v == was.source {
        CountedLess(es, ns[v].outgoing, e, was);
      } else {
        CountedSame(es, es', ns[v].outgoing);
      }
    }
  }

  /** The nodes once edge number `e` from s to t has been appended to the two lists. */
  function Linked(ns: seq<Node>, e: nat, s: nat, t: nat): (r: seq<Node>)
    requires s < |ns| && t < |ns|
    ensures |r| == |ns|
  {
    var ns1 := ns[s := ns[s].(outgoing := ns[s].outgoing + [e])];
    ns1[t := ns1[t].(incoming := ns1[t].incoming + [e])]
  }

  lemma LinkedAt(ns: seq<Node>, e: nat, s: nat, t: nat)
    requires s < |ns| && t < |ns|
    ensures forall v | 0 <= v < |ns| ::
              && Linked(ns, e, s, t)[v].incoming == ns[v].incoming + (if v == t then [e] else [])
              && Linked(ns, e, s, t)[v].outgoing == ns[v].outgoing + (if v == s then [e] else [])
              && Linked(ns, e, s, t)[v] == ns[v].(incoming := Linked(ns, e, s, t)[v].incoming,
                                                   outgoing := Linked(ns, e, s, t)[v].outgoing)
  {
  }

  lemma AppendIds(l: seq<nat>, n: nat)
    requires Ids(l, n)
    ensures Ids(l, n + 1) && Ids(l + [n], n + 1) && n !in l
  {
  }

  lemma AppendListed(ns: seq<Node>, es: seq<Edge>, n: Edge, v: nat, e: nat)
    requires WellFormed(ns, es) && n.source < |ns| && n.sink < |ns| && v < |ns| && e < |es| + 1
    ensures e in Linked(ns, |es|, n.source, n.sink)[v].incoming <==> (es + [n])[e].sink == v
    ensures e in Linked(ns, |es|, n.source, n.sink)[v].outgoing <==> (es + [n])[e].source == v
  {
    LinkedAt(ns, |es|, n.source, n.sink);
    AppendIds(ns[v].incoming, |es|);
    AppendIds(ns[v].outgoing, |es|);
    assert e < |es| ==> (e in ns[v].incoming <==> es[e].sink == v) && (e in ns[v].outgoing <==> es[e].source == v);
  }

  lemma {:induction false} AppendShape(ns: seq<Node>, es: seq<Edge>, n: Edge)
    requires WellFormed(ns, es) && n.source < |ns| && n.sink < |ns|
    ensures WellFormed(Linked(ns, |es|, n.source, n.sink), es + [n])
  {
    var ns', es' := Linked(ns, |es|, n.source, n.sink), es + [n];
    LinkedAt(ns, |es|, n.source, n.sink);
    forall v | 0 <= v < |ns| ensures Ids(ns'[v].incoming, |es'|) && Ids(ns'[v].outgoing, |es'|) {
      AppendIds(ns[v].incoming, |es|);
      AppendIds(ns[v].outgoing, |es|);
      assert ns[v].incoming + [] == ns[v].incoming && ns[v].outgoing + [] == ns[v].outgoing;
    }
    forall v, e: nat | 0 <= v < |ns| && e < |es'| ensures e in ns'[v].incoming <==> es'[e].sink == v {
      AppendListed(ns, es, n, v, e);
    }
    forall v, e: nat | 0 <= v < |ns| && e < |es'| ensures e in ns'[v].outgoing <==> es'[e].source == v {
      AppendListed(ns, es, n, v, e);
    }
  }

  /** A fresh, uncounted edge changes no counts and no sums. */
  lemma {:induction false} AppendSums(ns: seq<Node>, es: seq<Edge>, n: Edge, v: nat)
    requires WellFormed(ns, es) && n.source < |ns| && n.sink < |ns| && !n.HasCount() && v < |ns|
    requires WellFormed(Linked(ns, |es|, n.source, n.sink), es + [n])
    ensures Counted(es + [n], Linked(ns, |es|, n.source, n.sink)[v].incoming) == Counted(es, ns[v].incoming)
    ensures Counted(es + [n], Linked(ns, |es|, n.source, n.sink)[v].outgoing) == Counted(es, ns[v].outgoing)
    ensures SumCounted(es + [n], Linked(ns, |es|, n.source, n.sink)[v].incoming) == SumCounted(es, ns[v].incoming)
    ensures SumCounted(es + [n], Linked(ns, |es|, n.source, n.sink)[v].outgoing) == SumCounted(es, ns[v].outgoing)
  {
    LinkedAt(ns, |es|, n.source, n.sink);
    AppendOne(es, n, ns[v].incoming);
    AppendOne(es, n, ns[v].outgoing);
    assert ns[v].incoming + [] == ns[v].incoming && ns[v].outgoing + [] == ns[v].outgoing;
  }

  lemma {:induction false} AppendOne(es: seq<Edge>, n: Edge, l: seq<nat>)
    requires Within(l, |es|) && !n.HasCount()
    ensures Within(l, |es + [n]|)
    ensures Counted(es + [n], l) == Counted(es, l) && SumCounted(es + [n], l) == SumCounted(es, l)
    ensures Counted(es + [n], l + [|es|]) == Counted(es, l) && SumCounted(es + [n], l + [|es|]) == SumCounted(es, l)
  {
    CountedSame(es, es + [n], l);
    CountedAppend(es + [n], l, [|es|]);
  }

  lemma {:induction false} AppendExact(ns: seq<Node>, es: seq<Edge>, inE: seq<int>, outE: seq<int>, n: Edge)
    requires WellFormed(ns, es) && n.source < |ns| && n.sink < |ns| && !n.HasCount() && Exact(ns, es, inE, outE)
    ensures WellFormed(Linked(ns, |es|, n.source, n.sink), es + [n])
    ensures Exact(Linked(ns, |es|, n.source, n.sink), es + [n], inE, outE)
  {
    AppendShape(ns, es, n);
    forall v: nat | v < |ns| {
      AppendSums(ns, es, n, v);
    }
  }

  // ----- What drives termination -----

  ghost function Uncounted(es: seq<Edge>): nat {
    |set e | 0 <= e < |es| && !es[e].HasCount()|
  }

  ghost function Unflagged(ns: seq<Node>): nat {
    |set v | 0 <= v < |ns| && !ns[v].measured|
  }

  ghost predicate SameFlags(ns: seq<Node>, ns': seq<Node>) {
    && |ns| == |ns'|
    && forall v | 0 <= v < |ns| :: ns'[v].measured == ns[v].measured
  }

  lemma UnflaggedSame(ns: seq<Node>, ns': seq<Node>)
    requires SameFlags(ns, ns')
    ensures Unflagged(ns') == Unflagged(ns)
  {
    assert (set v | 0 <= v < |ns| && !ns[v].measured) == (set v | 0 <= v < |ns'| && !ns'[v].measured);
  }

  lemma UnflaggedLess(ns: seq<Node>, v: nat, n: Node)
    requires v < |ns| && !ns[v].measured && n.measured
    ensures Unflagged(ns[v := n]) < Unflagged(ns)
  {
    var ns' := ns[v := n];
    assert (set u | 0 <= u < |ns'| && !ns'[u].measured) == (set u | 0 <= u < |ns| && !ns[u].measured) - {v};
  }

  lemma UncountedMark(es: seq<Edge>, e: nat, c: int)
    requires e < |es|
    ensures Uncounted(es[e := es[e].Computed(c)]) == Uncounted(es) - if es[e].HasCount() then 0 else 1
  {
    var es' := es[e := es[e].Computed(c)];
    assert (set d | 0 <= d < |es'| && !es'[d].HasCount()) == (set d | 0 <= d < |es| && !es[d].HasCount()) - {e};
  }

  lemma UncountedAppend(es: seq<Edge>, n: Edge)
    requires !n.HasCount()
    ensures Uncounted(es + [n]) == Uncounted(es) + 1
  {
    var es' := es + [n];
    assert (set d | 0 <= d < |es'| && !es'[d].HasCount()) == (set d | 0 <= d < |es| && !es[d].HasCount()) + {|es|};
  }

  /** A fresh edge that is counted at once: only the two lists it joins gain, and nothing is left uncounted. */
  lemma {:induction false} FreshCounted(ns: seq<Node>, es: seq<Edge>, n: Edge, c: int)
    requires WellFormed(ns, es) && n.source < |ns| && n.sink < |ns| && !n.HasCount()
    ensures var ns', es' := Linked(ns, |es|, n.source, n.sink), (es + [n])[|es| := n.Computed(c)];
            && WellFormed(ns', es') && Uncounted(es') == Uncounted(es)
            && SumCounted(es', ns'[n.sink].incoming) == SumCounted(es, ns[n.sink].incoming) + c
            && SumCounted(es', ns'[n.source].outgoing) == SumCounted(es, ns[n.source].outgoing) + c
            && SameFlags(ns, ns')
  {
    var ns', es1 := Linked(ns, |es|, n.source, n.sink), es + [n];
    AppendShape(ns, es, n);
    KeepShape(ns', es1, ns', es1[|es| := n.Computed(c)]);
    LinkedAt(ns, |es|, n.source, n.sink);
    AppendSums(ns, es, n, n.sink);
    AppendSums(ns, es, n, n.source);
    CountedOne(es1, ns'[n.sink].incoming, |es|, c);
    CountedOne(es1, ns'[n.source].outgoing, |es|, c);
    UncountedAppend(es, n);
    UncountedMark(es1, |es|, c);
  }

  /** Counting an edge of the list a second time replaces its count. */
  lemma {:induction false} Recounted(es: seq<Edge>, l: seq<nat>, e: nat, c: int)
    requires Ids(l, |es|) && e in l && es[e].HasCount()
    ensures Counted(es[e := es[e].Computed(c)], l) == Counted(es, l)
    ensures SumCounted(es[e := es[e].Computed(c)], l) == SumCounted(es, l) - es[e].counter + c
  {
    var es' := es[e := es[e].Computed(c)];
    if l[0] == e {
      CountedSame(es, es', l[1..]);
    } else {
      assert e in l[1..];
      Recounted(es, l[1..], e, c);
    }
  }

  /** Entering an edge that already has a count overwrites that count and puts the counters of its ends off by one. */
  lemma {:induction false} StaleCounted(ns: seq<Node>, es: seq<Edge>, inE: seq<int>, outE: seq<int>, e: nat, c: int)
    requires WellFormed(ns, es) && e < |es| && es[e].HasCount() && |inE| == |outE| == |ns|
    ensures WellFormed(ns, es[e := es[e].Computed(c)]) && Uncounted(es[e := es[e].Computed(c)]) == Uncounted(es)
    ensures SumCounted(es[e := es[e].Computed(c)], ns[es[e].source].outgoing) ==
            SumCounted(es, ns[es[e].source].outgoing) - es[e].counter + c
    ensures Exact(ns, es, inE, outE) ==>
              !Exact(ns, es[e := es[e].Computed(c)],
                     inE[es[e].sink := inE[es[e].sink] + 1], outE[es[e].source := outE[es[e].source] + 1])
  {
    KeepShape(ns, es, ns, es[e := es[e].Computed(c)]);
    Recounted(es, ns[es[e].source].outgoing, e, c);
    UncountedMark(es, e, c);
  }
}
