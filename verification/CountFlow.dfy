/** What propagation keeps: for any counts, and for those that come from a real flow. */
module CountFlow {
  import opened CountTheory

  /** A work list entry; `key` is how many edges of the node were uncounted when it was queued. */
  datatype Entry = Entry(node: nat, key: int)

  /** An execution: how often every block ran and every edge was taken. */
  datatype Flow = Flow(node: seq<int>, edge: seq<int>)

  /** The graph, its counts and the two work lists. */
  datatype Snapshot = Snapshot(ns: seq<Node>, es: seq<Edge>, inQ: seq<Entry>, outQ: seq<Entry>)

  ghost predicate Queued(q: seq<Entry>, v: nat) {
    exists i :: 0 <= i < |q| && q[i].node == v
  }

  ghost predicate QueueOf(q: seq<Entry>, n: nat) {
    forall i | 0 <= i < |q| :: q[i].node < n
  }

  /** The flow is conserved at every node, and a call always has somewhere to go. */
  ghost predicate Conserved(ns: seq<Node>, es: seq<Edge>, f: Flow)
    requires WellFormed(ns, es)
  {
    && |f.node| == |ns| && |f.edge| == |es|
    && (forall v | 0 <= v < |ns| :: f.node[v] >= 0)
    && (forall e | 0 <= e < |es| :: f.edge[e] >= 0)
    && (forall v | 0 <= v < |ns| :: ns[v].incoming != [] ==> f.node[v] == Through(f.edge, ns[v].incoming))
    && (forall v | 0 <= v < |ns| :: ns[v].outgoing != [] ==> f.node[v] == Through(f.edge, ns[v].outgoing))
    && (forall v | 0 <= v < |ns| :: ns[v].callSite ==> ns[v].outgoing != [])
  }

  /** Every count is the flow's, and no partial count exceeds it. */
  ghost predicate Agrees(ns: seq<Node>, es: seq<Edge>, f: Flow)
    requires WellFormed(ns, es)
  {
    && Conserved(ns, es, f)
    && (forall v | 0 <= v < |ns| :: ns[v].HasCount() ==> ns[v].counter == f.node[v])
    && (forall v | 0 <= v < |ns| :: ns[v].partial ==> ns[v].counter <= f.node[v])
    && (forall e | 0 <= e < |es| :: es[e].HasCount() ==> es[e].counter == f.edge[e])
  }

  /** The incoming side of v offers no deduction that is not queued. */
  ghost predicate InSettled(s: Snapshot, v: nat)
    requires WellFormed(s.ns, s.es) && v < |s.ns|
  {
    var c, l := Counted(s.es, s.ns[v].incoming), s.ns[v].incoming;
    if s.ns[v].HasCount() then c + 1 == |l| ==> Queued(s.inQ, v) else l == [] || c < |l|
  }

  /** The same for the outgoing side, where calls are held back on purpose. */
  ghost predicate OutSettled(s: Snapshot, v: nat)
    requires WellFormed(s.ns, s.es) && v < |s.ns|
  {
    var c, l := Counted(s.es, s.ns[v].outgoing), s.ns[v].outgoing;
    s.ns[v].callSite || if s.ns[v].HasCount() then c + 1 == |l| ==> Queued(s.outQ, v) else l == [] || c < |l|
  }

  ghost predicate InReady(s: Snapshot, v: nat)
    requires WellFormed(s.ns, s.es) && v < |s.ns|
  {
    s.ns[v].HasCount() && s.ns[v].incoming != [] && Counted(s.es, s.ns[v].incoming) + 1 >= |s.ns[v].incoming|
  }

  ghost predicate OutReady(s: Snapshot, v: nat)
    requires WellFormed(s.ns, s.es) && v < |s.ns|
  {
    s.ns[v].HasCount() && Counted(s.es, s.ns[v].outgoing) + 1 >= |s.ns[v].outgoing|
  }

  /** The queues only hold nodes that can be processed. */
  ghost predicate QueuesReady(s: Snapshot)
    requires WellFormed(s.ns, s.es)
  {
    && QueueOf(s.inQ, |s.ns|) && QueueOf(s.outQ, |s.ns|)
    && (forall i | 0 <= i < |s.inQ| :: InReady(s, s.inQ[i].node))
    && (forall i | 0 <= i < |s.outQ| :: OutReady(s, s.outQ[i].node))
  }

  /** No deduction is left unqueued, apart from the in sides of `xin` and the out sides of `xout`. */
  ghost predicate Settled(s: Snapshot, xin: set<nat>, xout: set<nat>) {
    && WellFormed(s.ns, s.es) && QueuesReady(s)
    && (forall v: nat | v < |s.ns| && v !in xin :: InSettled(s, v))
    && (forall v: nat | v < |s.ns| && v !in xout :: OutSettled(s, v))
  }

  /** The invariant of propagation: settled so far, and all counts as the flow f would have them. */
  ghost predicate Calm(s: Snapshot, f: Flow, xin: set<nat>, xout: set<nat>) {
    Settled(s, xin, xout) && Agrees(s.ns, s.es, f)
  }

  /** Kirchhoff's law on a list: the residual is the flow through the uncounted edges. */
  lemma Residual(ns: seq<Node>, es: seq<Edge>, f: Flow, v: nat, l: seq<nat>)
    requires WellFormed(ns, es) && Agrees(ns, es, f) && v < |ns| && ns[v].HasCount()
    requires (l == ns[v].incoming || l == ns[v].outgoing) && l != []
    ensures ns[v].counter - SumCounted(es, l) >= 0
    ensures Counted(es, l) == |l| ==> ns[v].counter == SumCounted(es, l)
    ensures forall e | e in l && !es[e].HasCount() && Counted(es, l) == |l| - 1 ::
              ns[v].counter - SumCounted(es, l) == f.edge[e]
  {
    FlowSplits(es, f.edge, l);
    forall e | e in l && !es[e].HasCount() && Counted(es, l) == |l| - 1
      ensures ThroughRest(es, f.edge, l) == f.edge[e]
    {
      FlowOfLast(es, f.edge, l, e);
    }
  }

  /** A fully counted side sums to the flow of its node. */
  lemma FullSide(ns: seq<Node>, es: seq<Edge>, f: Flow, v: nat, l: seq<nat>)
    requires WellFormed(ns, es) && Agrees(ns, es, f) && v < |ns|
    requires (l == ns[v].incoming || l == ns[v].outgoing) && l != [] && Counted(es, l) == |l|
    ensures SumCounted(es, l) == f.node[v]
  {
    FlowSplits(es, f.edge, l);
  }

  /** A node may take over the flow's count. */
  lemma SetAgrees(ns: seq<Node>, es: seq<Edge>, f: Flow, v: nat, c: int)
    requires WellFormed(ns, es) && Agrees(ns, es, f) && v < |ns| && c == f.node[v]
    ensures WellFormed(ns[v := ns[v].Computed(c)], es) && Agrees(ns[v := ns[v].Computed(c)], es, f)
  {
    KeepShape(ns, es, ns[v := ns[v].Computed(c)], es);
  }

  lemma MarkCounts(ns: seq<Node>, es: seq<Edge>, e: nat, c: int)
    requires WellFormed(ns, es) && e < |es| && !es[e].HasCount()
    ensures WellFormed(ns, es[e := es[e].Computed(c)])
    ensures forall v | 0 <= v < |ns| ::
              && Counted(es[e := es[e].Computed(c)], ns[v].incoming) ==
                 Counted(es, ns[v].incoming) + (if v == es[e].sink then 1 else 0)
              && Counted(es[e := es[e].Computed(c)], ns[v].outgoing) ==
                 Counted(es, ns[v].outgoing) + (if v == es[e].source then 1 else 0)
  {
    var inE := seq(|ns|, v requires 0 <= v < |ns| => Counted(es, ns[v].incoming));
    var outE := seq(|ns|, v requires 0 <= v < |ns| => Counted(es, ns[v].outgoing));
    MarkExact(ns, es, inE, outE, e, c);
  }

  /** Counting an edge disturbs only its two ends. */
  lemma SettledMark(s: Snapshot, e: nat, c: int)
    requires Settled(s, {}, {}) && e < |s.es| && !s.es[e].HasCount()
    ensures Settled(s.(es := s.es[e := s.es[e].Computed(c)]), {s.es[e].sink}, {s.es[e].source})
  {
    var s' := s.(es := s.es[e := s.es[e].Computed(c)]);
    MarkCounts(s.ns, s.es, e, c);
    forall v: nat | v < |s.ns| && v != s.es[e].sink ensures InSettled(s', v) {
      assert InSettled(s, v);
    }
    forall v: nat | v < |s.ns| && v != s.es[e].source ensures OutSettled(s', v) {
      assert OutSettled(s, v);
    }
    forall i | 0 <= i < |s.inQ| ensures InReady(s', s.inQ[i].node) {
      assert InReady(s, s.inQ[i].node);
    }
    forall i | 0 <= i < |s.outQ| ensures OutReady(s', s.outQ[i].node) {
      assert OutReady(s, s.outQ[i].node);
    }
  }

  /** Giving a node a count disturbs only that node. */
  lemma SettledSet(s: Snapshot, xin: set<nat>, xout: set<nat>, v: nat, c: int)
    requires Settled(s, xin, xout) && v < |s.ns|
    ensures Settled(s.(ns := s.ns[v := s.ns[v].Computed(c)]), xin + {v}, xout + {v})
  {
    var s' := s.(ns := s.ns[v := s.ns[v].Computed(c)]);
    KeepShape(s.ns, s.es, s'.ns, s.es);
    forall w: nat | w < |s.ns| && w !in xin + {v} ensures InSettled(s', w) {
      assert InSettled(s, w);
    }
    forall w: nat | w < |s.ns| && w !in xout + {v} ensures OutSettled(s', w) {
      assert OutSettled(s, w);
    }
    forall i | 0 <= i < |s.inQ| ensures InReady(s', s.inQ[i].node) {
      assert InReady(s, s.inQ[i].node);
    }
    forall i | 0 <= i < |s.outQ| ensures OutReady(s', s.outQ[i].node) {
      assert OutReady(s, s.outQ[i].node);
    }
  }

  /** Where a multiset ordered by key puts a new entry: after the entries with a key no larger. */
  function UpperBound(q: seq<Entry>, key: int): (u: nat)
    ensures u <= |q|
    ensures forall i | 0 <= i < u :: q[i].key <= key
    ensures u < |q| ==> key < q[u].key
  {
    if q == [] || key < q[0].key then 0 else 1 + UpperBound(q[1..], key)
  }

  function Inserted(q: seq<Entry>, u: nat, e: Entry): seq<Entry>
    requires u <= |q|
  {
    q[..u] + [e] + q[u..]
  }

  lemma InsertedQueued(q: seq<Entry>, u: nat, e: Entry)
    requires u <= |q|
    ensures Queued(Inserted(q, u, e), e.node)
    ensures forall v: nat :: Queued(q, v) ==> Queued(Inserted(q, u, e), v)
    ensures forall i | 0 <= i < |q| + 1 ::
              Inserted(q, u, e)[i] == if i < u then q[i] else if i == u then e else q[i - 1]
  {
    var q' := Inserted(q, u, e);
    assert q'[u] == e;
    forall v: nat | Queued(q, v) ensures Queued(q', v) {
      var i :| 0 <= i < |q| && q[i].node == v;
      assert q'[if i < u then i else i + 1].node == v;
    }
  }

  lemma SettledInsertIn(s: Snapshot, xin: set<nat>, xout: set<nat>, u: nat, e: Entry)
    requires Settled(s, xin, xout) && u <= |s.inQ| && e.node < |s.ns| && InReady(s, e.node)
    ensures Settled(s.(inQ := Inserted(s.inQ, u, e)), xin, xout)
    ensures Queued(Inserted(s.inQ, u, e), e.node)
  {
    var s' := s.(inQ := Inserted(s.inQ, u, e));
    InsertedQueued(s.inQ, u, e);
    forall w: nat | w < |s.ns| && w !in xin ensures InSettled(s', w) {
      assert InSettled(s, w);
    }
    forall w: nat | w < |s.ns| && w !in xout ensures OutSettled(s', w) {
      assert OutSettled(s, w);
    }
    forall i | 0 <= i < |s'.inQ| ensures s'.inQ[i].node < |s.ns| && InReady(s', s'.inQ[i].node) {
      assert i != u ==> InReady(s, s.inQ[if i < u then i else i - 1].node);
    }
    forall i | 0 <= i < |s.outQ| ensures OutReady(s', s.outQ[i].node) {
      assert OutReady(s, s.outQ[i].node);
    }
  }

  lemma SettledInsertOut(s: Snapshot, xin: set<nat>, xout: set<nat>, u: nat, e: Entry)
    requires Settled(s, xin, xout) && u <= |s.outQ| && e.node < |s.ns| && OutReady(s, e.node)
    ensures Settled(s.(outQ := Inserted(s.outQ, u, e)), xin, xout)
    ensures Queued(Inserted(s.outQ, u, e), e.node)
  {
    var s' := s.(outQ := Inserted(s.outQ, u, e));
    InsertedQueued(s.outQ, u, e);
    forall w: nat | w < |s.ns| && w !in xin ensures InSettled(s', w) {
      assert InSettled(s, w);
    }
    forall w: nat | w < |s.ns| && w !in xout ensures OutSettled(s', w) {
      assert OutSettled(s, w);
    }
    forall i | 0 <= i < |s'.outQ| ensures s'.outQ[i].node < |s.ns| && OutReady(s', s'.outQ[i].node) {
      assert i != u ==> OutReady(s, s.outQ[if i < u then i else i - 1].node);
    }
    forall i | 0 <= i < |s.inQ| ensures InReady(s', s.inQ[i].node) {
      assert InReady(s, s.inQ[i].node);
    }
  }

  function Erased(q: seq<Entry>, i: nat): seq<Entry>
    requires i < |q|
  {
    q[..i] + q[i + 1..]
  }

  lemma ErasedQueued(q: seq<Entry>, i: nat)
    requires i < |q|
    ensures forall v: nat :: v != q[i].node && Queued(q, v) ==> Queued(Erased(q, i), v)
    ensures forall j | 0 <= j < |q| - 1 :: Erased(q, i)[j] == q[if j < i then j else j + 1]
  {
    var q' := Erased(q, i);
    forall v: nat | v != q[i].node && Queued(q, v) ensures Queued(q', v) {
      var j :| 0 <= j < |q| && q[j].node == v;
      assert q'[if j < i then j else j - 1].node == v;
    }
  }

  /** A processed node may leave the in queue once its incoming side is complete. */
  lemma SettledEraseIn(s: Snapshot, i: nat)
    requires Settled(s, {}, {}) && i < |s.inQ|
    requires Counted(s.es, s.ns[s.inQ[i].node].incoming) == |s.ns[s.inQ[i].node].incoming|
    ensures Settled(s.(inQ := Erased(s.inQ, i)), {}, {})
  {
    var s' := s.(inQ := Erased(s.inQ, i));
    ErasedQueued(s.inQ, i);
    forall w: nat | w < |s.ns| ensures InSettled(s', w) && OutSettled(s', w) {
      assert InSettled(s, w) && OutSettled(s, w);
    }
    forall j | 0 <= j < |s'.inQ| ensures s'.inQ[j].node < |s.ns| && InReady(s', s'.inQ[j].node) {
      assert InReady(s, s.inQ[if j < i then j else j + 1].node);
    }
    forall j | 0 <= j < |s.outQ| ensures OutReady(s', s.outQ[j].node) {
      assert OutReady(s, s.outQ[j].node);
    }
  }

  /** A processed node may leave the out queue once its outgoing side is complete, and a call always may. */
  lemma SettledEraseOut(s: Snapshot, i: nat)
    requires Settled(s, {}, {}) && i < |s.outQ|
    requires s.ns[s.outQ[i].node].callSite ||
             Counted(s.es, s.ns[s.outQ[i].node].outgoing) == |s.ns[s.outQ[i].node].outgoing|
    ensures Settled(s.(outQ := Erased(s.outQ, i)), {}, {})
  {
    var s' := s.(outQ := Erased(s.outQ, i));
    ErasedQueued(s.outQ, i);
    forall w: nat | w < |s.ns| ensures InSettled(s', w) && OutSettled(s', w) {
      assert InSettled(s, w) && OutSettled(s, w);
    }
    forall j | 0 <= j < |s'.outQ| ensures s'.outQ[j].node < |s.ns| && OutReady(s', s'.outQ[j].node) {
      assert OutReady(s, s.outQ[if j < i then j else j + 1].node);
    }
    forall j | 0 <= j < |s.inQ| ensures InReady(s', s.inQ[j].node) {
      assert InReady(s, s.inQ[j].node);
    }
  }

  // ----- One propagation step, as a function of the snapshot -----

  /** A counted call, all of whose outgoing edges are counted, does not match their sum. */
  ghost predicate CallTrouble(s: Snapshot, src: nat, nn: nat)
    requires WellFormed(s.ns, s.es) && src < |s.ns| && nn < |s.ns|
  {
    && s.ns[src].callSite && s.ns[nn].measured && !s.ns[nn].partial && s.ns[src].HasCount()
    && Counted(s.es, s.ns[src].outgoing) == |s.ns[src].outgoing|
    && s.ns[src].counter != SumCounted(s.es, s.ns[src].outgoing)
  }

  /** There already is an edge of this kind from s to t. */
  ghost predicate Joined(ns: seq<Node>, es: seq<Edge>, s: nat, t: nat, kind: EdgeKind)
    requires WellFormed(ns, es) && s < |ns|
  {
    exists i :: 0 <= i < |ns[s].outgoing| && es[ns[s].outgoing[i]].sink == t && es[ns[s].outgoing[i]].kind == kind
  }

  ghost predicate ReturnEdge(s: Snapshot, src: nat, exit: nat, e: nat)
    requires WellFormed(s.ns, s.es) && src < |s.ns|
  {
    e < |s.es| && s.es[e].source == src && s.es[e].sink == exit && s.es[e].kind == Return
  }

  /** The calls that never came back, c of them, leave through a return edge: one that was there already gets that
      count instead of its own, else one is added. */
  ghost predicate ReturnRepaired(s: Snapshot, es: seq<Edge>, exit: nat, src: nat, c: int)
    requires WellFormed(s.ns, s.es) && src < |s.ns|
  {
    if Joined(s.ns, s.es, src, exit, Return)
    then exists e: nat :: ReturnEdge(s, src, exit, e) && es == s.es[e := s.es[e].Computed(c)]
    else es == s.es + [Edge(src, exit, Return, c, false, true, false)]
  }

  ghost predicate CountKept(n: Node, n': Node) {
    n'.counter == n.counter && n'.HasCount() == n.HasCount()
  }

  /** c more executions come into the exit over a fresh edge, and only the exit learns of them: a count it has grows by
      as many, and when it has none but all that comes in is counted, it gets the sum. */
  ghost predicate ExitGains(s: Snapshot, ns: seq<Node>, es: seq<Edge>, exit: nat, c: int)
    requires WellFormed(s.ns, s.es)
  {
    && exit < |s.ns| == |ns| && Within(ns[exit].incoming, |es|)
    && (forall u | 0 <= u < |ns| && u != exit :: CountKept(s.ns[u], ns[u]))
    && SumCounted(es, ns[exit].incoming) == SumCounted(s.es, s.ns[exit].incoming) + c
    && ExitCounts(s.ns[exit], ns[exit], SumCounted(es, ns[exit].incoming), c,
                  Counted(s.es, s.ns[exit].incoming) == |s.ns[exit].incoming|)
  }

  ghost predicate ExitCounts(n: Node, n': Node, sum: int, c: int, all: bool) {
    && (n'.HasCount() <==> n.HasCount() || all)
    && n'.counter == if n.HasCount() then n.counter + c else if all then sum else n.counter
  }

  /** With a return edge that was there already, the exit's count grows by c all the same; but an exit without a count
      gets none, and when one count is missing on its incoming side, that side is taken for complete and summing it
      fails. */
  ghost predicate ExitMisled(s: Snapshot, ns: seq<Node>, exit: nat, c: int, ok: bool)
    requires WellFormed(s.ns, s.es) && exit < |s.ns|
  {
    var n := s.ns[exit];
    && (ok <==> n.HasCount() || Counted(s.es, n.incoming) + 1 != |n.incoming|)
    && ns == if n.HasCount() then s.ns[exit := n.Raised(c)] else s.ns
  }

  /** The node counts once c calls of src leave through a return edge, and whether the run goes on. */
  ghost predicate ExitRepaired(s: Snapshot, ns: seq<Node>, es: seq<Edge>, exit: nat, src: nat, c: int, ok: bool)
    requires WellFormed(s.ns, s.es) && src < |s.ns|
  {
    && exit < |s.ns|
    && if Joined(s.ns, s.es, src, exit, Return) then ExitMisled(s, ns, exit, c, ok)
       else ok && SameLists(Linked(s.ns, |s.es|, src, exit), ns) && ExitGains(s, ns, es, exit, c)
  }

  /** How balancing a call ends whose outgoing edges, all counted, do not sum to its count. */
  ghost predicate CallOutcome(s: Snapshot, ns: seq<Node>, es: seq<Edge>, exit: nat, src: nat, ok: bool, reused: bool)
    requires WellFormed(s.ns, s.es) && src < |s.ns|
  {
    var c := s.ns[src].counter - SumCounted(s.es, s.ns[src].outgoing);
    if c < 0 then !ok
    else && ReturnRepaired(s, es, exit, src, c) && (reused <==> Joined(s.ns, s.es, src, exit, Return))
         && ExitRepaired(s, ns, es, exit, src, c, ok)
  }

  /** The exit's count after a repair; `all` says whether the counter of the exit takes its incoming side for
      counted. */
  ghost function ExitUpdated(ns: seq<Node>, es: seq<Edge>, exit: nat, c: int, all: bool): (r: seq<Node>)
    requires exit < |ns| && Within(ns[exit].incoming, |es|)
    ensures |r| == |ns|
  {
    var n := ns[exit];
    if n.HasCount() then ns[exit := n.Raised(c)]
    else if all && Counted(es, n.incoming) == |n.incoming| then ns[exit := n.Computed(SumCounted(es, n.incoming))]
    else ns
  }

  lemma UpdatedGains(s: Snapshot, ns: seq<Node>, es: seq<Edge>, exit: nat, c: int, all: bool)
    requires WellFormed(s.ns, s.es) && WellFormed(ns, es) && exit < |s.ns| == |ns|
    requires forall u | 0 <= u < |ns| :: CountKept(s.ns[u], ns[u])
    requires SumCounted(es, ns[exit].incoming) == SumCounted(s.es, s.ns[exit].incoming) + c
    requires all == (Counted(es, ns[exit].incoming) == |ns[exit].incoming|)
    requires all == (Counted(s.es, s.ns[exit].incoming) == |s.ns[exit].incoming|)
    ensures var r := ExitUpdated(ns, es, exit, c, all); SameLists(ns, r) && (ExitGains(s, r, es, exit, c) || r == [])
  {
  }

  lemma ExitGainsFresh(s: Snapshot, exit: nat, v: nat, c: int, all: bool)
    requires WellFormed(s.ns, s.es) && v < |s.ns| && exit < |s.ns| && !Joined(s.ns, s.es, v, exit, Return)
    ensures var ns, es := Linked(s.ns, |s.es|, v, exit), s.es + [Edge(v, exit, Return, c, false, true, false)];
            && WellFormed(ns, es)
            && (all == (Counted(es, ns[exit].incoming) == |ns[exit].incoming|) ==>
                  ExitRepaired(s, ExitUpdated(ns, es, exit, c, all), es, exit, v, c, true) || es == [])
  {
    var n := Edge(v, exit, Return, 0, false, false, false);
    var ns, es := Linked(s.ns, |s.es|, v, exit), s.es + [n.Computed(c)];
    assert es == (s.es + [n])[|s.es| := n.Computed(c)];
    FreshCounted(s.ns, s.es, n, c);
    FreshAll(s, n, c);
    LinkedAt(s.ns, |s.es|, v, exit);
    if all == (Counted(es, ns[exit].incoming) == |ns[exit].incoming|) {
      UpdatedGains(s, ns, es, exit, c, all);
    }
  }

  /** A counted edge more, and one more in the list. */
  lemma FreshAll(s: Snapshot, n: Edge, c: int)
    requires WellFormed(s.ns, s.es) && n.source < |s.ns| && n.sink < |s.ns| && !n.HasCount()
    ensures var ns, es := Linked(s.ns, |s.es|, n.source, n.sink), (s.es + [n])[|s.es| := n.Computed(c)];
            && WellFormed(ns, es)
            && |ns[n.sink].incoming| == |s.ns[n.sink].incoming| + 1
            && |ns[n.source].outgoing| == |s.ns[n.source].outgoing| + 1
            && Counted(es, ns[n.sink].incoming) == Counted(s.es, s.ns[n.sink].incoming) + 1
            && Counted(es, ns[n.source].outgoing) == Counted(s.es, s.ns[n.source].outgoing) + 1
  {
    var ns, es1 := Linked(s.ns, |s.es|, n.source, n.sink), s.es + [n];
    FreshCounted(s.ns, s.es, n, c);
    AppendShape(s.ns, s.es, n);
    LinkedAt(s.ns, |s.es|, n.source, n.sink);
    AppendSums(s.ns, s.es, n, n.sink);
    AppendSums(s.ns, s.es, n, n.source);
    CountedOne(es1, ns[n.sink].incoming, |s.es|, c);
    CountedOne(es1, ns[n.source].outgoing, |s.es|, c);
  }

  /** Where the exit had the sum of its incoming edges, it has it after a repair exactly when the outgoing edges of the
      call now sum to the call's count: both fail by what a return edge that was there already had before. */
  lemma ExitFollowsCall(s: Snapshot, ns: seq<Node>, es: seq<Edge>, exit: nat, src: nat, ok: bool, reused: bool)
    requires WellFormed(s.ns, s.es) && src < |s.ns| && exit < |s.ns| && s.ns[src].callSite
    requires CallOutcome(s, ns, es, exit, src, ok, reused)
    requires Counted(s.es, s.ns[src].outgoing) == |s.ns[src].outgoing|
    requires s.ns[src].counter > SumCounted(s.es, s.ns[src].outgoing)
    requires s.ns[exit].HasCount() && s.ns[exit].counter == SumCounted(s.es, s.ns[exit].incoming)
    ensures |ns| == |s.ns| && Within(ns[exit].incoming, |es|) && Within(ns[src].outgoing, |es|)
    ensures ok && ns[exit].HasCount()
    ensures ns[exit].counter == SumCounted(es, ns[exit].incoming) <==>
            s.ns[src].counter == SumCounted(es, ns[src].outgoing)
    ensures !reused ==> ns[exit].counter == SumCounted(es, ns[exit].incoming)
  {
    var c := s.ns[src].counter - SumCounted(s.es, s.ns[src].outgoing);
    if Joined(s.ns, s.es, src, exit, Return) {
      var e: nat :| ReturnEdge(s, src, exit, e) && es == s.es[e := s.es[e].Computed(c)];
      ReusedSums(s, exit, src, e, c);
    } else {
      FreshSums(s, ns, es, exit, src, c);
    }
  }

  lemma ReusedSums(s: Snapshot, exit: nat, src: nat, e: nat, c: int)
    requires WellFormed(s.ns, s.es) && src < |s.ns| && exit < |s.ns| && ReturnEdge(s, src, exit, e)
    requires Counted(s.es, s.ns[src].outgoing) == |s.ns[src].outgoing|
    ensures var es := s.es[e := s.es[e].Computed(c)];
      && SumCounted(es, s.ns[src].outgoing) == SumCounted(s.es, s.ns[src].outgoing) - s.es[e].counter + c
      && SumCounted(es, s.ns[exit].incoming) == SumCounted(s.es, s.ns[exit].incoming) - s.es[e].counter + c
  {
    CountedBound(s.es, s.ns[src].outgoing);
    Recounted(s.es, s.ns[src].outgoing, e, c);
    Recounted(s.es, s.ns[exit].incoming, e, c);
  }

  lemma FreshSums(s: Snapshot, ns: seq<Node>, es: seq<Edge>, exit: nat, src: nat, c: int)
    requires WellFormed(s.ns, s.es) && src < |s.ns| && exit < |s.ns| && SameLists(Linked(s.ns, |s.es|, src, exit), ns)
    requires es == s.es + [Edge(src, exit, Return, c, false, true, false)]
    ensures Within(ns[src].outgoing, |es|) && Within(ns[exit].incoming, |es|)
    ensures SumCounted(es, ns[src].outgoing) == SumCounted(s.es, s.ns[src].outgoing) + c
    ensures SumCounted(es, ns[exit].incoming) == SumCounted(s.es, s.ns[exit].incoming) + c
  {
    FreshReturn(s, es, exit, src, c);
    var ns1 := Linked(s.ns, |s.es|, src, exit);
    assert ns[src].outgoing == ns1[src].outgoing && ns[exit].incoming == ns1[exit].incoming;
  }

  lemma FreshReturn(s: Snapshot, es: seq<Edge>, exit: nat, src: nat, c: int)
    requires WellFormed(s.ns, s.es) && src < |s.ns| && exit < |s.ns|
    requires es == s.es + [Edge(src, exit, Return, c, false, true, false)]
    ensures var ns := Linked(s.ns, |s.es|, src, exit);
            && Within(ns[src].outgoing, |es|) && Within(ns[exit].incoming, |es|)
            && SumCounted(es, ns[src].outgoing) == SumCounted(s.es, s.ns[src].outgoing) + c
            && SumCounted(es, ns[exit].incoming) == SumCounted(s.es, s.ns[exit].incoming) + c
  {
    var n := Edge(src, exit, Return, 0, false, false, false);
    assert es == (s.es + [n])[|s.es| := n.Computed(c)];
    FreshCounted(s.ns, s.es, n, c);
  }

  /** Deducing e, the last uncounted incoming edge of v, completes a call that is then out of balance. */
  ghost predicate CallStep(s: Snapshot, v: nat, e: nat)
    requires WellFormed(s.ns, s.es) && v < |s.ns|
  {
    var l := s.ns[v].incoming;
    && e in l && !s.es[e].HasCount() && s.ns[v].HasCount() && Counted(s.es, l) + 1 == |l|
    && s.ns[v].counter >= SumCounted(s.es, l) && CallTrouble(Deduced(s, v, l, e), s.es[e].source, v)
  }

  /** What a newly counted outgoing edge means for a source through which counts propagate. */
  ghost function SourceFollowed(s: Snapshot, src: nat): Snapshot
    requires WellFormed(s.ns, s.es) && src < |s.ns|
  {
    var n := s.ns[src];
    var c := Counted(s.es, n.outgoing);
    if !n.HasCount() && c == |n.outgoing| then
      var s1 := s.(ns := s.ns[src := n.Computed(SumCounted(s.es, n.outgoing))]);
      if |n.incoming| - Counted(s.es, n.incoming) == 1
      then s1.(inQ := Inserted(s.inQ, UpperBound(s.inQ, 1), Entry(src, 1))) else s1
    else if n.HasCount() && c + 1 == |n.outgoing| then
      s.(outQ := Inserted(s.outQ, UpperBound(s.outQ, 1), Entry(src, 1)))
    else s
  }

  /** The same for any source: nothing passes a call towards a block with a measured count. */
  ghost function SourceSettled(s: Snapshot, src: nat, nn: nat): Snapshot
    requires WellFormed(s.ns, s.es) && src < |s.ns| && nn < |s.ns|
  {
    if s.ns[src].callSite && s.ns[nn].measured && !s.ns[nn].partial then s else SourceFollowed(s, src)
  }

  lemma SettledJoin(s: Snapshot, v: nat)
    requires Settled(s, {v}, {v}) || Settled(s, {}, {v}) || Settled(s, {v}, {})
    requires v < |s.ns| && InSettled(s, v) && OutSettled(s, v)
    ensures Settled(s, {}, {})
  {
  }

  lemma SourceSetSettled(s: Snapshot, src: nat)
    requires Settled(s, {}, {src}) && src < |s.ns| && s.ns[src].outgoing != []
    requires !s.ns[src].HasCount() && Counted(s.es, s.ns[src].outgoing) == |s.ns[src].outgoing|
    ensures Settled(SourceFollowed(s, src), {}, {})
  {
    var n, c := s.ns[src], SumCounted(s.es, s.ns[src].outgoing);
    CountedBound(s.es, n.incoming);
    assert InSettled(s, src);
    var s1 := s.(ns := s.ns[src := n.Computed(c)]);
    SettledSet(s, {}, {src}, src, c);
    if |n.incoming| - Counted(s.es, n.incoming) == 1 {
      SettledInsertIn(s1, {src}, {src}, UpperBound(s.inQ, 1), Entry(src, 1));
    }
    SettledJoin(SourceFollowed(s, src), src);
  }

  lemma SourceSettledSettled(s: Snapshot, src: nat, nn: nat)
    requires Settled(s, {}, {src}) && src < |s.ns| && nn < |s.ns| && s.ns[src].outgoing != []
    ensures Settled(SourceSettled(s, src, nn), {}, {})
  {
    var n := s.ns[src];
    CountedBound(s.es, n.outgoing);
    if n.callSite && s.ns[nn].measured && !s.ns[nn].partial {
      SettledJoin(s, src);
    } else if !n.HasCount() && Counted(s.es, n.outgoing) == |n.outgoing| {
      SourceSetSettled(s, src);
    } else {
      if n.HasCount() && Counted(s.es, n.outgoing) + 1 == |n.outgoing| {
        SettledInsertOut(s, {}, {src}, UpperBound(s.outQ, 1), Entry(src, 1));
      }
      SettledJoin(SourceSettled(s, src, nn), src);
    }
  }

  /** What a source takes over from a fully counted side is the flow's. */
  lemma SourceAgrees(s: Snapshot, f: Flow, src: nat)
    requires WellFormed(s.ns, s.es) && Agrees(s.ns, s.es, f) && src < |s.ns| && s.ns[src].outgoing != []
    ensures WellFormed(SourceFollowed(s, src).ns, SourceFollowed(s, src).es)
    ensures Agrees(SourceFollowed(s, src).ns, SourceFollowed(s, src).es, f)
  {
    var l := s.ns[src].outgoing;
    if Counted(s.es, l) == |l| {
      FullSide(s.ns, s.es, f, src, l);
      SetAgrees(s.ns, s.es, f, src, SumCounted(s.es, l));
    }
  }

  /** Calls are never out of balance. */
  lemma SourceSettledCalm(s: Snapshot, f: Flow, src: nat, nn: nat)
    requires Calm(s, f, {}, {src}) && src < |s.ns| && nn < |s.ns| && s.ns[src].outgoing != []
    ensures !CallTrouble(s, src, nn) && Calm(SourceSettled(s, src, nn), f, {}, {})
  {
    SourceSettledSettled(s, src, nn);
    SourceAgrees(s, f, src);
    if Counted(s.es, s.ns[src].outgoing) == |s.ns[src].outgoing| {
      FullSide(s.ns, s.es, f, src, s.ns[src].outgoing);
    }
  }

  /** The snapshot after the single uncounted edge e of a list of v takes the residual of that list. */
  ghost function Deduced(s: Snapshot, v: nat, l: seq<nat>, e: nat): (r: Snapshot)
    requires WellFormed(s.ns, s.es) && v < |s.ns| && e < |s.es| && Within(l, |s.es|)
    ensures r.ns == s.ns && WellFormed(r.ns, r.es)
  {
    KeepShape(s.ns, s.es, s.ns, s.es[e := s.es[e].Computed(s.ns[v].counter - SumCounted(s.es, l))]);
    s.(es := s.es[e := s.es[e].Computed(s.ns[v].counter - SumCounted(s.es, l))])
  }

  /** One incoming edge is left without a count. */
  ghost predicate OneLeft(s: Snapshot, v: nat)
    requires WellFormed(s.ns, s.es) && v < |s.ns|
  {
    Counted(s.es, s.ns[v].incoming) + 1 == |s.ns[v].incoming|
  }

  /** The node cannot be processed from its incoming side without an abort or a repair. */
  ghost predicate InTrouble(s: Snapshot, v: nat)
    requires WellFormed(s.ns, s.es) && v < |s.ns|
  {
    var l := s.ns[v].incoming;
    var c, rest := Counted(s.es, l), s.ns[v].counter - SumCounted(s.es, l);
    || !s.ns[v].HasCount() || c + 2 <= |l| || rest < 0 || (c == |l| && rest > 0)
    || (c + 1 == |l| && exists e :: e in l && !s.es[e].HasCount() &&
                                  CallTrouble(Deduced(s, v, l, e), s.es[e].source, v))
  }

  ghost predicate DroppedIn(s: Snapshot, t: Snapshot, v: nat, i: nat) {
    i < |s.inQ| && s.inQ[i].node == v && t == s.(inQ := Erased(s.inQ, i))
  }

  /** From s to t by processing v, entry number i of the in queue; i' is where that entry was when it was dropped. */
  ghost predicate InStepped(s: Snapshot, t: Snapshot, v: nat, i: nat, i': nat)
    requires WellFormed(s.ns, s.es) && v < |s.ns|
  {
    var l := s.ns[v].incoming;
    if Counted(s.es, l) == |l| then DroppedIn(s, t, v, i)
    else exists e :: e in l && !s.es[e].HasCount() &&
                     DroppedIn(SourceSettled(Deduced(s, v, l, e), s.es[e].source, v), t, v, i')
  }

  ghost predicate SideFull(s: Snapshot, v: nat) {
    WellFormed(s.ns, s.es) && v < |s.ns| && Counted(s.es, s.ns[v].incoming) == |s.ns[v].incoming|
  }

  lemma MarkedInSettled(s: Snapshot, v: nat, e: nat)
    requires Settled(s, {}, {}) && v < |s.ns| && InReady(s, v)
    requires e in s.ns[v].incoming && !s.es[e].HasCount()
    ensures var s1 := Deduced(s, v, s.ns[v].incoming, e);
            Settled(s1, {}, {s.es[e].source}) && SideFull(s1, v) && e in s1.ns[s.es[e].source].outgoing
  {
    var l, src, c := s.ns[v].incoming, s.es[e].source, s.ns[v].counter - SumCounted(s.es, s.ns[v].incoming);
    CountedBound(s.es, l);
    SettledMark(s, e, c);
    MarkCounts(s.ns, s.es, e, c);
    assert InSettled(Deduced(s, v, l, e), v);
    assert e in s.ns[src].outgoing;
  }

  /** Deducing an incoming edge and following it to its source leaves nothing to deduce that is not queued. */
  lemma DeducedInSettled(s: Snapshot, v: nat, e: nat)
    requires Settled(s, {}, {}) && v < |s.ns| && InReady(s, v)
    requires e in s.ns[v].incoming && !s.es[e].HasCount()
    ensures var s2 := SourceSettled(Deduced(s, v, s.ns[v].incoming, e), s.es[e].source, v);
            Settled(s2, {}, {}) && SideFull(s2, v)
  {
    var src, s1 := s.es[e].source, Deduced(s, v, s.ns[v].incoming, e);
    MarkedInSettled(s, v, e);
    SourceSettledSettled(s1, src, v);
    var s2 := SourceSettled(s1, src, v);
    assert s2.es == s1.es && s2.ns[v].incoming == s1.ns[v].incoming;
  }

  /** What is deduced on a side is the flow's. */
  lemma DeducedAgrees(s: Snapshot, f: Flow, v: nat, l: seq<nat>, e: nat)
    requires WellFormed(s.ns, s.es) && Agrees(s.ns, s.es, f) && v < |s.ns| && s.ns[v].HasCount()
    requires l == s.ns[v].incoming || l == s.ns[v].outgoing
    requires e in l && !s.es[e].HasCount() && Counted(s.es, l) + 1 >= |l|
    ensures s.ns[v].counter - SumCounted(s.es, l) >= 0 && Counted(s.es, l) + 1 == |l|
    ensures Agrees(s.ns, Deduced(s, v, l, e).es, f)
  {
    CountedBound(s.es, l);
    Residual(s.ns, s.es, f, v, l);
  }

  /** Deducing an incoming edge and following it to its source keeps the invariant. */
  lemma DeducedInCalm(s: Snapshot, f: Flow, v: nat, e: nat)
    requires Calm(s, f, {}, {}) && v < |s.ns| && InReady(s, v)
    requires e in s.ns[v].incoming && !s.es[e].HasCount()
    ensures s.ns[v].counter - SumCounted(s.es, s.ns[v].incoming) >= 0
    ensures var s1 := Deduced(s, v, s.ns[v].incoming, e);
            && !CallTrouble(s1, s.es[e].source, v)
            && Calm(SourceSettled(s1, s.es[e].source, v), f, {}, {})
  {
    DeducedAgrees(s, f, v, s.ns[v].incoming, e);
    MarkedInSettled(s, v, e);
    SourceSettledCalm(Deduced(s, v, s.ns[v].incoming, e), f, s.es[e].source, v);
  }

  lemma NoInTrouble(s: Snapshot, f: Flow, v: nat)
    requires Calm(s, f, {}, {}) && v < |s.ns| && InReady(s, v)
    ensures !InTrouble(s, v)
  {
    Residual(s.ns, s.es, f, v, s.ns[v].incoming);
    forall e | e in s.ns[v].incoming && !s.es[e].HasCount()
      ensures !CallTrouble(Deduced(s, v, s.ns[v].incoming, e), s.es[e].source, v)
    {
      DeducedInCalm(s, f, v, e);
    }
  }

  lemma InStepSettled(s: Snapshot, t: Snapshot, v: nat, i: nat, i': nat)
    requires Settled(s, {}, {}) && v < |s.ns| && InReady(s, v) && InStepped(s, t, v, i, i')
    ensures Settled(t, {}, {})
  {
    var l := s.ns[v].incoming;
    if Counted(s.es, l) == |l| {
      SettledEraseIn(s, i);
    } else {
      var e :| e in l && !s.es[e].HasCount() &&
               DroppedIn(SourceSettled(Deduced(s, v, l, e), s.es[e].source, v), t, v, i');
      DeducedInSettled(s, v, e);
      SettledEraseIn(SourceSettled(Deduced(s, v, l, e), s.es[e].source, v), i');
    }
  }

  lemma InStepCalm(s: Snapshot, t: Snapshot, f: Flow, v: nat, i: nat, i': nat)
    requires Calm(s, f, {}, {}) && v < |s.ns| && InReady(s, v) && InStepped(s, t, v, i, i')
    ensures Calm(t, f, {}, {})
  {
    var l := s.ns[v].incoming;
    InStepSettled(s, t, v, i, i');
    if Counted(s.es, l) != |l| {
      var e :| e in l && !s.es[e].HasCount() &&
               DroppedIn(SourceSettled(Deduced(s, v, l, e), s.es[e].source, v), t, v, i');
      DeducedInCalm(s, f, v, e);
    }
  }

  // ----- The same for the out queue -----

  /** What a newly counted incoming edge means for its sink. */
  ghost function SinkFollowed(s: Snapshot, t: nat): Snapshot
    requires WellFormed(s.ns, s.es) && t < |s.ns|
  {
    var n := s.ns[t];
    var c := Counted(s.es, n.incoming);
    if !n.HasCount() && c == |n.incoming| then SinkSet(s, t, SumCounted(s.es, n.incoming))
    else if n.HasCount() && c + 1 == |n.incoming| then
      s.(inQ := Inserted(s.inQ, UpperBound(s.inQ, 1), Entry(t, 1)))
    else s
  }

  /** A sink gets its count, and is queued where it can pass it on or has to be balanced. */
  ghost function SinkSet(s: Snapshot, t: nat, c: int): Snapshot
    requires WellFormed(s.ns, s.es) && t < |s.ns|
  {
    var s1 := s.(ns := s.ns[t := s.ns[t].Computed(c)]);
    var d := |s.ns[t].outgoing| - Counted(s.es, s.ns[t].outgoing);
    if d == 1 || (d == 0 && s.ns[t].callSite)
    then s1.(outQ := Inserted(s.outQ, UpperBound(s.outQ, d), Entry(t, d))) else s1
  }

  lemma SinkSetSettled(s: Snapshot, t: nat)
    requires Settled(s, {t}, {}) && t < |s.ns| && s.ns[t].incoming != []
    requires !s.ns[t].HasCount() && Counted(s.es, s.ns[t].incoming) == |s.ns[t].incoming|
    ensures Settled(SinkFollowed(s, t), {}, {})
  {
    var n, c := s.ns[t], SumCounted(s.es, s.ns[t].incoming);
    CountedBound(s.es, n.outgoing);
    var s1 := s.(ns := s.ns[t := n.Computed(c)]);
    SettledSet(s, {t}, {}, t, c);
    var d, s2 := |n.outgoing| - Counted(s.es, n.outgoing), SinkSet(s, t, c);
    assert SinkFollowed(s, t) == s2;
    if d == 1 || (d == 0 && n.callSite) {
      SettledInsertOut(s1, {t}, {t}, UpperBound(s.outQ, d), Entry(t, d));
    }
    assert Settled(s2, {t}, {t});
    SettledJoin(s2, t);
  }

  lemma SinkFollowedSettled(s: Snapshot, t: nat)
    requires Settled(s, {t}, {}) && t < |s.ns| && s.ns[t].incoming != []
    ensures Settled(SinkFollowed(s, t), {}, {})
  {
    var n := s.ns[t];
    CountedBound(s.es, n.incoming);
    if !n.HasCount() && Counted(s.es, n.incoming) == |n.incoming| {
      SinkSetSettled(s, t);
    } else {
      if n.HasCount() && Counted(s.es, n.incoming) + 1 == |n.incoming| {
        SettledInsertIn(s, {t}, {}, UpperBound(s.inQ, 1), Entry(t, 1));
      }
      SettledJoin(SinkFollowed(s, t), t);
    }
  }

  /** A call keeps its count to itself when the block it returns to has a measured one. */
  ghost predicate HeldBack(s: Snapshot, v: nat, t: nat)
    requires v < |s.ns| && t < |s.ns|
  {
    s.ns[v].callSite && s.ns[t].measured && !s.ns[t].partial
  }

  /** The node cannot be processed from its outgoing side without an abort or a repair. */
  ghost predicate OutTrouble(s: Snapshot, v: nat)
    requires WellFormed(s.ns, s.es) && v < |s.ns|
  {
    var l := s.ns[v].outgoing;
    var c, rest := Counted(s.es, l), s.ns[v].counter - SumCounted(s.es, l);
    !s.ns[v].HasCount() || c + 2 <= |l| || rest < 0 || (c == |l| && s.ns[v].callSite && rest > 0)
  }

  ghost predicate DroppedOut(s: Snapshot, t: Snapshot, v: nat, i: nat) {
    i < |s.outQ| && s.outQ[i].node == v && t == s.(outQ := Erased(s.outQ, i))
  }

  /** From s to t by processing v, entry number i of the out queue; i' is where that entry was when it was dropped. */
  ghost predicate OutStepped(s: Snapshot, t: Snapshot, v: nat, i: nat, i': nat)
    requires WellFormed(s.ns, s.es) && v < |s.ns|
  {
    var l := s.ns[v].outgoing;
    if Counted(s.es, l) == |l| then DroppedOut(s, t, v, i)
    else exists e :: e in l && !s.es[e].HasCount() &&
                     if HeldBack(s, v, s.es[e].sink) then DroppedOut(s, t, v, i)
                     else DroppedOut(SinkFollowed(Deduced(s, v, l, e), s.es[e].sink), t, v, i')
  }

  lemma NoOutTrouble(s: Snapshot, f: Flow, v: nat)
    requires Calm(s, f, {}, {}) && v < |s.ns| && OutReady(s, v)
    ensures !OutTrouble(s, v)
  {
    if s.ns[v].outgoing != [] {
      Residual(s.ns, s.es, f, v, s.ns[v].outgoing);
    }
  }

  /** Deducing an outgoing edge and following it to its sink leaves nothing to deduce that is not queued. */
  lemma DeducedOutSettled(s: Snapshot, v: nat, e: nat)
    requires Settled(s, {}, {}) && v < |s.ns| && OutReady(s, v)
    requires e in s.ns[v].outgoing && !s.es[e].HasCount()
    ensures var s2 := SinkFollowed(Deduced(s, v, s.ns[v].outgoing, e), s.es[e].sink);
            && Settled(s2, {}, {}) && v < |s2.ns|
            && Counted(s2.es, s2.ns[v].outgoing) == |s2.ns[v].outgoing|
  {
    var l, t, c := s.ns[v].outgoing, s.es[e].sink, s.ns[v].counter - SumCounted(s.es, s.ns[v].outgoing);
    CountedBound(s.es, l);
    var s1 := Deduced(s, v, l, e);
    SettledMark(s, e, c);
    MarkCounts(s.ns, s.es, e, c);
    assert OutSettled(s1, v);
    assert e in s.ns[t].incoming;
    SinkFollowedSettled(s1, t);
    var s2 := SinkFollowed(s1, t);
    assert s2.es == s1.es && s2.ns[v].outgoing == s1.ns[v].outgoing;
  }

  lemma SinkAgrees(s: Snapshot, f: Flow, t: nat)
    requires WellFormed(s.ns, s.es) && Agrees(s.ns, s.es, f) && t < |s.ns| && s.ns[t].incoming != []
    ensures WellFormed(SinkFollowed(s, t).ns, SinkFollowed(s, t).es)
    ensures Agrees(SinkFollowed(s, t).ns, SinkFollowed(s, t).es, f)
  {
    var l := s.ns[t].incoming;
    if Counted(s.es, l) == |l| {
      FullSide(s.ns, s.es, f, t, l);
      SetAgrees(s.ns, s.es, f, t, SumCounted(s.es, l));
    }
  }

  lemma OutStepSettled(s: Snapshot, t: Snapshot, v: nat, i: nat, i': nat)
    requires Settled(s, {}, {}) && v < |s.ns| && OutReady(s, v) && OutStepped(s, t, v, i, i')
    ensures Settled(t, {}, {})
  {
    var l := s.ns[v].outgoing;
    if Counted(s.es, l) == |l| {
      SettledEraseOut(s, i);
    } else {
      var e :| e in l && !s.es[e].HasCount() &&
               if HeldBack(s, v, s.es[e].sink) then DroppedOut(s, t, v, i)
               else DroppedOut(SinkFollowed(Deduced(s, v, l, e), s.es[e].sink), t, v, i');
      if HeldBack(s, v, s.es[e].sink) {
        SettledEraseOut(s, i);
      } else {
        DeducedOutSettled(s, v, e);
        SettledEraseOut(SinkFollowed(Deduced(s, v, l, e), s.es[e].sink), i');
      }
    }
  }

  lemma OutStepCalm(s: Snapshot, t: Snapshot, f: Flow, v: nat, i: nat, i': nat)
    requires Calm(s, f, {}, {}) && v < |s.ns| && OutReady(s, v) && OutStepped(s, t, v, i, i')
    ensures Calm(t, f, {}, {})
  {
    var l := s.ns[v].outgoing;
    OutStepSettled(s, t, v, i, i');
    if Counted(s.es, l) != |l| {
      var e :| e in l && !s.es[e].HasCount() &&
               if HeldBack(s, v, s.es[e].sink) then DroppedOut(s, t, v, i)
               else DroppedOut(SinkFollowed(Deduced(s, v, l, e), s.es[e].sink), t, v, i');
      if !HeldBack(s, v, s.es[e].sink) {
        DeducedAgrees(s, f, v, l, e);
        assert e in s.ns[s.es[e].sink].incoming;
        SinkAgrees(Deduced(s, v, l, e), f, s.es[e].sink);
      }
    }
  }

  // ----- The initial pass over the nodes -----

  /** The partial count of a routine entry whose only incoming edge is the entry edge is a full one. */
  ghost predicate EntryExact(ns: seq<Node>, f: Flow) {
    && |f.node| == |ns|
    && forall v | 0 <= v < |ns| && ns[v].partial && ns[v].routineEntry && |ns[v].incoming| == 1 ::
         ns[v].counter == f.node[v]
  }

  function Upgraded(n: Node): Node {
    if n.partial && n.routineEntry && |n.incoming| == 1 then n.(partial := false, measured := true) else n
  }

  /** The counts on the incoming side contradict the node's own. */
  ghost predicate InitTrouble(s: Snapshot, v: nat)
    requires WellFormed(s.ns, s.es) && v < |s.ns|
  {
    var n := Upgraded(s.ns[v]);
    && n.HasCount() && n.incoming != [] && Counted(s.es, n.incoming) == |n.incoming|
    && SumCounted(s.es, n.incoming) != n.counter
  }

  ghost function QueuedIn(s: Snapshot, v: nat): Snapshot
    requires WellFormed(s.ns, s.es) && v < |s.ns|
  {
    if |s.ns[v].incoming| - Counted(s.es, s.ns[v].incoming) == 1
    then s.(inQ := Inserted(s.inQ, UpperBound(s.inQ, 1), Entry(v, 1))) else s
  }

  ghost function QueuedOut(s: Snapshot, v: nat): Snapshot
    requires WellFormed(s.ns, s.es) && v < |s.ns|
  {
    if |s.ns[v].outgoing| - Counted(s.es, s.ns[v].outgoing) == 1
    then s.(outQ := Inserted(s.outQ, UpperBound(s.outQ, 1), Entry(v, 1))) else s
  }

  ghost function WithNode(s: Snapshot, v: nat, n: Node): (r: Snapshot)
    requires WellFormed(s.ns, s.es) && v < |s.ns|
    requires n.incoming == s.ns[v].incoming && n.outgoing == s.ns[v].outgoing
    ensures WellFormed(r.ns, r.es)
  {
    KeepShape(s.ns, s.es, s.ns[v := n], s.es);
    s.(ns := s.ns[v := n])
  }

  /** A node without a count takes the sum of a side that is fully counted. */
  ghost function OpenInit(s: Snapshot, v: nat): (r: Snapshot)
    requires WellFormed(s.ns, s.es) && v < |s.ns|
    ensures WellFormed(r.ns, r.es) && |r.ns| == |s.ns|
  {
    var n := s.ns[v];
    if n.outgoing != [] && Counted(s.es, n.outgoing) == |n.outgoing| then
      QueuedIn(WithNode(s, v, n.Computed(SumCounted(s.es, n.outgoing))), v)
    else if n.incoming != [] && Counted(s.es, n.incoming) == |n.incoming| then
      QueuedOut(WithNode(s, v, n.Computed(SumCounted(s.es, n.incoming))), v)
    else s
  }

  /** What the initial pass does at one node. */
  ghost function NodeInit(s: Snapshot, v: nat): (r: Snapshot)
    requires WellFormed(s.ns, s.es) && v < |s.ns|
    ensures WellFormed(r.ns, r.es) && |r.ns| == |s.ns|
  {
    var n := Upgraded(s.ns[v]);
    var s0 := WithNode(s, v, n);
    if n.HasCount() then QueuedOut(QueuedIn(s0, v), v) else OpenInit(s0, v)
  }

  /** What a new entry edge into v changes at v, which may gain the executions too. */
  function EntryMarked(ns: seq<Node>, v: nat, c: int, raise: bool): (r: seq<Node>)
    requires v < |ns|
    ensures |r| == |ns|
  {
    ns[v := ns[v].(routineEntry := true, counter := ns[v].counter + if raise then c else 0)]
  }

  /** And at the entry, when it has a count. */
  function EntryGains(ns: seq<Node>, entry: nat, c: int): seq<Node>
    requires entry < |ns|
  {
    if ns[entry].HasCount() then ns[entry := ns[entry].Raised(c)] else ns
  }

  function EntryRaised(ns: seq<Node>, entry: nat, v: nat, c: int, raise: bool): seq<Node>
    requires entry < |ns| && v < |ns|
  {
    EntryGains(EntryMarked(ns, v, c, raise), entry, c)
  }

  ghost function EntryRepaired(s: Snapshot, entry: nat, v: nat, c: int, raise: bool): (r: Snapshot)
    requires WellFormed(s.ns, s.es) && entry < |s.ns| && v < |s.ns|
    ensures WellFormed(r.ns, r.es) && |r.ns| == |s.ns|
  {
    var ns0, es0 := Linked(s.ns, |s.es|, entry, v), s.es + [Edge(entry, v, CfgEdge, 0, false, false, false)];
    AppendShape(s.ns, s.es, Edge(entry, v, CfgEdge, 0, false, false, false));
    var ns1, es1 := EntryRaised(ns0, entry, v, c, raise), s.es + [Edge(entry, v, CfgEdge, c, false, true, false)];
    KeepShape(ns0, es0, ns1, es1);
    s.(ns := ns1, es := es1)
  }

  /** What the counted outgoing edges leave of a node's count. */
  ghost function OutRest(s: Snapshot, v: nat): int
    requires WellFormed(s.ns, s.es) && v < |s.ns|
  {
    s.ns[v].counter - SumCounted(s.es, s.ns[v].outgoing)
  }

  /** A new entry edge brings c executions more into v, whose own count grows with it on demand; a counted entry passes
      on as much more as it has more, and no other node is touched. */
  lemma EntryRepairSums(s: Snapshot, entry: nat, v: nat, c: int, raise: bool)
    requires WellFormed(s.ns, s.es) && entry < |s.ns| && v < |s.ns|
    ensures var r := EntryRepaired(s, entry, v, c, raise);
      && r.ns[v].routineEntry && SumCounted(r.es, r.ns[v].incoming) == SumCounted(s.es, s.ns[v].incoming) + c
      && (s.ns[v].HasCount() ==> OutRest(r, v) == OutRest(s, v) + if raise then c else 0)
      && (s.ns[entry].HasCount() && entry != v ==> OutRest(r, entry) == OutRest(s, entry))
      && (!s.ns[entry].HasCount() || entry != v ==> r.ns[v].counter == s.ns[v].counter + if raise then c else 0)
    ensures var r := EntryRepaired(s, entry, v, c, raise);
      forall u | 0 <= u < |s.ns| && u != v && (u != entry || !s.ns[u].HasCount()) :: CountKept(s.ns[u], r.ns[u])
  {
    var n := Edge(entry, v, CfgEdge, 0, false, false, false);
    var ns0, es := Linked(s.ns, |s.es|, entry, v), s.es + [n.Computed(c)];
    assert es == (s.es + [n])[|s.es| := n.Computed(c)];
    FreshCounted(s.ns, s.es, n, c);
    LinkedAt(s.ns, |s.es|, entry, v);
    if entry != v {
      OtherOut(s, n, c);
    }
  }

  /** A fresh edge does not touch the outgoing side of its sink. */
  lemma OtherOut(s: Snapshot, n: Edge, c: int)
    requires WellFormed(s.ns, s.es) && n.source < |s.ns| && n.sink < |s.ns| && !n.HasCount() && n.source != n.sink
    ensures var ns, es := Linked(s.ns, |s.es|, n.source, n.sink), (s.es + [n])[|s.es| := n.Computed(c)];
            && WellFormed(ns, es) && ns[n.sink].outgoing == s.ns[n.sink].outgoing
            && SumCounted(es, ns[n.sink].outgoing) == SumCounted(s.es, s.ns[n.sink].outgoing)
            && Counted(es, ns[n.sink].outgoing) == Counted(s.es, s.ns[n.sink].outgoing)
  {
    FreshCounted(s.ns, s.es, n, c);
    LinkedAt(s.ns, |s.es|, n.source, n.sink);
    CountedSame(s.es, (s.es + [n])[|s.es| := n.Computed(c)], s.ns[n.sink].outgoing);
  }

  /** More leaves the counted node v than it has, and at most one count is missing on its outgoing side. */
  ghost predicate OutShort(s: Snapshot, v: nat)
    requires WellFormed(s.ns, s.es) && v < |s.ns|
  {
    s.ns[v].HasCount() && Counted(s.es, s.ns[v].outgoing) + 1 >= |s.ns[v].outgoing| && OutRest(s, v) < 0
  }

  /** A counted call all of whose outgoing edges are counted has more than they carry. */
  ghost predicate OutCall(s: Snapshot, v: nat)
    requires WellFormed(s.ns, s.es) && v < |s.ns|
  {
    && s.ns[v].callSite && s.ns[v].HasCount() && Counted(s.es, s.ns[v].outgoing) == |s.ns[v].outgoing|
    && OutRest(s, v) > 0
  }

  /** v, from which more left than it had, got what was missing from the entry and was processed then. */
  ghost predicate OutRaised(s: Snapshot, t: Snapshot, entry: nat, v: nat, i: nat, i': nat)
    requires WellFormed(s.ns, s.es) && v < |s.ns| && entry < |s.ns|
  {
    && OutStepped(EntryRepaired(s, entry, v, -OutRest(s, v), true), t, v, i, i')
    && Spent(t, v)
  }

  /** The counted outgoing edges of a counted node carry all it has. */
  ghost predicate Spent(s: Snapshot, v: nat) {
    WellFormed(s.ns, s.es) && v < |s.ns| && s.ns[v].HasCount() && OutRest(s, v) == 0
  }

  /** One edge more or none, counted: as many outgoing edges lack a count as before, and nothing is short any more. */
  lemma RaisedReady(s: Snapshot, entry: nat, v: nat, c: int)
    requires WellFormed(s.ns, s.es) && entry < |s.ns| && v < |s.ns| && OutShort(s, v) && c == -OutRest(s, v)
    ensures var r := EntryRepaired(s, entry, v, c, true);
      && Spent(r, v) && !OutTrouble(r, v)
      && |r.ns[v].outgoing| - Counted(r.es, r.ns[v].outgoing) == |s.ns[v].outgoing| - Counted(s.es, s.ns[v].outgoing)
  {
    var n := Edge(entry, v, CfgEdge, 0, false, false, false);
    var ns0, es := Linked(s.ns, |s.es|, entry, v), s.es + [n.Computed(c)];
    assert es == (s.es + [n])[|s.es| := n.Computed(c)];
    EntryRepairSums(s, entry, v, c, true);
    FreshAll(s, n, c);
    LinkedAt(s.ns, |s.es|, entry, v);
    if entry != v {
      OtherOut(s, n, c);
    }
  }

  /** Processing a node whose counted outgoing edges carry all it has leaves that so. */
  lemma OutStepBalanced(s: Snapshot, t: Snapshot, v: nat, i: nat, i': nat)
    requires WellFormed(s.ns, s.es) && v < |s.ns| && OutStepped(s, t, v, i, i')
    ensures Spent(t, v) || !Spent(s, v)
  {
    var l := s.ns[v].outgoing;
    if !Spent(s, v) {
    } else if Counted(s.es, l) == |l| {
      DroppedSpent(s, t, v, i);
    } else {
      var e :| e in l && !s.es[e].HasCount() &&
                     if HeldBack(s, v, s.es[e].sink) then DroppedOut(s, t, v, i)
                     else DroppedOut(SinkFollowed(Deduced(s, v, l, e), s.es[e].sink), t, v, i');
      if HeldBack(s, v, s.es[e].sink) {
        DroppedSpent(s, t, v, i);
      } else {
        DeducedBalanced(s, v, e);
        DroppedSpent(SinkFollowed(Deduced(s, v, l, e), s.es[e].sink), t, v, i');
      }
    }
  }

  lemma RaisedSteps(s: Snapshot, t: Snapshot, u: Snapshot, entry: nat, v: nat, c: int, i: nat, i': nat)
    requires WellFormed(s.ns, s.es) && v < |s.ns| && entry < |s.ns| && c == -OutRest(s, v)
    requires t == EntryRepaired(s, entry, v, c, true) && Spent(t, v) && OutStepped(t, u, v, i, i')
    ensures OutRaised(s, u, entry, v, i, i') || !OutStepped(t, u, v, i, i')
  {
    OutStepBalanced(t, u, v, i, i');
    SameRaise(s, entry, v, c, -OutRest(s, v));
    RaisedAs(s, t, u, entry, v, i, i', EntryRepaired(s, entry, v, -OutRest(s, v), true));
  }

  lemma SameRaise(s: Snapshot, entry: nat, v: nat, c: int, k: int)
    requires WellFormed(s.ns, s.es) && v < |s.ns| && entry < |s.ns| && c == k
    ensures EntryRepaired(s, entry, v, c, true) == EntryRepaired(s, entry, v, k, true)
  {
  }

  lemma RaisedAs(s: Snapshot, t: Snapshot, u: Snapshot, entry: nat, v: nat, i: nat, i': nat, r: Snapshot)
    requires WellFormed(s.ns, s.es) && v < |s.ns| && entry < |s.ns| && WellFormed(t.ns, t.es) && v < |t.ns| && t == r
    requires r == EntryRepaired(s, entry, v, -OutRest(s, v), true)
    ensures OutStepped(t, u, v, i, i') && Spent(u, v) ==> OutRaised(s, u, entry, v, i, i')
  {
  }

  lemma DroppedSpent(s: Snapshot, t: Snapshot, v: nat, i: nat)
    requires DroppedOut(s, t, v, i)
    ensures Spent(t, v) || !Spent(s, v)
  {
  }

  lemma DeducedBalanced(s: Snapshot, v: nat, e: nat)
    requires Spent(s, v) && e in s.ns[v].outgoing && !s.es[e].HasCount()
    ensures Spent(SinkFollowed(Deduced(s, v, s.ns[v].outgoing, e), s.es[e].sink), v) || !Spent(s, v)
  {
    CountedOne(s.es, s.ns[v].outgoing, e, 0);
    FollowedKeeps(Deduced(s, v, s.ns[v].outgoing, e), s.es[e].sink, v);
  }

  lemma FollowedKeeps(s: Snapshot, t: nat, v: nat)
    requires WellFormed(s.ns, s.es) && t < |s.ns| && v < |s.ns| && s.ns[v].HasCount()
    ensures var r := SinkFollowed(s, t);
            r.es == s.es && WellFormed(r.ns, r.es) && |r.ns| == |s.ns| && r.ns[v] == s.ns[v]
  {
    KeepShape(s.ns, s.es, SinkFollowed(s, t).ns, s.es);
  }

  /** A count that contradicts the counts on the incoming side. */
  ghost predicate CountClash(s: Snapshot, v: nat)
    requires WellFormed(s.ns, s.es) && v < |s.ns|
  {
    var n := s.ns[v];
    n.incoming != [] && Counted(s.es, n.incoming) == |n.incoming| && SumCounted(s.es, n.incoming) != n.counter
  }

  /** It is given up on when more executions come in than the node has, and when a routine entry lacks some. */
  ghost predicate ClashAborts(s: Snapshot, v: nat)
    requires WellFormed(s.ns, s.es) && v < |s.ns|
  {
    CountClash(s, v) && (SumCounted(s.es, s.ns[v].incoming) > s.ns[v].counter || s.ns[v].routineEntry)
  }

  /** Else what is missing comes in through an entry edge. */
  ghost function ClashRepaired(s: Snapshot, entry: nat, v: nat): (r: Snapshot)
    requires WellFormed(s.ns, s.es) && entry < |s.ns| && v < |s.ns|
    ensures WellFormed(r.ns, r.es) && |r.ns| == |s.ns|
  {
    EntryRepaired(s, entry, v, s.ns[v].counter - SumCounted(s.es, s.ns[v].incoming), false)
  }

  ghost function CountedInit(s: Snapshot, entry: nat, v: nat): (r: Snapshot)
    requires WellFormed(s.ns, s.es) && entry < |s.ns| && v < |s.ns|
    ensures WellFormed(r.ns, r.es) && |r.ns| == |s.ns|
  {
    if CountClash(s, v) then QueuedOut(ClashRepaired(s, entry, v), v) else QueuedOut(QueuedIn(s, v), v)
  }

  /** What the initial pass does at one node, repairs included. */
  ghost function InitStep(s: Snapshot, entry: nat, v: nat): (r: Snapshot)
    requires WellFormed(s.ns, s.es) && entry < |s.ns| && v < |s.ns|
    ensures WellFormed(r.ns, r.es) && |r.ns| == |s.ns|
    ensures !InitTrouble(s, v) ==> r == NodeInit(s, v)
  {
    var n := Upgraded(s.ns[v]);
    if n.HasCount() then CountedInit(WithNode(s, v, n), entry, v) else NodeInit(s, v)
  }

  ghost predicate InitAborts(s: Snapshot, v: nat)
    requires WellFormed(s.ns, s.es) && v < |s.ns|
  {
    var n := Upgraded(s.ns[v]);
    n.HasCount() && ClashAborts(WithNode(s, v, n), v)
  }

  /** The initial pass from node v on. */
  ghost function InitFrom(s: Snapshot, entry: nat, v: nat): (r: Snapshot)
    requires WellFormed(s.ns, s.es) && entry < |s.ns|
    decreases |s.ns| - v
  {
    if v >= |s.ns| then s else InitFrom(InitStep(s, entry, v), entry, v + 1)
  }

  ghost predicate InitFails(s: Snapshot, entry: nat, v: nat)
    requires WellFormed(s.ns, s.es) && entry < |s.ns|
    decreases |s.ns| - v
  {
    v < |s.ns| && (InitAborts(s, v) || InitFails(InitStep(s, entry, v), entry, v + 1))
  }

  /** A node that has been executed, by its count. */
  ghost predicate RunNode(n: Node) {
    n.HasCount() && n.counter > 0
  }

  /** The initial pass meets one from node v on. */
  ghost predicate InitRuns(s: Snapshot, entry: nat, v: nat)
    requires WellFormed(s.ns, s.es) && entry < |s.ns|
    decreases |s.ns| - v
  {
    v < |s.ns| && (RunNode(Upgraded(s.ns[v])) || InitRuns(InitStep(s, entry, v), entry, v + 1))
  }

  /** The flow fits the counts of the input. */
  ghost predicate Fits(ns: seq<Node>, es: seq<Edge>, f: Flow)
    requires WellFormed(ns, es)
  {
    Agrees(ns, es, f) && EntryExact(ns, f)
  }

  lemma OpenInitExtends(s: Snapshot, v: nat)
    requires WellFormed(s.ns, s.es) && v < |s.ns| && !s.ns[v].HasCount()
    ensures Extends(s.ns, s.es, OpenInit(s, v).ns, OpenInit(s, v).es) && OpenInit(s, v).es == s.es
  {
  }

  lemma NodeInitExtends(s: Snapshot, v: nat)
    requires WellFormed(s.ns, s.es) && v < |s.ns|
    ensures Extends(s.ns, s.es, NodeInit(s, v).ns, NodeInit(s, v).es) && NodeInit(s, v).es == s.es
  {
    var s0 := WithNode(s, v, Upgraded(s.ns[v]));
    assert Extends(s.ns, s.es, s0.ns, s0.es);
    if !s0.ns[v].HasCount() {
      OpenInitExtends(s0, v);
      ExtendsOn(s, s0, NodeInit(s, v));
    }
  }

  lemma NodeInitBounds(s: Snapshot, v: nat, q: Snapshot)
    requires WellFormed(s.ns, s.es) && v < |s.ns| && Bounds(q, s)
    requires Upgraded(s.ns[v]).HasCount() ==> q.ns[v].HasCount()
    ensures Bounds(q, NodeInit(s, v))
  {
    BoundsNode(s, q, v);
  }

  /** The input with the partial counts of routine entries taken for full ones. */
  ghost function Input(ns: seq<Node>, es: seq<Edge>): Snapshot {
    Snapshot(seq(|ns|, v requires 0 <= v < |ns| => Upgraded(ns[v])), es, [], [])
  }

  lemma QueuedInSettled(s: Snapshot, xin: set<nat>, xout: set<nat>, v: nat)
    requires Settled(s, xin, xout) && v < |s.ns| && s.ns[v].HasCount()
    ensures Settled(QueuedIn(s, v), xin, xout) && InSettled(QueuedIn(s, v), v)
    ensures OutSettled(s, v) ==> OutSettled(QueuedIn(s, v), v)
  {
    if |s.ns[v].incoming| - Counted(s.es, s.ns[v].incoming) == 1 {
      SettledInsertIn(s, xin, xout, UpperBound(s.inQ, 1), Entry(v, 1));
    }
  }

  lemma QueuedOutSettled(s: Snapshot, xin: set<nat>, xout: set<nat>, v: nat)
    requires Settled(s, xin, xout) && v < |s.ns| && s.ns[v].HasCount()
    ensures Settled(QueuedOut(s, v), xin, xout) && OutSettled(QueuedOut(s, v), v)
    ensures InSettled(s, v) ==> InSettled(QueuedOut(s, v), v)
  {
    if |s.ns[v].outgoing| - Counted(s.es, s.ns[v].outgoing) == 1 {
      SettledInsertOut(s, xin, xout, UpperBound(s.outQ, 1), Entry(v, 1));
    }
  }

  lemma UpgradedSettled(s: Snapshot, x: set<nat>, v: nat)
    requires Settled(s, x, x) && v < |s.ns| && v in x
    ensures Settled(WithNode(s, v, Upgraded(s.ns[v])), x, x)
  {
    var s0 := WithNode(s, v, Upgraded(s.ns[v]));
    forall w: nat | w < |s.ns| && w !in x ensures InSettled(s0, w) && OutSettled(s0, w) {
      assert InSettled(s, w) && OutSettled(s, w);
    }
    forall i | 0 <= i < |s.inQ| ensures InReady(s0, s.inQ[i].node) {
      assert InReady(s, s.inQ[i].node);
    }
    forall i | 0 <= i < |s.outQ| ensures OutReady(s0, s.outQ[i].node) {
      assert OutReady(s, s.outQ[i].node);
    }
  }

  lemma SettledLeave(s: Snapshot, x: set<nat>, v: nat)
    requires Settled(s, x, x) && v < |s.ns| && InSettled(s, v) && OutSettled(s, v)
    ensures Settled(s, x - {v}, x - {v})
  {
  }

  lemma ComputedSettled(s: Snapshot, x: set<nat>, v: nat, c: int)
    requires Settled(s, x, x) && v < |s.ns| && v in x
    ensures Settled(WithNode(s, v, s.ns[v].Computed(c)), x, x)
  {
    SettledSet(s, x, x, v, c);
    assert x + {v} == x;
  }

  lemma NodeInitCountedSettled(s: Snapshot, x: set<nat>, v: nat)
    requires Settled(s, x, x) && v < |s.ns| && s.ns[v].HasCount()
    ensures Settled(QueuedOut(QueuedIn(s, v), v), x - {v}, x - {v})
  {
    QueuedInSettled(s, x, x, v);
    QueuedOutSettled(QueuedIn(s, v), x, x, v);
    SettledLeave(QueuedOut(QueuedIn(s, v), v), x, v);
  }

  lemma NodeInitFromOutSettled(s: Snapshot, x: set<nat>, v: nat)
    requires Settled(s, x, x) && v < |s.ns| && v in x
    requires s.ns[v].outgoing != [] && Counted(s.es, s.ns[v].outgoing) == |s.ns[v].outgoing|
    ensures var s1 := WithNode(s, v, s.ns[v].Computed(SumCounted(s.es, s.ns[v].outgoing)));
            Settled(QueuedIn(s1, v), x - {v}, x - {v})
  {
    ComputedSettled(s, x, v, SumCounted(s.es, s.ns[v].outgoing));
    var s1 := WithNode(s, v, s.ns[v].Computed(SumCounted(s.es, s.ns[v].outgoing)));
    QueuedInSettled(s1, x, x, v);
    SettledLeave(QueuedIn(s1, v), x, v);
  }

  lemma NodeInitFromInSettled(s: Snapshot, x: set<nat>, v: nat)
    requires Settled(s, x, x) && v < |s.ns| && v in x
    requires s.ns[v].incoming != [] && Counted(s.es, s.ns[v].incoming) == |s.ns[v].incoming|
    ensures var s1 := WithNode(s, v, s.ns[v].Computed(SumCounted(s.es, s.ns[v].incoming)));
            Settled(QueuedOut(s1, v), x - {v}, x - {v})
  {
    ComputedSettled(s, x, v, SumCounted(s.es, s.ns[v].incoming));
    var s1 := WithNode(s, v, s.ns[v].Computed(SumCounted(s.es, s.ns[v].incoming)));
    QueuedOutSettled(s1, x, x, v);
    SettledLeave(QueuedOut(s1, v), x, v);
  }

  /** After the initial pass has treated a node, nothing is left to deduce there that is not queued. */
  lemma NodeInitSettled(s: Snapshot, x: set<nat>, v: nat)
    requires Settled(s, x, x) && v < |s.ns| && v in x
    ensures Settled(NodeInit(s, v), x - {v}, x - {v})
  {
    var n := Upgraded(s.ns[v]);
    var s0 := WithNode(s, v, n);
    UpgradedSettled(s, x, v);
    if n.HasCount() {
      NodeInitCountedSettled(s0, x, v);
    } else if n.outgoing != [] && Counted(s.es, n.outgoing) == |n.outgoing| {
      NodeInitFromOutSettled(s0, x, v);
    } else if n.incoming != [] && Counted(s.es, n.incoming) == |n.incoming| {
      NodeInitFromInSettled(s0, x, v);
    } else {
      CountedBound(s.es, n.incoming);
      CountedBound(s.es, n.outgoing);
      SettledLeave(s0, x, v);
    }
  }

  lemma NodeInitAgrees(s: Snapshot, f: Flow, v: nat)
    requires WellFormed(s.ns, s.es) && Agrees(s.ns, s.es, f) && EntryExact(s.ns, f) && v < |s.ns|
    ensures !InitTrouble(s, v) && Agrees(NodeInit(s, v).ns, NodeInit(s, v).es, f) && EntryExact(NodeInit(s, v).ns, f)
  {
    var n := Upgraded(s.ns[v]);
    var s0 := WithNode(s, v, n);
    assert Agrees(s0.ns, s0.es, f) && EntryExact(s0.ns, f);
    if n.incoming != [] && Counted(s.es, n.incoming) == |n.incoming| {
      FullSide(s0.ns, s.es, f, v, n.incoming);
    }
    if n.outgoing != [] && Counted(s.es, n.outgoing) == |n.outgoing| {
      FullSide(s0.ns, s.es, f, v, n.outgoing);
    }
    OpenInitAgrees(s0, f, v);
  }

  lemma OpenInitAgrees(s: Snapshot, f: Flow, v: nat)
    requires WellFormed(s.ns, s.es) && Agrees(s.ns, s.es, f) && EntryExact(s.ns, f) && v < |s.ns|
    ensures Agrees(OpenInit(s, v).ns, OpenInit(s, v).es, f) && EntryExact(OpenInit(s, v).ns, f)
  {
    var n := s.ns[v];
    if n.outgoing != [] && Counted(s.es, n.outgoing) == |n.outgoing| {
      FullSide(s.ns, s.es, f, v, n.outgoing);
      SetAgrees(s.ns, s.es, f, v, SumCounted(s.es, n.outgoing));
    } else if n.incoming != [] && Counted(s.es, n.incoming) == |n.incoming| {
      FullSide(s.ns, s.es, f, v, n.incoming);
      SetAgrees(s.ns, s.es, f, v, SumCounted(s.es, n.incoming));
    }
  }

  /** And the counts are the flow's. */
  lemma NodeInitCalm(s: Snapshot, f: Flow, x: set<nat>, v: nat)
    requires Calm(s, f, x, x) && EntryExact(s.ns, f) && v < |s.ns| && v in x
    ensures !InitTrouble(s, v) && Calm(NodeInit(s, v), f, x - {v}, x - {v}) && EntryExact(NodeInit(s, v).ns, f)
  {
    NodeInitSettled(s, x, v);
    NodeInitAgrees(s, f, v);
  }

  // ----- What propagation keeps of its input -----

  /** The node as it was, or with a count, which is the one it had if it had one. */
  ghost predicate NodeExtends(n: Node, n': Node) {
    n' == n || (n'.HasCount() && (n.HasCount() ==> n'.counter == n.counter) &&
                n' == n.(counter := n'.counter, measured := n'.measured, computed := n'.computed,
                         partial := n'.partial))
  }

  ghost predicate EdgeExtends(d: Edge, d': Edge) {
    d' == d || (!d.HasCount() && d' == d.Computed(d'.counter))
  }

  /** The same graph with some more counts. */
  ghost predicate Extends(ns: seq<Node>, es: seq<Edge>, ns': seq<Node>, es': seq<Edge>) {
    && |ns'| == |ns| && |es'| == |es|
    && (forall v | 0 <= v < |ns| :: NodeExtends(ns[v], ns'[v]))
    && (forall e | 0 <= e < |es| :: EdgeExtends(es[e], es'[e]))
  }

  lemma ExtendsOn(s: Snapshot, t: Snapshot, u: Snapshot)
    requires Extends(s.ns, s.es, t.ns, t.es) && Extends(t.ns, t.es, u.ns, u.es)
    ensures Extends(s.ns, s.es, u.ns, u.es)
  {
    forall v | 0 <= v < |s.ns| ensures NodeExtends(s.ns[v], u.ns[v]) {
      assert NodeExtends(s.ns[v], t.ns[v]) && NodeExtends(t.ns[v], u.ns[v]);
    }
    forall e | 0 <= e < |s.es| ensures EdgeExtends(s.es[e], u.es[e]) {
      assert EdgeExtends(s.es[e], t.es[e]) && EdgeExtends(t.es[e], u.es[e]);
    }
  }

  lemma DeducedExtends(s: Snapshot, v: nat, l: seq<nat>, e: nat)
    requires WellFormed(s.ns, s.es) && v < |s.ns| && e < |s.es| && Within(l, |s.es|) && !s.es[e].HasCount()
    ensures Extends(s.ns, s.es, s.ns, Deduced(s, v, l, e).es)
  {
  }

  lemma SourceExtends(s: Snapshot, src: nat)
    requires WellFormed(s.ns, s.es) && src < |s.ns|
    ensures Extends(s.ns, s.es, SourceFollowed(s, src).ns, SourceFollowed(s, src).es)
  {
  }

  lemma SinkExtends(s: Snapshot, t: nat)
    requires WellFormed(s.ns, s.es) && t < |s.ns|
    ensures Extends(s.ns, s.es, SinkFollowed(s, t).ns, SinkFollowed(s, t).es)
  {
  }

  lemma InStepExtends(s: Snapshot, t: Snapshot, v: nat, i: nat, i': nat)
    requires WellFormed(s.ns, s.es) && v < |s.ns| && InStepped(s, t, v, i, i')
    ensures Extends(s.ns, s.es, t.ns, t.es)
  {
    var l := s.ns[v].incoming;
    if Counted(s.es, l) != |l| {
      var e :| e in l && !s.es[e].HasCount() &&
               DroppedIn(SourceSettled(Deduced(s, v, l, e), s.es[e].source, v), t, v, i');
      DeducedExtends(s, v, l, e);
      SourceExtends(Deduced(s, v, l, e), s.es[e].source);
      ExtendsOn(s, Deduced(s, v, l, e), t);
    }
  }

  lemma OutStepExtends(s: Snapshot, t: Snapshot, v: nat, i: nat, i': nat)
    requires WellFormed(s.ns, s.es) && v < |s.ns| && OutStepped(s, t, v, i, i')
    ensures Extends(s.ns, s.es, t.ns, t.es)
  {
    var l := s.ns[v].outgoing;
    if Counted(s.es, l) != |l| {
      var e :| e in l && !s.es[e].HasCount() &&
               if HeldBack(s, v, s.es[e].sink) then DroppedOut(s, t, v, i)
               else DroppedOut(SinkFollowed(Deduced(s, v, l, e), s.es[e].sink), t, v, i');
      if !HeldBack(s, v, s.es[e].sink) {
        DeducedExtends(s, v, l, e);
        SinkExtends(Deduced(s, v, l, e), s.es[e].sink);
        ExtendsOn(s, Deduced(s, v, l, e), t);
      }
    }
  }

  // ----- What a quiet state means -----

  /** When both queues have drained, nothing more can be deduced: no counted node has exactly one uncounted edge on a
      side, and no uncounted node has a fully counted side, except the outgoing sides of calls. */
  ghost predicate Complete(ns: seq<Node>, es: seq<Edge>)
    requires WellFormed(ns, es)
  {
    forall v: nat | v < |ns| :: CompleteAt(ns, es, v)
  }

  ghost predicate CompleteAt(ns: seq<Node>, es: seq<Edge>, v: nat)
    requires WellFormed(ns, es) && v < |ns|
  {
    && (ns[v].HasCount() ==> Counted(es, ns[v].incoming) + 1 != |ns[v].incoming|)
    && (!ns[v].HasCount() && ns[v].incoming != [] ==> Counted(es, ns[v].incoming) < |ns[v].incoming|)
    && (ns[v].HasCount() && !ns[v].callSite ==> Counted(es, ns[v].outgoing) + 1 != |ns[v].outgoing|)
    && (!ns[v].HasCount() && !ns[v].callSite && ns[v].outgoing != [] ==>
          Counted(es, ns[v].outgoing) < |ns[v].outgoing|)
  }

  ghost predicate CallFree(ns: seq<Node>) {
    forall v | 0 <= v < |ns| :: !ns[v].callSite
  }

  /** The same graph with the counts of s and maybe more. */
  ghost predicate Above(s: Snapshot, q: Snapshot) {
    && SameLists(s.ns, q.ns) && SameEnds(s.es, q.es)
    && (forall v | 0 <= v < |s.ns| :: s.ns[v].HasCount() ==> q.ns[v].HasCount())
    && (forall e | 0 <= e < |s.es| :: s.es[e].HasCount() ==> q.es[e].HasCount())
  }

  /** Nothing more can be deduced in q, which has the counts of s, and no calls. */
  ghost predicate Bounds(q: Snapshot, s: Snapshot) {
    WellFormed(q.ns, q.es) && Complete(q.ns, q.es) && CallFree(q.ns) && Above(s, q)
  }

  lemma {:induction false} CountedMore(es: seq<Edge>, es': seq<Edge>, l: seq<nat>)
    requires Within(l, |es|) && |es'| == |es| && forall e | 0 <= e < |es| :: es[e].HasCount() ==> es'[e].HasCount()
    ensures Counted(es, l) <= Counted(es', l)
  {
    if l != [] {
      CountedMore(es, es', l[1..]);
    }
  }

  /** In a state in which nothing more can be deduced a counted node with all but one edge of a side counted has the
      last one counted too, and a node with a counted side is counted. */
  lemma BoundsEdge(s: Snapshot, q: Snapshot, v: nat, e: nat)
    requires WellFormed(s.ns, s.es) && Bounds(q, s) && v < |s.ns| && s.ns[v].HasCount()
    ensures e in s.ns[v].incoming && Counted(s.es, s.ns[v].incoming) + 1 >= |s.ns[v].incoming| ==> q.es[e].HasCount()
    ensures e in s.ns[v].outgoing && Counted(s.es, s.ns[v].outgoing) + 1 >= |s.ns[v].outgoing| ==> q.es[e].HasCount()
  {
    CountedMore(s.es, q.es, s.ns[v].incoming);
    CountedMore(s.es, q.es, s.ns[v].outgoing);
    CountedBound(q.es, s.ns[v].incoming);
    CountedBound(q.es, s.ns[v].outgoing);
    assert CompleteAt(q.ns, q.es, v);
  }

  lemma BoundsNode(s: Snapshot, q: Snapshot, v: nat)
    requires WellFormed(s.ns, s.es) && Bounds(q, s) && v < |s.ns|
    ensures s.ns[v].incoming != [] && Counted(s.es, s.ns[v].incoming) == |s.ns[v].incoming| ==> q.ns[v].HasCount()
    ensures s.ns[v].outgoing != [] && Counted(s.es, s.ns[v].outgoing) == |s.ns[v].outgoing| ==> q.ns[v].HasCount()
  {
    CountedMore(s.es, q.es, s.ns[v].incoming);
    CountedMore(s.es, q.es, s.ns[v].outgoing);
    CountedBound(q.es, s.ns[v].incoming);
    CountedBound(q.es, s.ns[v].outgoing);
    assert CompleteAt(q.ns, q.es, v);
  }

  lemma DeducedBounds(s: Snapshot, v: nat, l: seq<nat>, e: nat, q: Snapshot)
    requires WellFormed(s.ns, s.es) && Bounds(q, s) && v < |s.ns| && s.ns[v].HasCount()
    requires (l == s.ns[v].incoming || l == s.ns[v].outgoing) && e in l && Counted(s.es, l) + 1 >= |l|
    ensures Bounds(q, Deduced(s, v, l, e))
  {
    BoundsEdge(s, q, v, e);
  }

  lemma SourceBounds(s: Snapshot, src: nat, q: Snapshot)
    requires WellFormed(s.ns, s.es) && Bounds(q, s) && src < |s.ns| && s.ns[src].outgoing != []
    ensures Bounds(q, SourceFollowed(s, src))
  {
    BoundsNode(s, q, src);
  }

  lemma SinkBounds(s: Snapshot, t: nat, q: Snapshot)
    requires WellFormed(s.ns, s.es) && Bounds(q, s) && t < |s.ns| && s.ns[t].incoming != []
    ensures Bounds(q, SinkFollowed(s, t))
  {
    BoundsNode(s, q, t);
  }

  lemma DeducedInBounds(s: Snapshot, v: nat, e: nat, q: Snapshot)
    requires WellFormed(s.ns, s.es) && Bounds(q, s) && v < |s.ns| && InReady(s, v) && e in s.ns[v].incoming
    ensures Bounds(q, SourceSettled(Deduced(s, v, s.ns[v].incoming, e), s.es[e].source, v))
  {
    DeducedBounds(s, v, s.ns[v].incoming, e, q);
    assert e in s.ns[s.es[e].source].outgoing;
    SourceBounds(Deduced(s, v, s.ns[v].incoming, e), s.es[e].source, q);
  }

  lemma InStepBounds(s: Snapshot, t: Snapshot, v: nat, i: nat, i': nat, q: Snapshot)
    requires WellFormed(s.ns, s.es) && v < |s.ns| && InReady(s, v) && InStepped(s, t, v, i, i') && Bounds(q, s)
    ensures Bounds(q, t)
  {
    var l := s.ns[v].incoming;
    if Counted(s.es, l) != |l| {
      var e :| e in l && !s.es[e].HasCount() &&
               DroppedIn(SourceSettled(Deduced(s, v, l, e), s.es[e].source, v), t, v, i');
      DeducedInBounds(s, v, e, q);
    }
  }

  lemma OutStepBounds(s: Snapshot, t: Snapshot, v: nat, i: nat, i': nat, q: Snapshot)
    requires WellFormed(s.ns, s.es) && v < |s.ns| && OutReady(s, v) && OutStepped(s, t, v, i, i') && Bounds(q, s)
    ensures Bounds(q, t)
  {
    var l := s.ns[v].outgoing;
    if Counted(s.es, l) != |l| {
      var e :| e in l && !s.es[e].HasCount() &&
               if HeldBack(s, v, s.es[e].sink) then DroppedOut(s, t, v, i)
               else DroppedOut(SinkFollowed(Deduced(s, v, l, e), s.es[e].sink), t, v, i');
      DeducedBounds(s, v, l, e, q);
      assert e in s.ns[s.es[e].sink].incoming;
      SinkBounds(Deduced(s, v, l, e), s.es[e].sink, q);
    }
  }

  /** What t counts beyond s is counted, without calls, wherever nothing more can be deduced. */
  ghost predicate Least(s: Snapshot, t: Snapshot) {
    forall q :: Bounds(q, s) ==> Bounds(q, t)
  }

  /** Whatever flow fits s fits t: what t counts beyond s is forced. */
  ghost predicate Forced(s: Snapshot, t: Snapshot) {
    forall f :: Calm(s, f, {}, {}) ==> Calm(t, f, {}, {})
  }

  /** The same graph with some more counts, all of them forced and none that could be done without. */
  ghost predicate Derived(s: Snapshot, t: Snapshot) {
    Extends(s.ns, s.es, t.ns, t.es) && Forced(s, t) && Least(s, t)
  }

  lemma DerivedOn(s: Snapshot, t: Snapshot, u: Snapshot)
    requires Derived(s, t) && Derived(t, u)
    ensures Derived(s, u)
  {
    ExtendsOn(s, t, u);
  }

  lemma InStepDerived(s: Snapshot, t: Snapshot, v: nat, i: nat, i': nat)
    requires WellFormed(s.ns, s.es) && v < |s.ns| && InReady(s, v) && InStepped(s, t, v, i, i')
    ensures Derived(s, t)
  {
    InStepExtends(s, t, v, i, i');
    InStepForced(s, t, v, i, i');
    forall q | Bounds(q, s) ensures Bounds(q, t) {
      InStepBounds(s, t, v, i, i', q);
    }
  }

  lemma OutStepDerived(s: Snapshot, t: Snapshot, v: nat, i: nat, i': nat)
    requires WellFormed(s.ns, s.es) && v < |s.ns| && OutReady(s, v) && OutStepped(s, t, v, i, i')
    ensures Derived(s, t)
  {
    OutStepExtends(s, t, v, i, i');
    OutStepForced(s, t, v, i, i');
    forall q | Bounds(q, s) ensures Bounds(q, t) {
      OutStepBounds(s, t, v, i, i', q);
    }
  }

  lemma InStepForced(s: Snapshot, t: Snapshot, v: nat, i: nat, i': nat)
    requires WellFormed(s.ns, s.es) && v < |s.ns| && InReady(s, v) && InStepped(s, t, v, i, i')
    ensures Forced(s, t)
  {
    forall f | Calm(s, f, {}, {}) ensures Calm(t, f, {}, {}) {
      InStepCalm(s, t, f, v, i, i');
    }
  }

  lemma OutStepForced(s: Snapshot, t: Snapshot, v: nat, i: nat, i': nat)
    requires WellFormed(s.ns, s.es) && v < |s.ns| && OutReady(s, v) && OutStepped(s, t, v, i, i')
    ensures Forced(s, t)
  {
    forall f | Calm(s, f, {}, {}) ensures Calm(t, f, {}, {}) {
      OutStepCalm(s, t, f, v, i, i');
    }
  }

  lemma QuietComplete(s: Snapshot, f: Flow)
    requires Calm(s, f, {}, {}) && s.inQ == [] && s.outQ == []
    ensures Complete(s.ns, s.es) && Agrees(s.ns, s.es, f)
  {
    forall v: nat | v < |s.ns| ensures CompleteAt(s.ns, s.es, v) {
      assert InSettled(s, v) && OutSettled(s, v);
    }
  }

  /** Whatever has been counted is forced: two flows that fit the same measurements agree on it. */
  lemma CountsForced(s: Snapshot, f: Flow, g: Flow)
    requires Calm(s, f, {}, {}) && Calm(s, g, {}, {})
    ensures forall v | 0 <= v < |s.ns| && s.ns[v].HasCount() :: f.node[v] == g.node[v]
    ensures forall e | 0 <= e < |s.es| && s.es[e].HasCount() :: f.edge[e] == g.edge[e]
  {
  }

  // ----- The initial pass over the edges -----

  /** How many counted edges of the list have a number below i. */
  ghost function CountedBelow(es: seq<Edge>, l: seq<nat>, i: nat): nat
    requires Within(l, |es|)
  {
    if l == [] then 0 else (if l[0] < i && es[l[0]].HasCount() then 1 else 0) + CountedBelow(es, l[1..], i)
  }

  lemma {:induction false} BelowStep(es: seq<Edge>, l: seq<nat>, i: nat)
    requires Ids(l, |es|) && i < |es|
    ensures CountedBelow(es, l, i + 1) == CountedBelow(es, l, i) + if i in l && es[i].HasCount() then 1 else 0
  {
    if l != [] {
      BelowStep(es, l[1..], i);
      assert l[0] == i ==> i !in l[1..];
    }
  }

  lemma {:induction false} BelowEnds(es: seq<Edge>, l: seq<nat>)
    requires Within(l, |es|)
    ensures CountedBelow(es, l, 0) == 0 && CountedBelow(es, l, |es|) == Counted(es, l)
  {
    if l != [] {
      BelowEnds(es, l[1..]);
    }
  }

  /** The counters are right for the edges below i. */
  ghost predicate ExactBelow(ns: seq<Node>, es: seq<Edge>, inE: seq<int>, outE: seq<int>, i: nat)
    requires WellFormed(ns, es)
  {
    && |inE| == |outE| == |ns|
    && (forall v | 0 <= v < |ns| :: inE[v] == CountedBelow(es, ns[v].incoming, i))
    && (forall v | 0 <= v < |ns| :: outE[v] == CountedBelow(es, ns[v].outgoing, i))
  }

  lemma ExactEnds(ns: seq<Node>, es: seq<Edge>, inE: seq<int>, outE: seq<int>)
    requires WellFormed(ns, es) && |inE| == |outE| == |ns|
    ensures ExactBelow(ns, es, inE, outE, |es|) <==> Exact(ns, es, inE, outE)
    ensures (forall v | 0 <= v < |ns| :: inE[v] == 0 && outE[v] == 0) ==> ExactBelow(ns, es, inE, outE, 0)
  {
    forall v | 0 <= v < |ns|
      ensures CountedBelow(es, ns[v].incoming, 0) == 0 && CountedBelow(es, ns[v].outgoing, 0) == 0
      ensures CountedBelow(es, ns[v].incoming, |es|) == Counted(es, ns[v].incoming)
      ensures CountedBelow(es, ns[v].outgoing, |es|) == Counted(es, ns[v].outgoing)
    {
      BelowEnds(es, ns[v].incoming);
      BelowEnds(es, ns[v].outgoing);
    }
  }

  lemma ExactStep(ns: seq<Node>, es: seq<Edge>, inE: seq<int>, outE: seq<int>, i: nat)
    requires WellFormed(ns, es) && ExactBelow(ns, es, inE, outE, i) && i < |es|
    ensures !es[i].HasCount() ==> ExactBelow(ns, es, inE, outE, i + 1)
    ensures es[i].HasCount() ==> ExactBelow(ns, es, inE[es[i].sink := inE[es[i].sink] + 1],
                                            outE[es[i].source := outE[es[i].source] + 1], i + 1)
  {
    forall v | 0 <= v < |ns|
      ensures CountedBelow(es, ns[v].incoming, i + 1) ==
              CountedBelow(es, ns[v].incoming, i) + if es[i].sink == v && es[i].HasCount() then 1 else 0
      ensures CountedBelow(es, ns[v].outgoing, i + 1) ==
              CountedBelow(es, ns[v].outgoing, i) + if es[i].source == v && es[i].HasCount() then 1 else 0
    {
      BelowStep(es, ns[v].incoming, i);
      BelowStep(es, ns[v].outgoing, i);
    }
  }
}
