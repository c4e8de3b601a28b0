/** Inputs on which the computation of the counts does not do what it is for. */
module CountExamples {
  import opened CountTheory
  import opened CountFlow
  import opened CountGuess
  import opened ExecCounts

  /** Nothing in the node or beside it gives the initial pass a reason to act. */
  ghost predicate Idle(s: Snapshot, v: nat)
    requires WellFormed(s.ns, s.es) && v < |s.ns|
  {
    && Upgraded(s.ns[v]) == s.ns[v] && !s.ns[v].HasCount()
    && (s.ns[v].incoming != [] ==> Counted(s.es, s.ns[v].incoming) < |s.ns[v].incoming|)
    && (s.ns[v].outgoing != [] ==> Counted(s.es, s.ns[v].outgoing) < |s.ns[v].outgoing|)
  }

  lemma IdleStep(s: Snapshot, entry: nat, v: nat)
    requires WellFormed(s.ns, s.es) && entry < |s.ns| && v < |s.ns| && Idle(s, v)
    ensures !InitAborts(s, v) && InitStep(s, entry, v) == s
  {
    assert s.ns[v := s.ns[v]] == s.ns;
  }

  lemma {:induction false} IdleFrom(s: Snapshot, entry: nat, v: nat)
    requires WellFormed(s.ns, s.es) && entry < |s.ns| && forall u: nat | v <= u < |s.ns| :: Idle(s, u)
    ensures !InitFails(s, entry, v) && InitFrom(s, entry, v) == s
    decreases |s.ns| - v
  {
    if v < |s.ns| {
      IdleStep(s, entry, v);
      IdleFrom(s, entry, v + 1);
    }
  }

  /** An input without counts. */
  ghost predicate Blank(ns: seq<Node>, es: seq<Edge>) {
    && (forall v | 0 <= v < |ns| :: !ns[v].HasCount() && Upgraded(ns[v]) == ns[v])
    && (forall e | 0 <= e < |es| :: !es[e].HasCount())
  }

  lemma {:induction false} NoneCounted(es: seq<Edge>, l: seq<nat>)
    requires Within(l, |es|) && forall e | 0 <= e < |es| :: !es[e].HasCount()
    ensures Counted(es, l) == 0
  {
    if l != [] {
      NoneCounted(es, l[1..]);
    }
  }

  /** Without any counts the computation reports success and leaves every node and edge without one, even where it
      could have guessed. */
  method BlankIsLeft(c: Cfg) returns (ok: bool)
    requires c.Valid() && !c.repaired && !c.tracking && c.guessNode == None
    requires c.inNodes == [] && c.outNodes == [] && c.gCountEdges == [] && c.base.es == []
    requires forall v | 0 <= v < |c.nodes| :: c.inEdges[v] == 0 && c.outEdges[v] == 0
    requires Blank(c.nodes, c.edges)
    modifies c, c.inEdges, c.outEdges, c.base
    ensures ok && c.nodes == old(c.nodes) && c.edges == old(c.edges)
    ensures c.edges != [] ==> !c.AllCounted()
  {
    ghost var s := c.Now();
    forall u: nat | u < |s.ns| ensures Idle(s, u) {
      NoneCounted(s.es, s.ns[u].incoming);
      NoneCounted(s.es, s.ns[u].outgoing);
    }
    IdleFrom(s, c.entry, 0);
    ghost var quiet;
    ok, quiet := c.ComputeBBAndEdgeCounts(Flow([], []));
    assert c.edges != [] ==> !c.edges[0].HasCount();
  }

  // ----- A guess that leads nowhere -----

  /** Block 0 ran once and leads to the exit, block 1; block 2, with a partial count, leads to block 3 on two edges. */
  ghost predicate DeadInput(ns: seq<Node>, es: seq<Edge>) {
    && |ns| == 4 && |es| == 3
    && ns[0] == Node(1, true, false, false, false, false, false, [], [0])
    && ns[1] == Node(0, false, false, false, false, false, true, [0], [])
    && ns[2] == Node(0, false, false, true, false, false, false, [], [1, 2])
    && ns[3] == Node(0, false, false, false, false, false, false, [1, 2], [])
    && es[0] == Edge(0, 1, Fallthru, 0, false, false, false)
    && es[1] == Edge(2, 3, DirectBranch, 0, false, false, false)
    && es[2] == Edge(2, 3, Fallthru, 0, false, false, false)
  }

  lemma DeadLists(ns: seq<Node>, es: seq<Edge>, v: nat, e: nat)
    requires DeadInput(ns, es) && v < 4 && e < 3
    ensures e in ns[v].incoming <==> es[e].sink == v
    ensures e in ns[v].outgoing <==> es[e].source == v
  {
  }

  lemma DeadShape(ns: seq<Node>, es: seq<Edge>)
    requires DeadInput(ns, es)
    ensures WellFormed(ns, es)
  {
    forall v, e: nat | 0 <= v < |ns| && e < |es| ensures e in ns[v].incoming <==> es[e].sink == v {
      DeadLists(ns, es, v, e);
    }
    forall v, e: nat | 0 <= v < |ns| && e < |es| ensures e in ns[v].outgoing <==> es[e].source == v {
      DeadLists(ns, es, v, e);
    }
  }

  lemma ThroughTwo(fe: seq<int>, i: nat, j: nat)
    requires i < |fe| && j < |fe|
    ensures Through(fe, [i]) == fe[i] && Through(fe, [i, j]) == fe[i] + fe[j]
  {
    assert [i, j][1..] == [j];
    assert Through(fe, [j]) == fe[j];
  }

  ghost predicate DeadFlow(f: Flow, a: nat, b: nat) {
    && |f.node| == 4 && f.node[0] == f.node[1] == 1 && f.node[2] == f.node[3] == a + b
    && |f.edge| == 3 && f.edge[0] == 1 && f.edge[1] == a && f.edge[2] == b
  }

  lemma DeadConserved(ns: seq<Node>, es: seq<Edge>, f: Flow, a: nat, b: nat)
    requires DeadInput(ns, es) && DeadFlow(f, a, b) && WellFormed(ns, es)
    ensures Conserved(ns, es, f)
  {
    ThroughTwo(f.edge, 0, 0);
    ThroughTwo(f.edge, 1, 2);
  }

  /** The counts leave it open how often each of the two edges is taken. */
  lemma DeadFits(ns: seq<Node>, es: seq<Edge>, f: Flow, a: nat, b: nat)
    requires DeadInput(ns, es) && DeadFlow(f, a, b)
    ensures WellFormed(ns, es) && Fits(ns, es, f)
  {
    DeadShape(ns, es);
    DeadConserved(ns, es, f, a, b);
  }

  /** What all its flows agree on is known after the first edge, and nothing beyond. */
  lemma DeadQuiet(ns: seq<Node>, es: seq<Edge>, quiet: Snapshot)
    requires DeadInput(ns, es) && WellFormed(ns, es) && WellFormed(quiet.ns, quiet.es)
    requires QuietOf(ns, es, quiet)
    ensures quiet.es[0].HasCount() && !quiet.es[1].HasCount() && !quiet.es[2].HasCount()
    ensures FirstPartial(quiet.ns, 2) && Blocked(quiet.ns, quiet.es, 2)
  {
    DeadOpen(ns, es, quiet, Flow([1, 1, 1, 1], [1, 1, 0]), Flow([1, 1, 2, 2], [1, 0, 2]));
    assert NodeExtends(ns[0], quiet.ns[0]) && NodeExtends(ns[1], quiet.ns[1]) && NodeExtends(ns[2], quiet.ns[2]);
    assert CompleteAt(quiet.ns, quiet.es, 0) && CompleteAt(quiet.ns, quiet.es, 1);
    assert [1, 2][1..] == [2] && Counted(quiet.es, [2]) == 0;
  }

  /** Where two flows that both fit differ there is no count. */
  lemma OpenBetween(ns: seq<Node>, es: seq<Edge>, f: Flow, g: Flow)
    requires WellFormed(ns, es) && Agrees(ns, es, f) && Agrees(ns, es, g)
    ensures forall v | 0 <= v < |ns| :: f.node[v] != g.node[v] ==> !ns[v].HasCount()
    ensures forall e | 0 <= e < |es| :: f.edge[e] != g.edge[e] ==> !es[e].HasCount()
  {
  }

  lemma DeadOpen(ns: seq<Node>, es: seq<Edge>, quiet: Snapshot, f: Flow, g: Flow)
    requires DeadInput(ns, es) && WellFormed(ns, es) && WellFormed(quiet.ns, quiet.es)
    requires |quiet.ns| == 4 && |quiet.es| == 3 && DeadFlow(f, 1, 0) && DeadFlow(g, 0, 2)
    requires forall h | Fits(ns, es, h) :: Agrees(quiet.ns, quiet.es, h)
    ensures !quiet.es[1].HasCount() && !quiet.es[2].HasCount() && !quiet.ns[2].HasCount()
  {
    DeadFits(ns, es, f, 1, 0);
    DeadFits(ns, es, g, 0, 2);
    OpenBetween(quiet.ns, quiet.es, f, g);
  }

  /** Once the first edge has its count nothing more can be deduced, and the one node to guess at has two edges without
      a count on its only side: success is reported although both, and the node behind them, are left without one. */
  method DeadGuessExample() returns (c: Cfg, ok: bool)
    ensures c.Valid() && ok && !c.AllCounted() && |c.nodes| == 4 && c.nodes[2].measured
    ensures |c.edges| == 3 && c.edges[0].HasCount() && !c.edges[1].HasCount() && !c.edges[2].HasCount()
  {
    var ns := [Node(1, true, false, false, false, false, false, [], [0]),
               Node(0, false, false, false, false, false, true, [0], []),
               Node(0, false, false, true, false, false, false, [], [1, 2]),
               Node(0, false, false, false, false, false, false, [1, 2], [])];
    var es := [Edge(0, 1, Fallthru, 0, false, false, false),
               Edge(2, 3, DirectBranch, 0, false, false, false),
               Edge(2, 3, Fallthru, 0, false, false, false)];
    assert DeadInput(ns, es);
    c, ok := RunDead(ns, es);
  }

  method RunDead(ns: seq<Node>, es: seq<Edge>) returns (c: Cfg, ok: bool)
    requires DeadInput(ns, es)
    ensures c.Valid() && ok && !c.AllCounted() && |c.nodes| == 4 && c.nodes[2].measured
    ensures |c.edges| == 3 && c.edges[0].HasCount() && !c.edges[1].HasCount() && !c.edges[2].HasCount()
  {
    ghost var f := Flow([1, 1, 1, 1], [1, 1, 0]);
    DeadFits(ns, es, f, 1, 0);
    c := new Cfg(ns, es, 0, 1);
    ghost var quiet;
    ok, quiet := c.ComputeBBAndEdgeCounts(f);
    DeadQuiet(ns, es, quiet);
    DeadEnds(c, es, quiet, Quiet(InitFrom(Snapshot(ns, es, [], []), 0, 0)), ok);
  }

  /** The run can only have ended at the guess. */
  lemma DeadEnds(c: Cfg, es: seq<Edge>, quiet: Snapshot, atOnce: bool, ok: bool)
    requires WellFormed(quiet.ns, quiet.es) && |quiet.ns| == 4 && |quiet.es| == |es| == 3 && !es[0].HasCount()
    requires if atOnce then c.Now() == quiet && c.edges == es else c.EndsFrom(quiet, ok)
    requires quiet.es[0].HasCount() && !quiet.es[1].HasCount()
    requires FirstPartial(quiet.ns, 2) && Blocked(quiet.ns, quiet.es, 2)
    ensures ok && c.edges == quiet.es && |c.nodes| == 4 && c.nodes[2].measured
  {
    assert !AllCountedIn(quiet.ns, quiet.es, c.hasNonzero);
  }

  // ----- A rollback that takes back more than was derived -----

  /** When a repair in a guess raises the entry, whose count was computed before the guess, the rollback takes that
      count back too and leaves the entry with the raised counter. */
  method RaisedIsLost(c: Cfg, v: nat, lack: nat, delta: nat)
    requires c.Valid() && c.guessNode.Some? && c.guessNode.value != c.entry && v < |c.nodes| && v != c.entry
    requires c.nodes[c.entry].computed && !c.nodes[c.entry].measured
    modifies c, c.inEdges, c.outEdges
    ensures c.Valid() && |c.nodes| == |old(c.nodes)| && !c.nodes[c.entry].HasCount()
    ensures c.nodes[c.entry].counter == old(c.nodes[c.entry].counter) + lack
  {
    c.RepairEntry(v, lack, false);
    c.Rollback(delta);
  }

  // ----- The order of the work list -----

  /** Block 0, a call, came back to block 1, which has a measured count, or to block 2, whose count comes from its
      edge to the exit, block 3. */
  ghost predicate TwoReturns(ns: seq<Node>, es: seq<Edge>) {
    && |ns| == 4 && |es| == 3
    && ns[0] == Node(0, false, false, false, false, true, false, [], [0, 1])
    && ns[1] == Node(1, true, false, false, false, false, false, [0], [])
    && ns[2] == Node(1, false, true, false, false, false, false, [1], [2])
    && ns[3] == Node(1, false, true, false, false, false, true, [2], [])
    && es[0] == Edge(0, 1, Fallthru, 0, false, false, false)
    && es[1] == Edge(0, 2, Bypass, 0, false, false, false)
    && es[2] == Edge(2, 3, Fallthru, 1, true, false, false)
  }

  /** One edge out of the call gets its count, 1; `second` says that it is the second one to do so. */
  lemma ReturnStep(s: Snapshot, v: nat, e: nat, second: bool) returns (t: Snapshot)
    requires WellFormed(s.ns, s.es) && |s.ns| == 4 && |s.es| == 3 && (v == 1 || v == 2) && e == v - 1
    requires s.ns[0] == Node(0, false, false, false, false, true, false, [], [0, 1]) && s.es[e].source == 0
    requires s.ns[v].incoming == [e] && s.ns[v].HasCount() && s.ns[v].counter == 1 && !s.ns[v].partial
    requires !s.es[e].HasCount() && s.es[1 - e].HasCount() == second && (second ==> s.es[1 - e].counter == 1)
    requires s.inQ != [] && s.inQ[0] == Entry(v, 1)
    ensures InStepped(s, t, v, 0, 0) && t.es == s.es[e := s.es[e].Computed(1)]
    ensures t.inQ == s.inQ[1..] && t.outQ == s.outQ
    ensures t.ns == if second && !s.ns[v].measured then s.ns[0 := s.ns[0].Computed(2)] else s.ns
  {
    CountedTwo(s.es, e, e);
    var d := Deduced(s, v, [e], e);
    CountedTwo(d.es, 0, 1);
    var r := SourceSettled(d, 0, v);
    assert Erased(s.inQ, 0) == s.inQ[1..];
    t := r.(inQ := Erased(r.inQ, 0));
    assert DroppedIn(SourceSettled(Deduced(s, v, [e], e), s.es[e].source, v), t, v, 0);
  }

  /** A call takes its count only when the last of its edges is found from a block without a measured count: taken in
      this order the call has a count in the end. */
  lemma CountedInOrder(s: Snapshot) returns (t1: Snapshot, t: Snapshot)
    requires TwoReturns(s.ns, s.es) && WellFormed(s.ns, s.es) && s.inQ == [Entry(1, 1), Entry(2, 1)] && s.outQ == []
    ensures InStepped(s, t1, 1, 0, 0) && WellFormed(t1.ns, t1.es) && |t1.ns| == 4
    ensures InStepped(t1, t, 2, 0, 0) && Quiet(t) && |t.ns| == 4 && t.ns[0].HasCount()
  {
    t1 := ReturnStep(s, 1, 0, false);
    KeepShape(s.ns, s.es, t1.ns, t1.es);
    t := ReturnStep(t1, 2, 1, true);
  }

  /** In the other order it has none. */
  lemma MissedInOrder(s: Snapshot) returns (t1: Snapshot, t: Snapshot)
    requires TwoReturns(s.ns, s.es) && WellFormed(s.ns, s.es) && s.inQ == [Entry(2, 1), Entry(1, 1)] && s.outQ == []
    ensures InStepped(s, t1, 2, 0, 0) && WellFormed(t1.ns, t1.es) && |t1.ns| == 4
    ensures InStepped(t1, t, 1, 0, 0) && Quiet(t) && |t.ns| == 4 && !t.ns[0].HasCount()
  {
    t1 := ReturnStep(s, 2, 1, false);
    KeepShape(s.ns, s.es, t1.ns, t1.es);
    t := ReturnStep(t1, 1, 0, true);
  }

  /** The input both start from. */
  ghost predicate TwoReturnsInput(ns: seq<Node>, es: seq<Edge>) {
    && |ns| == 4 && |es| == 3
    && TwoReturns(ns[2 := ns[2].Computed(1)][3 := ns[3].Computed(1)], es)
    && ns[2] == Node(0, false, false, false, false, false, false, [1], [2])
    && ns[3] == Node(0, false, false, false, false, false, true, [2], [])
  }

  /** Visiting the nodes by number, the initial pass queues block 1 first. */
  lemma OrderInit(s: Snapshot, t: Snapshot)
    requires TwoReturnsInput(s.ns, s.es) && WellFormed(s.ns, s.es) && Quiet(s)
    requires t.ns == s.ns[2 := s.ns[2].Computed(1)][3 := s.ns[3].Computed(1)] && t.es == s.es
    requires t.inQ == [Entry(1, 1), Entry(2, 1)] && t.outQ == []
    ensures TwoReturns(t.ns, t.es) && !InitFails(s, 0, 0) && InitFrom(s, 0, 0) == t
  {
    CountedTwo(s.es, 0, 1);
    CountedTwo(s.es, 2, 2);
    assert !InitAborts(s, 0) && InitStep(s, 0, 0) == s by {
      assert s.ns[0 := s.ns[0]] == s.ns;
    }
    var s1 := s.(inQ := [Entry(1, 1)]);
    assert !InitAborts(s, 1) && InitStep(s, 0, 1) == s1 by {
      assert s.ns[1 := s.ns[1]] == s.ns;
    }
    var s2 := s1.(ns := s.ns[2 := s.ns[2].Computed(1)], inQ := t.inQ);
    assert !InitAborts(s1, 2) && InitStep(s1, 0, 2) == s2 by {
      assert s.ns[2 := s.ns[2]] == s.ns;
    }
    assert !InitAborts(s2, 3) && InitStep(s2, 0, 3) == t by {
      assert s2.ns[3 := s2.ns[3]] == s2.ns;
    }
    assert InitFrom(s2, 0, 3) == InitFrom(t, 0, 4) == t && !InitFails(s2, 0, 3);
    assert InitFrom(s1, 0, 2) == InitFrom(s2, 0, 3) && !InitFails(s1, 0, 2);
    assert InitFrom(s, 0, 1) == InitFrom(s1, 0, 2) && !InitFails(s, 0, 1);
  }

  // ----- A return edge that is there already -----

  /** Block 0, a call that ran 5 times, came back 3 times by way of the exit, block 1, and once to block 2. */
  ghost predicate StaleInput(ns: seq<Node>, es: seq<Edge>) {
    && |ns| == 3 && |es| == 2
    && ns[0] == Node(5, true, false, false, false, true, false, [], [0, 1])
    && ns[1] == Node(0, false, false, false, false, false, true, [0], [])
    && ns[2] == Node(1, true, false, false, false, false, false, [1], [])
    && es[0] == Edge(0, 1, Return, 3, true, false, false)
    && es[1] == Edge(0, 2, Fallthru, 0, false, false, false)
  }

  lemma StaleLists(ns: seq<Node>, es: seq<Edge>, v: nat, e: nat)
    requires StaleInput(ns, es) && v < 3 && e < 2
    ensures e in ns[v].incoming <==> es[e].sink == v
    ensures e in ns[v].outgoing <==> es[e].source == v
  {
  }

  lemma StaleShape(ns: seq<Node>, es: seq<Edge>)
    requires StaleInput(ns, es)
    ensures WellFormed(ns, es)
  {
    forall v, e: nat | 0 <= v < |ns| && e < |es| ensures e in ns[v].incoming <==> es[e].sink == v {
      StaleLists(ns, es, v, e);
    }
    forall v, e: nat | 0 <= v < |ns| && e < |es| ensures e in ns[v].outgoing <==> es[e].source == v {
      StaleLists(ns, es, v, e);
    }
  }

  lemma CountedTwo(es: seq<Edge>, i: nat, j: nat)
    requires i < |es| && j < |es|
    ensures Counted(es, [i]) == if es[i].HasCount() then 1 else 0
    ensures Counted(es, [i, j]) == Counted(es, [i]) + Counted(es, [j])
    ensures SumCounted(es, [i]) == if es[i].HasCount() then es[i].counter else 0
    ensures SumCounted(es, [i, j]) == SumCounted(es, [i]) + SumCounted(es, [j])
  {
    assert [i, j][1..] == [j];
    assert Counted(es, [i]) == if es[i].HasCount() then 1 else 0;
    assert Counted(es, [j]) == if es[j].HasCount() then 1 else 0;
    assert SumCounted(es, [i]) == if es[i].HasCount() then es[i].counter else 0;
    assert SumCounted(es, [j]) == if es[j].HasCount() then es[j].counter else 0;
  }

  /** The initial pass counts the exit and queues the call and block 2. */
  lemma StaleInit(s: Snapshot, t: Snapshot)
    requires StaleInput(s.ns, s.es) && WellFormed(s.ns, s.es) && Quiet(s)
    requires t == Snapshot(s.ns[1 := s.ns[1].Computed(3)], s.es, [Entry(2, 1)], [Entry(0, 1)])
    ensures !InitFails(s, 0, 0) && InitFrom(s, 0, 0) == t
  {
    CountedTwo(s.es, 0, 1);
    CountedTwo(s.es, 1, 0);
    var s1 := s.(outQ := [Entry(0, 1)]);
    assert !InitAborts(s, 0) && InitStep(s, 0, 0) == s1 by {
      assert s.ns[0 := s.ns[0]] == s.ns;
    }
    var s2 := s1.(ns := t.ns);
    assert !InitAborts(s1, 1) && InitStep(s1, 0, 1) == s2 by {
      assert s.ns[1 := s.ns[1]] == s.ns;
    }
    assert !InitAborts(s2, 2) && InitStep(s2, 0, 2) == t by {
      assert t.ns[2 := t.ns[2]] == t.ns;
    }
    assert InitFrom(s2, 0, 2) == InitFrom(t, 0, 3) == t && !InitFails(s2, 0, 2);
    assert InitFrom(s1, 0, 1) == InitFrom(s2, 0, 2) && !InitFails(s1, 0, 1);
  }

  /** What deducing the count of block 2's edge rests on. */
  ghost predicate StaleState(t: Snapshot) {
    && WellFormed(t.ns, t.es) && |t.ns| == 3 && |t.es| == 2
    && t.ns[0].callSite && t.ns[0].measured && t.ns[0].counter == 5 && t.ns[0].outgoing == [0, 1]
    && t.ns[1].computed && t.ns[1].counter == 3
    && t.ns[2].measured && !t.ns[2].partial && t.ns[2].counter == 1 && t.ns[2].incoming == [1]
    && t.es[0] == Edge(0, 1, Return, 3, true, false, false) && t.es[1] == Edge(0, 2, Fallthru, 0, false, false, false)
  }

  /** Block 2 leaves only one count for its incoming edge, and then the call is out of balance. */
  lemma StaleCall(t: Snapshot)
    requires StaleState(t)
    ensures CallStep(t, 2, 1)
  {
    CountedTwo(t.es, 1, 0);
    CountedTwo(Deduced(t, 2, [1], 1).es, 0, 1);
  }

  /** One call is missing, and that becomes the count of the return edge. */
  lemma StaleOutcome(t: Snapshot, ns: seq<Node>, es: seq<Edge>, ok: bool, reused: bool)
    requires StaleState(t) && CallOutcome(Deduced(t, 2, [1], 1), ns, es, 1, 0, ok, reused)
    ensures reused && es == [t.es[0].Computed(1), t.es[1].Computed(1)]
    ensures ok && |ns| == 3 && ns[1].counter == 4
  {
    var d := Deduced(t, 2, [1], 1);
    CountedTwo(t.es, 1, 0);
    CountedTwo(d.es, 0, 1);
    assert d.es[d.ns[0].outgoing[0]].kind == Return;
  }

  /** The first step of the first pass: the measured 3 is lost, the call's outgoing edges sum to 2 instead of 5, the
      exit counts 4 where 1 comes in, and the counters hold the return edge twice. */
  method StaleReturnExample() returns (c: Cfg, ok: bool)
    ensures c.Valid() && c.reused && !Exact(c.nodes, c.edges, c.inEdges[..], c.outEdges[..])
    ensures |c.edges| == 2 && c.edges[0].counter == c.edges[1].counter == 1 && SumCounted(c.edges, [0, 1]) == 2
    ensures ok && |c.nodes| == 3 && c.nodes[1].counter == 4
  {
    var ns := [Node(5, true, false, false, false, true, false, [], [0, 1]),
               Node(0, false, false, false, false, false, true, [0], []),
               Node(1, true, false, false, false, false, false, [1], [])];
    var es := [Edge(0, 1, Return, 3, true, false, false), Edge(0, 2, Fallthru, 0, false, false, false)];
    assert StaleInput(ns, es);
    c, ok := RunStale(ns, es);
    CountedTwo(c.edges, 0, 1);
  }

  method RunStale(ns: seq<Node>, es: seq<Edge>) returns (c: Cfg, ok: bool)
    requires StaleInput(ns, es)
    ensures c.Valid() && c.reused && !Exact(c.nodes, c.edges, c.inEdges[..], c.outEdges[..])
    ensures c.edges == [es[0].Computed(1), es[1].Computed(1)]
    ensures ok && |c.nodes| == 3 && c.nodes[1].counter == 4
  {
    StaleShape(ns, es);
    c := new Cfg(ns, es, 0, 1);
    ghost var s, t := c.Now(), Snapshot(ns[1 := ns[1].Computed(3)], es, [Entry(2, 1)], [Entry(0, 1)]);
    StaleInit(s, t);
    ok := c.Initialize(Flow([], []));
    assert c.Now() == t;
    StaleCall(t);
    var stop, pos;
    ok, stop, pos := c.StepIn(0);
    assert CallStep(t, 2, 1);
    StaleOutcome(t, c.nodes, c.edges, ok, c.reused);
  }

  // ----- A call that does not come back -----

  /** Block 0, a call that ran 5 times, comes back to block 1, which ran 3 times and leaves to the exit, block 2. */
  ghost predicate LostInput(ns: seq<Node>, es: seq<Edge>) {
    && |ns| == 3 && |es| == 2
    && ns[0] == Node(5, true, false, false, false, true, false, [], [0])
    && ns[1] == Node(3, true, false, false, false, false, false, [0], [1])
    && ns[2] == Node(0, false, false, false, false, false, true, [1], [])
    && es[0] == Edge(0, 1, Bypass, 0, false, false, false)
    && es[1] == Edge(1, 2, Fallthru, 3, true, false, false)
  }

  lemma LostLists(ns: seq<Node>, es: seq<Edge>, v: nat, e: nat)
    requires LostInput(ns, es) && v < 3 && e < 2
    ensures e in ns[v].incoming <==> es[e].sink == v
    ensures e in ns[v].outgoing <==> es[e].source == v
  {
  }

  lemma LostShape(ns: seq<Node>, es: seq<Edge>)
    requires LostInput(ns, es)
    ensures WellFormed(ns, es)
  {
    forall v, e: nat | 0 <= v < |ns| && e < |es| ensures e in ns[v].incoming <==> es[e].sink == v {
      LostLists(ns, es, v, e);
    }
    forall v, e: nat | 0 <= v < |ns| && e < |es| ensures e in ns[v].outgoing <==> es[e].source == v {
      LostLists(ns, es, v, e);
    }
  }

  /** The initial pass counts the exit and queues the call and the block it comes back to. */
  lemma LostInit(s: Snapshot, t: Snapshot)
    requires LostInput(s.ns, s.es) && WellFormed(s.ns, s.es) && Quiet(s)
    requires t == Snapshot(s.ns[2 := s.ns[2].Computed(3)], s.es, [Entry(1, 1)], [Entry(0, 1)])
    ensures !InitFails(s, 0, 0) && InitFrom(s, 0, 0) == t
  {
    CountedTwo(s.es, 0, 1);
    CountedTwo(s.es, 1, 0);
    var s1 := s.(outQ := [Entry(0, 1)]);
    assert !InitAborts(s, 0) && InitStep(s, 0, 0) == s1 by {
      assert s.ns[0 := s.ns[0]] == s.ns;
    }
    var s2 := s1.(inQ := [Entry(1, 1)]);
    assert !InitAborts(s1, 1) && InitStep(s1, 0, 1) == s2 by {
      assert s.ns[1 := s.ns[1]] == s.ns;
    }
    assert !InitAborts(s2, 2) && InitStep(s2, 0, 2) == t by {
      assert s.ns[2 := s.ns[2]] == s.ns;
    }
    assert InitFrom(s2, 0, 2) == InitFrom(t, 0, 3) == t && !InitFails(s2, 0, 2);
    assert InitFrom(s1, 0, 1) == InitFrom(s2, 0, 2) && !InitFails(s1, 0, 1);
  }

  /** What deducing the count of the edge to block 1 rests on. */
  ghost predicate LostState(t: Snapshot) {
    && WellFormed(t.ns, t.es) && |t.ns| == 3 && |t.es| == 2
    && t.ns[0].callSite && t.ns[0].measured && t.ns[0].counter == 5 && t.ns[0].outgoing == [0]
    && t.ns[1].measured && !t.ns[1].partial && t.ns[1].counter == 3 && t.ns[1].incoming == [0]
    && t.ns[2].computed && t.ns[2].counter == 3 && t.ns[2].incoming == [1]
    && t.es[0] == Edge(0, 1, Bypass, 0, false, false, false) && t.es[1] == Edge(1, 2, Fallthru, 3, true, false, false)
  }

  lemma LostCall(t: Snapshot)
    requires LostState(t)
    ensures CallStep(t, 1, 0)
  {
    CountedTwo(t.es, 0, 1);
    CountedTwo(Deduced(t, 1, [0], 0).es, 0, 1);
  }

  /** Two calls are missing; they come into the exit by a new return edge, and the exit counts them. */
  lemma LostOutcome(t: Snapshot, ns: seq<Node>, es: seq<Edge>, ok: bool, reused: bool)
    requires LostState(t) && CallOutcome(Deduced(t, 1, [0], 0), ns, es, 2, 0, ok, reused)
    ensures ok && !reused && es == [t.es[0].Computed(3), t.es[1], Edge(0, 2, Return, 2, false, true, false)]
    ensures |ns| == 3 && ns[2].incoming == [1, 2] && ns[2].HasCount() && ns[2].counter == 5
  {
    var d := Deduced(t, 1, [0], 0);
    CountedTwo(t.es, 0, 1);
    CountedTwo(d.es, 0, 1);
    CountedTwo(d.es, 1, 0);
    LinkedAt(d.ns, 2, 0, 2);
    assert !Joined(d.ns, d.es, 0, 2, Return);
  }

  /** The first step of the first pass makes it 5 executions of the exit, 3 by way of block 1 and 2 from the call. */
  method LostCallsExample() returns (c: Cfg, ok: bool)
    ensures c.Valid() && ok && !c.reused && |c.edges| == 3 && |c.nodes| == 3
    ensures c.edges[2] == Edge(0, 2, Return, 2, false, true, false)
    ensures c.nodes[2].HasCount() && c.nodes[2].counter == 5 == SumCounted(c.edges, c.nodes[2].incoming)
  {
    var ns := [Node(5, true, false, false, false, true, false, [], [0]),
               Node(3, true, false, false, false, false, false, [0], [1]),
               Node(0, false, false, false, false, false, true, [1], [])];
    var es := [Edge(0, 1, Bypass, 0, false, false, false), Edge(1, 2, Fallthru, 3, true, false, false)];
    assert LostInput(ns, es);
    c, ok := RunLost(ns, es);
    CountedTwo(c.edges, 1, 2);
  }

  method RunLost(ns: seq<Node>, es: seq<Edge>) returns (c: Cfg, ok: bool)
    requires LostInput(ns, es)
    ensures c.Valid() && ok && !c.reused && |c.nodes| == 3
    ensures c.edges == [es[0].Computed(3), es[1], Edge(0, 2, Return, 2, false, true, false)]
    ensures c.nodes[2].incoming == [1, 2] && c.nodes[2].HasCount() && c.nodes[2].counter == 5
  {
    LostShape(ns, es);
    c := new Cfg(ns, es, 0, 2);
    ghost var s, t := c.Now(), Snapshot(ns[2 := ns[2].Computed(3)], es, [Entry(1, 1)], [Entry(0, 1)]);
    LostInit(s, t);
    ok := c.Initialize(Flow([], []));
    assert c.Now() == t;
    LostCall(t);
    var stop, pos;
    ok, stop, pos := c.StepIn(0);
    assert CallStep(t, 1, 0);
    LostOutcome(t, c.nodes, c.edges, ok, c.reused);
  }
}
