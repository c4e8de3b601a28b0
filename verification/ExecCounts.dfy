/** Execution counts of blocks and edges, derived from the measured ones by Kirchhoff's law. */
module ExecCounts {
  import opened CountTheory
  import opened CountFlow
  import opened CountGuess

  datatype Option<T> = None | Some(value: T)

  /** The edges derived since the guess: each once, and counted for no other reason. */
  /** The counts, the queues, and what is known of the guess being followed up. */
  datatype Moment = Moment(at: Snapshot, guess: Option<nat>, failures: int, failEdge: Option<nat>,
                           failNode: Option<nat>)

  /** A guess falls short by delta, seen at the edge e or else at v: the run is given up when the last failure was seen
      there too, and on the hundredth; else the guess grows by delta. */
  ghost predicate GuessFailed(m: Moment, m': Moment, e: Option<nat>, v: nat, delta: int, ok: bool) {
    && m.guess.Some? && m.guess.value < |m.at.ns| == |m'.at.ns|
    && (ok <==> m.failures < 99 && !((e.Some? && m.failEdge == e) || (e == None && m.failNode == Some(v))))
    && (ok ==> && m'.failEdge == e && m'.failNode == (if e.Some? then None else Some(v))
               && m'.at.ns[m.guess.value].counter == m.at.ns[m.guess.value].counter + delta)
  }

  /** The same, seen at the edge of the list that has no count, or else at v. */
  ghost predicate GuessFailedAt(m: Moment, m': Moment, l: seq<nat>, v: nat, delta: int, ok: bool)
    requires Within(l, |m.at.es|)
  {
    exists e: Option<nat> :: LastEdge(m.at.es, l, e) && GuessFailed(m, m', e, v, delta, ok)
  }

  /** The edge of the list that has no count, where there is one. */
  ghost predicate LastEdge(es: seq<Edge>, l: seq<nat>, d: Option<nat>)
    requires Within(l, |es|)
  {
    if Counted(es, l) == |l| then d == None else d.Some? && d.value in l && d.value < |es| && !es[d.value].HasCount()
  }

  ghost predicate GuessList(es: seq<Edge>, l: seq<nat>) {
    && Ids(l, |es|)
    && forall i | 0 <= i < |l| :: es[l[i]].computed && !es[l[i]].measured && !es[l[i]].guessed
  }

  /** The counted edges are those counted when the guess was made and, beyond them, the ones on the guess list. */
  ghost predicate Tracked(es: seq<Edge>, l: seq<nat>, base: set<nat>) {
    && (forall e | e in base :: e < |es| && es[e].HasCount() && e !in l)
    && (forall e: nat | e < |es| && es[e].HasCount() :: e in base || e in l)
  }

  /** The counted edges are these. */
  ghost predicate EdgesAre(es: seq<Edge>, counted: set<nat>) {
    forall e: nat | e < |es| :: es[e].HasCount() <==> e in counted
  }

  /** The edges as they were when nothing more could be deduced without a guess. */
  class Baseline {
    ghost var es: seq<Edge>

    ghost constructor ()
      ensures es == []
    {
      es := [];
    }
  }

  /** Edges with a count in `base` are as they were and stay so in a rollback. */
  ghost predicate Frozen(base: seq<Edge>, es: seq<Edge>, l: seq<nat>) {
    && |base| <= |es|
    && forall e: nat | e < |base| && base[e].HasCount() :: es[e] == base[e] && e !in l
  }

  /** One of the first n edges has been executed, by the counts there are. */
  ghost predicate RunEdge(es: seq<Edge>, n: nat) {
    exists e :: 0 <= e < |es| && e < n && es[e].HasCount() && es[e].counter > 0
  }

  /** The counts of the input show some execution. */
  ghost predicate RunAtStart(s: Snapshot, entry: nat)
    requires WellFormed(s.ns, s.es) && entry < |s.ns|
  {
    RunEdge(s.es, |s.es|) || InitRuns(s, entry, 0)
  }

  lemma RunEdgeNext(es: seq<Edge>, n: nat)
    requires n < |es|
    ensures RunEdge(es, n + 1) <==> RunEdge(es, n) || (es[n].HasCount() && es[n].counter > 0)
  {
  }

  /** With an empty list of derived edges. */
  lemma TrackedNow(base: seq<Edge>, es: seq<Edge>, l: seq<nat>, counted: set<nat>)
    requires GuessList(es, l) && Frozen(base, es, l) && counted == set e: nat | e < |es| && es[e].HasCount()
    ensures GuessList(es, []) && Frozen(base, es, []) && Tracked(es, [], counted)
  {
  }

  /** With the derived edges taken back. */
  lemma RevertedLists(base: seq<Edge>, es: seq<Edge>, es': seq<Edge>, l: seq<nat>, counted: set<nat>)
    requires GuessList(es, l) && Frozen(base, es, l) && EdgesReverted(es, es', l)
    ensures GuessList(es', []) && Frozen(base, es', [])
    ensures Tracked(es, l, counted) ==>
              Tracked(es', [], counted) && EdgesAre(es', counted)
  {
  }

  /** One more edge is counted, and entered in the list when a guess is being followed up. */
  lemma Recorded(base: seq<Edge>, es: seq<Edge>, l: seq<nat>, l': seq<nat>, counted: set<nat>, e: nat, c: int)
    requires GuessList(es, l) && Frozen(base, es, l) && e < |es| && !es[e].HasCount() && (l' == l || l' == l + [e])
    ensures GuessList(es[e := es[e].Computed(c)], l') && Frozen(base, es[e := es[e].Computed(c)], l')
    ensures l' == l + [e] && Tracked(es, l, counted) ==> Tracked(es[e := es[e].Computed(c)], l', counted)
  {
  }

  class Cfg {
    var nodes: seq<Node>
    var edges: seq<Edge>
    const entry: nat
    const exit: nat
    const inEdges: array<int>
    const outEdges: array<int>
    var inNodes: seq<Entry>
    var outNodes: seq<Entry>
    var gCountNodes: seq<nat>
    var gCountEdges: seq<nat>
    var guessNode: Option<nat>
    var numFailures: int
    var failNode: Option<nat>
    var failEdge: Option<nat>
    var hasNonzero: bool
    ghost const base: Baseline
    ghost const callFree: bool  // the graph has no call surrogates
    ghost var reused: bool  // some return edge was not a fresh one
    ghost var repaired: bool  // an entry or return edge has been added or used again
    ghost var tracking: bool  // a guess is being followed up
    ghost var atGuess: set<nat>  // the edges that had a count when it was made
    ghost var guessed: Snapshot  // the state it was made in, with the guess node taken for counted

    constructor (ns: seq<Node>, es: seq<Edge>, cfgEntry: nat, cfgExit: nat)
      requires WellFormed(ns, es) && cfgEntry < |ns| && cfgExit < |ns|
      ensures nodes == ns && edges == es && entry == cfgEntry && exit == cfgExit
      ensures Valid() && guessNode == None && !reused && !repaired && !tracking
      ensures inNodes == [] && outNodes == [] && gCountEdges == []
      ensures fresh(inEdges) && fresh(outEdges) && fresh(base) && base.es == [] && callFree == CallFree(ns)
      ensures forall v | 0 <= v < |ns| :: inEdges[v] == 0 && outEdges[v] == 0
    {
      nodes, edges, entry, exit := ns, es, cfgEntry, cfgExit;
      inEdges := new int[|ns|](_ => 0);
      outEdges := new int[|ns|](_ => 0);
      inNodes, outNodes, gCountNodes, gCountEdges := [], [], [], [];
      guessNode, numFailures, failNode, failEdge := None, 0, None, None;
      hasNonzero, reused, repaired, tracking, atGuess := false, false, false, false, {};
      guessed := Snapshot([], [], [], []);
      base := new Baseline();
      callFree := CallFree(ns);
    }

    ghost predicate Valid()
      reads this
    {
      && WellFormed(nodes, edges)
      && entry < |nodes| && exit < |nodes|
      && inEdges.Length == outEdges.Length == |nodes| && inEdges != outEdges
      && QueueOf(inNodes, |nodes|) && QueueOf(outNodes, |nodes|)
      && Within(gCountNodes, |nodes|) && Within(gCountEdges, |edges|)
      && (guessNode.Some? ==> guessNode.value < |nodes|)
      && 0 <= numFailures < 100
      && (callFree ==> CallFree(nodes) && !reused) && (reused ==> repaired)
    }

    /** The counter arrays are right, and so is the list of edges a rollback takes back. */
    ghost predicate Sound()
      requires Valid()
      reads this, inEdges, outEdges, base
    {
      && Exact(nodes, edges, inEdges[..], outEdges[..]) && GuessList(edges, gCountEdges)
      && Frozen(base.es, edges, gCountEdges)
      && (tracking ==> guessNode.Some? && Tracked(edges, gCountEdges, atGuess))
      && (tracking && !repaired ==> Resumable(guessed, guessNode.value, nodes, edges, gCountNodes, gCountEdges))
    }

    ghost function Now(): Snapshot
      reads this
    {
      Snapshot(nodes, edges, inNodes, outNodes)
    }

    ghost function Here(): Moment
      reads this
    {
      Moment(Now(), guessNode, numFailures, failEdge, failNode)
    }

    /** How a step on the incoming side of v, begun at m, has ended. Without a count to start from, or with two
        missing, it fails. It goes through when nothing is in the way, and may bring a call into balance. What v
        lacks comes in from the entry, unless v is a routine entry. When more comes in than v has, or too little for
        a partial count at the other end of the deduced edge, that is a failed guess. */
    ghost predicate InEnded(m: Moment, v: nat, pos: nat, ok: bool, stop: bool, pos': nat)
      requires Valid() && WellFormed(m.at.ns, m.at.es) && v < |m.at.ns| == |nodes|
      reads this, inEdges, outEdges
    {
      var s, l := m.at, m.at.ns[v].incoming;
      && (NotReady(s, v, l) ==> !ok)
      && (!InTrouble(s, v) ==>
            && (m.guess == None || !InFails(s, v) ==> ok && !stop)
            && (ok && !stop ==> !reused && InStepped(s, Now(), v, pos, pos')))
      && (forall e: nat | CallStep(s, v, e) ::
            && !stop
            && CallOutcome(Deduced(s, v, l, e), nodes, edges, exit, s.es[e].source, ok, reused)
            && (reused ==> !Exact(nodes, edges, inEdges[..], outEdges[..])))
      && (InLacks(s, v) ==> !stop && (ok <==> !s.ns[v].routineEntry) && (ok ==> InRaised(s, Now(), entry, v, pos)))
      && (InShort(s, v) ==>
            if m.guess == None then !ok else stop && GuessFailedAt(m, Here(), l, v, -InRest(s, v), ok))
      && (forall e: nat | m.guess.Some? && InFailsAt(s, v, e) ::
            stop && GuessFailed(m, Here(), None, s.es[e].source, InMissing(s, v, e), ok))
    }

    /** All is as the flow f would have it, and so would any guess be. */
    ghost predicate Good(f: Flow, xin: set<nat>, xout: set<nat>)
      reads this, inEdges, outEdges, base
    {
      && Valid() && Sound() && !reused && (guessNode == None || Full(nodes, f))
      && Calm(Now(), f, xin, xout)
    }

    /** Unless an edge has been added or used again, nothing is left to deduce that is not queued. */
    ghost predicate Steady()
      reads this
    {
      !repaired ==> Settled(Now(), {}, {})
    }

    /** So it is when a guess is followed up anew. */
    ghost predicate Restarted()
      reads this
    {
      guessNode.Some? && (tracking ==> Steady())
    }

    /** Subtracts the known counts of a list from `start` and finds the one edge without a count; fails on two. */
    method Scan(l: seq<nat>, start: int) returns (ok: bool, rest: int, theEdge: Option<nat>)
      requires Ids(l, |edges|)
      ensures ok <==> Counted(edges, l) >= |l| - 1
      ensures ok ==> rest == start - SumCounted(edges, l)
      ensures ok ==> (theEdge == None <==> Counted(edges, l) == |l|)
      ensures ok && theEdge.Some? ==> theEdge.value in l && !edges[theEdge.value].HasCount()
    {
      ok, rest, theEdge := true, start, None;
      var i := 0;
      while i < |l|
        invariant 0 <= i <= |l|
        invariant rest == start - SumCounted(edges, l) + SumCounted(edges, l[i..])
        invariant Counted(edges, l) - Counted(edges, l[i..]) == i - if theEdge.Some? then 1 else 0
        invariant theEdge.Some? ==> theEdge.value in l && !edges[theEdge.value].HasCount()
      {
        var e := l[i];
        assert l[i..][1..] == l[i + 1..];
        CountedBound(edges, l[i + 1..]);
        if edges[e].HasCount() {
          rest := rest - edges[e].counter;
        } else {
          if theEdge.Some? {
            return false, rest, theEdge;
          }
          theEdge := Some(e);
        }
        i := i + 1;
      }
    }

    /** Sums a list in which every edge must have a count. */
    method SumAll(l: seq<nat>) returns (ok: bool, sum: int)
      requires Ids(l, |edges|)
      ensures ok <==> Counted(edges, l) == |l|
      ensures ok ==> sum == SumCounted(edges, l)
    {
      ok, sum := true, 0;
      var i := 0;
      CountedBound(edges, l);
      while i < |l|
        invariant 0 <= i <= |l|
        invariant sum + SumCounted(edges, l[i..]) == SumCounted(edges, l)
        invariant forall j | 0 <= j < i :: edges[l[j]].HasCount()
      {
        assert l[i..][1..] == l[i + 1..];
        if !edges[l[i]].HasCount() {
          assert l[i] in l;
          return false, sum;
        }
        sum := sum + edges[l[i]].counter;
        i := i + 1;
      }
    }

    /** Gives an edge a computed count and enters it in the counters at both ends. */
    method CountEdge(e: nat, c: int)
      requires Valid() && e < |edges|
      modifies this`edges, this`gCountEdges, inEdges, outEdges
      ensures Valid()
      ensures edges == old(edges)[e := old(edges[e]).Computed(c)]
      ensures gCountEdges == old(gCountEdges) + if guessNode.Some? then [e] else []
      ensures Sound() || !old(Sound()) || old(edges[e]).HasCount()
      ensures inEdges[..] == old(inEdges[..])[edges[e].sink := old(inEdges[edges[e].sink]) + 1]
      ensures outEdges[..] == old(outEdges[..])[edges[e].source := old(outEdges[edges[e].source]) + 1]
    {
      ghost var es, inE, outE, l, sound := edges, inEdges[..], outEdges[..], gCountEdges, Sound();
      BookEdge(e, c);
      if guessNode.Some? {
        gCountEdges := gCountEdges + [e];
      }
      if sound && !es[e].HasCount() {
        MarkExact(nodes, es, inE, outE, e, c);
        Recorded(base.es, es, l, gCountEdges, atGuess, e, c);
        if tracking && !repaired {
          EdgeTakenBack(guessed, nodes, es, gCountNodes, l, e, c);
        }
      }
    }

    method BookEdge(e: nat, c: int)
      requires Valid() && e < |edges|
      modifies this`edges, inEdges, outEdges
      ensures Valid() && edges == old(edges)[e := old(edges[e]).Computed(c)]
      ensures inEdges[..] == old(inEdges[..])[edges[e].sink := old(inEdges[edges[e].sink]) + 1]
      ensures outEdges[..] == old(outEdges[..])[edges[e].source := old(outEdges[edges[e].source]) + 1]
    {
      var s, t := edges[e].source, edges[e].sink;
      edges := edges[e := edges[e].Computed(c)];
      inEdges[t] := inEdges[t] + 1;
      outEdges[s] := outEdges[s] + 1;
      KeepShape(nodes, old(edges), nodes, edges);
    }

    /** Adds a fresh edge, not yet counted. */
    method AddEdge(s: nat, t: nat, kind: EdgeKind) returns (e: nat)
      requires Valid() && repaired && s < |nodes| && t < |nodes|
      modifies this`nodes, this`edges
      ensures Valid() == old(Valid())
      ensures e == |old(edges)| && edges == old(edges) + [Edge(s, t, kind, 0, false, false, false)]
      ensures nodes == Linked(old(nodes), e, s, t)
      ensures Sound() || !old(Sound())
    {
      ghost var ns, es := nodes, edges;
      e := |edges|;
      var n := Edge(s, t, kind, 0, false, false, false);
      edges := edges + [n];
      nodes := Linked(nodes, e, s, t);
      AppendShape(ns, es, n);
      if Exact(ns, es, inEdges[..], outEdges[..]) {
        AppendExact(ns, es, inEdges[..], outEdges[..], n);
      }
    }

    /** Finds an edge of this kind between the two nodes, or adds one. */
    method AddUniqueEdge(s: nat, t: nat, kind: EdgeKind) returns (e: nat)
      requires Valid() && repaired && s < |nodes| && t < |nodes|
      modifies this`nodes, this`edges
      ensures Valid() && e < |edges|
      ensures Joined(old(nodes), old(edges), s, t, kind) ==>
                && nodes == old(nodes) && edges == old(edges) && e in nodes[s].outgoing
                && edges[e].sink == t && edges[e].kind == kind
      ensures !Joined(old(nodes), old(edges), s, t, kind) ==>
                && e == |old(edges)| && edges == old(edges) + [Edge(s, t, kind, 0, false, false, false)]
                && nodes == Linked(old(nodes), e, s, t)
      ensures Sound() || !old(Sound())
    {
      var i := 0;
      while i < |nodes[s].outgoing|
        invariant 0 <= i <= |nodes[s].outgoing|
        invariant forall j | 0 <= j < i ::
                    !(edges[nodes[s].outgoing[j]].sink == t && edges[nodes[s].outgoing[j]].kind == kind)
      {
        e := nodes[s].outgoing[i];
        if edges[e].sink == t && edges[e].kind == kind {
          return;
        }
        i := i + 1;
      }
      e := AddEdge(s, t, kind);
    }

    /** Changes a node without touching its edge lists. */
    method PutNode(v: nat, n: Node)
      requires Valid() && v < |nodes| && n.incoming == nodes[v].incoming && n.outgoing == nodes[v].outgoing
      requires n.callSite == nodes[v].callSite && (SameCount(nodes[v], n) || !tracking || repaired)
      modifies this`nodes
      ensures Valid() && (Sound() || !old(Sound()))
      ensures nodes == old(nodes)[v := n] && SameLists(old(nodes), nodes)
      ensures n.measured == old(nodes[v].measured) ==> SameFlags(old(nodes), nodes)
    {
      ghost var ns := nodes;
      nodes := nodes[v := n];
      KeepShape(ns, edges, nodes, edges);
      if Exact(ns, edges, inEdges[..], outEdges[..]) {
        KeepExact(ns, edges, inEdges[..], outEdges[..], nodes);
      }
      if SameCount(ns[v], n) && TakenBack(guessed, ns, edges, gCountNodes, gCountEdges) {
        PutTakenBack(guessed, ns, edges, gCountNodes, gCountEdges, v, n);
      }
    }

    /** Gives a node a computed count. */
    method SetNodeCount(v: nat, c: int)
      requires Valid() && v < |nodes| && (!nodes[v].HasCount() || !tracking || repaired)
      modifies this`nodes, this`gCountNodes
      ensures Valid() && (Sound() || !old(Sound()))
      ensures nodes == old(nodes)[v := old(nodes[v]).Computed(c)]
      ensures SameLists(old(nodes), nodes) && SameFlags(old(nodes), nodes)
      ensures gCountNodes == old(gCountNodes) + if guessNode.Some? then [v] else []
    {
      ghost var ns, l := nodes, gCountNodes;
      nodes := nodes[v := nodes[v].Computed(c)];
      if guessNode.Some? {
        gCountNodes := gCountNodes + [v];
      }
      KeepShape(ns, edges, nodes, edges);
      if Exact(ns, edges, inEdges[..], outEdges[..]) {
        KeepExact(ns, edges, inEdges[..], outEdges[..], nodes);
      }
      if !ns[v].HasCount() && TakenBack(guessed, ns, edges, l, gCountEdges) {
        NodeTakenBack(guessed, ns, edges, l, gCountEdges, v, c);
      }
    }

    /** Raises the count of a node that has one. */
    method RaiseNodeCount(v: nat, c: int)
      requires Valid() && repaired && v < |nodes|
      modifies this`nodes, this`gCountNodes
      ensures Valid() && (Sound() || !old(Sound()))
      ensures nodes == old(nodes)[v := old(nodes)[v].Raised(c)]
      ensures SameLists(old(nodes), nodes) && SameFlags(old(nodes), nodes)
      ensures gCountNodes == old(gCountNodes) + if guessNode.Some? then [v] else []
    {
      PutNode(v, nodes[v].Raised(c));
      if guessNode.Some? {
        gCountNodes := gCountNodes + [v];
      }
    }

    method InsertIn(v: nat) returns (u: nat)
      requires Valid() && v < |nodes|
      modifies this`inNodes
      ensures Valid() && (Sound() || !old(Sound())) && u <= |old(inNodes)|
      ensures u == UpperBound(old(inNodes), |nodes[v].incoming| - inEdges[v])
      ensures inNodes == Inserted(old(inNodes), u, Entry(v, |nodes[v].incoming| - inEdges[v]))
    {
      var key := |nodes[v].incoming| - inEdges[v];
      u := UpperBound(inNodes, key);
      inNodes := Inserted(inNodes, u, Entry(v, key));
    }

    method InsertOut(v: nat) returns (u: nat)
      requires Valid() && v < |nodes|
      modifies this`outNodes
      ensures Valid() && (Sound() || !old(Sound())) && u <= |old(outNodes)|
      ensures u == UpperBound(old(outNodes), |nodes[v].outgoing| - outEdges[v])
      ensures outNodes == Inserted(old(outNodes), u, Entry(v, |nodes[v].outgoing| - outEdges[v]))
    {
      var key := |nodes[v].outgoing| - outEdges[v];
      u := UpperBound(outNodes, key);
      outNodes := Inserted(outNodes, u, Entry(v, key));
    }

    method DropIn(i: nat)
      requires Valid() && i < |inNodes|
      modifies this`inNodes
      ensures Valid() && (Sound() || !old(Sound())) && inNodes == Erased(old(inNodes), i)
    {
      inNodes := Erased(inNodes, i);
    }

    method DropOut(i: nat)
      requires Valid() && i < |outNodes|
      modifies this`outNodes
      ensures Valid() && (Sound() || !old(Sound())) && outNodes == Erased(old(outNodes), i)
    {
      outNodes := Erased(outNodes, i);
    }

    /** Starts again from the guess node with a larger guess: every count derived since the guess is taken back. */
    method Rollback(delta: int)
      requires Valid() && guessNode.Some?
      modifies this`nodes, this`edges, this`gCountNodes, this`gCountEdges, this`inNodes, this`outNodes,
               inEdges, outEdges
      ensures Valid()
      ensures SameFlags(old(nodes), nodes) && SameLists(old(nodes), nodes) && SameEnds(old(edges), edges)
      ensures NodesReverted(old(nodes), nodes, old(gCountNodes), guessNode.value, delta)
      ensures EdgesReverted(old(edges), edges, old(gCountEdges))
      ensures gCountNodes == [] && gCountEdges == []
      ensures EdgesAre(edges, atGuess) || !tracking || !old(Sound())
      ensures inNodes == if inEdges[guessNode.value] + 1 == |nodes[guessNode.value].incoming|
                         then [Entry(guessNode.value, 1)] else []
      ensures outNodes == if outEdges[guessNode.value] + 1 == |nodes[guessNode.value].outgoing|
                          then [Entry(guessNode.value, 1)] else []
      ensures Sound() || !old(Sound())
      ensures Settled(Now(), {}, {}) || repaired || !tracking || !old(Sound())
      ensures SameCounts(guessed.ns, nodes) || repaired || !tracking || !old(Sound())
    {
      Revert(delta);
      Requeue();
      if Sound() && tracking && !repaired {
        RestartSettled(guessed, Now(), guessNode.value);
      }
    }

    /** The counts as they were when the guess was made, with the larger guess. */
    method Revert(delta: int)
      requires Valid() && guessNode.Some?
      modifies this`nodes, this`edges, this`gCountNodes, this`gCountEdges, inEdges, outEdges
      ensures Valid()
      ensures SameFlags(old(nodes), nodes) && SameLists(old(nodes), nodes) && SameEnds(old(edges), edges)
      ensures NodesReverted(old(nodes), nodes, old(gCountNodes), guessNode.value, delta)
      ensures EdgesReverted(old(edges), edges, old(gCountEdges))
      ensures gCountNodes == [] && gCountEdges == []
      ensures EdgesAre(edges, atGuess) || !tracking || !old(Sound())
      ensures Sound() || !old(Sound())
    {
      ghost var sound, s, lv, le := Sound(), Now(), gCountNodes, gCountEdges;
      RevertNodes(delta);
      Uncount(sound);
      gCountNodes, gCountEdges := [], [];
      RevertedKeeps(s.ns, nodes, lv, guessNode.value, delta);
      if sound {
        RevertedLists(base.es, s.es, edges, le, atGuess);
        if tracking && !repaired {
          RevertedTakenBack(guessed, s, Now(), lv, le, guessNode.value, delta);
        }
      }
    }

    method RevertNodes(delta: int)
      requires Valid() && guessNode.Some?
      modifies this`nodes
      ensures Valid() && (Sound() || !old(Sound()))
      ensures NodesReverted(old(nodes), nodes, gCountNodes, guessNode.value, delta)
    {
      PutNode(guessNode.value, nodes[guessNode.value].(counter := nodes[guessNode.value].counter + delta));
      ClearNodes();
    }

    /** Takes back the node counts on the guess list. */
    method ClearNodes()
      requires Valid()
      modifies this`nodes
      ensures Valid() && |nodes| == |old(nodes)|
      ensures forall v | 0 <= v < |nodes| ::
                nodes[v] == old(nodes[v]).(computed := old(nodes[v].computed) && v !in gCountNodes)
      ensures Sound() || !old(Sound())
    {
      ghost var ns := nodes;
      var i := 0;
      while i < |gCountNodes|
        invariant 0 <= i <= |gCountNodes| && |nodes| == |ns|
        invariant forall v | 0 <= v < |nodes| ::
                    nodes[v] == ns[v].(computed := ns[v].computed && v !in gCountNodes[..i])
      {
        var v := gCountNodes[i];
        nodes := nodes[v := nodes[v].(computed := false)];
        assert gCountNodes[..i + 1] == gCountNodes[..i] + [v];
        i := i + 1;
      }
      assert gCountNodes[..i] == gCountNodes;
      KeepShape(ns, edges, nodes, edges);
      if Exact(ns, edges, inEdges[..], outEdges[..]) {
        KeepExact(ns, edges, inEdges[..], outEdges[..], nodes);
      }
      if TakenBack(guessed, ns, edges, gCountNodes, gCountEdges) {
        ClearTakenBack(guessed, ns, edges, gCountNodes, gCountEdges, nodes);
      }
    }

    /** Empties the work lists and puts the guess node back on those where it has one uncounted edge. */
    method Requeue()
      requires Valid() && guessNode.Some?
      modifies this`inNodes, this`outNodes
      ensures Valid() && (Sound() || !old(Sound()))
      ensures inNodes == if inEdges[guessNode.value] + 1 == |nodes[guessNode.value].incoming|
                         then [Entry(guessNode.value, 1)] else []
      ensures outNodes == if outEdges[guessNode.value] + 1 == |nodes[guessNode.value].outgoing|
                          then [Entry(guessNode.value, 1)] else []
      ensures Requeued(Now(), guessNode.value) || !old(Sound())
      ensures tracking && nodes[guessNode.value].measured ==> (Quiet(Now()) <==> Stuck())
    {
      var g := guessNode.value;
      inNodes, outNodes := [], [];
      if outEdges[g] + 1 == |nodes[g].outgoing| {
        var u := InsertOut(g);
      }
      if inEdges[g] + 1 == |nodes[g].incoming| {
        var u := InsertIn(g);
      }
    }

    /** Takes back the edge counts on the guess list and, at both ends of each, the counters. */
    method Uncount(ghost sound: bool)
      requires Valid() && (sound ==> Sound())
      modifies this`edges, inEdges, outEdges
      ensures Valid() && SameEnds(old(edges), edges) && EdgesReverted(old(edges), edges, gCountEdges)
      ensures sound ==> Exact(nodes, edges, inEdges[..], outEdges[..])
      ensures sound && tracking ==> Tracked(edges, [], atGuess)
    {
      ghost var es := edges;
      var i := 0;
      while i < |gCountEdges|
        invariant 0 <= i <= |gCountEdges| && Valid()
        invariant SameEnds(es, edges)
        invariant EdgesReverted(es, edges, gCountEdges[..i])
        invariant sound ==> Exact(nodes, edges, inEdges[..], outEdges[..])
      {
        var e := gCountEdges[i];
        assert sound ==> e !in gCountEdges[..i];
        assert gCountEdges[..i + 1] == gCountEdges[..i] + [e];
        UncountEdge(e, sound);
        i := i + 1;
      }
      assert gCountEdges[..i] == gCountEdges;
    }

    method UncountEdge(e: nat, ghost sound: bool)
      requires Valid() && e < |edges|
      requires sound ==> && Exact(nodes, edges, inEdges[..], outEdges[..])
                         && edges[e].computed && !edges[e].measured && !edges[e].guessed
      modifies this`edges, inEdges, outEdges
      ensures Valid() && edges == old(edges)[e := old(edges)[e].(computed := false)]
      ensures sound ==> Exact(nodes, edges, inEdges[..], outEdges[..])
    {
      ghost var es, inE, outE := edges, inEdges[..], outEdges[..];
      var s, t := edges[e].source, edges[e].sink;
      edges := edges[e := edges[e].(computed := false)];
      outEdges[s] := outEdges[s] - 1;
      inEdges[t] := inEdges[t] - 1;
      KeepShape(nodes, es, nodes, edges);
      assert inEdges[..] == inE[t := inE[t] - 1] && outEdges[..] == outE[s := outE[s] - 1];
      if sound {
        UnmarkExact(nodes, es, inE, outE, e, edges[e]);
      }
    }

    /** A count came out too small while guessing: abort on the same failure twice in a row or on the hundredth,
        else raise the guess by what was missing. */
    method FailGuess(e: Option<nat>, v: nat, delta: int) returns (ok: bool)
      requires Valid() && guessNode.Some?
      modifies this`nodes, this`edges, this`gCountNodes, this`gCountEdges, this`inNodes, this`outNodes,
               this`numFailures, this`failNode, this`failEdge, inEdges, outEdges
      ensures Valid() && (Sound() || !old(Sound()))
      ensures ok <==> !((e.Some? && old(failEdge) == e) || (e == None && old(failNode) == Some(v)))
                      && old(numFailures) < 99
      ensures SameFlags(old(nodes), nodes) && (ok ==> numFailures == old(numFailures) + 1)
      ensures ok ==> SameLists(old(nodes), nodes) && SameEnds(old(edges), edges)
      ensures ok ==> forall i | 0 <= i < |edges| :: edges[i].HasCount() ==> old(edges)[i].HasCount()
      ensures ok ==> nodes[guessNode.value].counter == old(nodes[guessNode.value].counter) + delta
      ensures Restarted() || !ok || !old(Sound())
      ensures GuessFailed(old(Here()), Here(), e, v, delta, ok)
      ensures ok ==> NodesReverted(old(nodes), nodes, old(gCountNodes), guessNode.value, delta)
      ensures ok ==> EdgesReverted(old(edges), edges, old(gCountEdges)) && gCountNodes == [] && gCountEdges == []
    {
      if (e.Some? && failEdge == e) || (e == None && failNode == Some(v)) || numFailures + 1 >= 100 {
        return false;
      }
      ok := true;
      NoteFailure(e, v);
      Rollback(delta);
    }

    method NoteFailure(e: Option<nat>, v: nat)
      requires Valid() && numFailures < 99
      modifies this`numFailures, this`failNode, this`failEdge
      ensures Valid() && (Sound() || !old(Sound())) && numFailures == old(numFailures) + 1
      ensures failEdge == e && failNode == if e.Some? then None else Some(v)
    {
      numFailures := numFailures + 1;
      if e.Some? {
        failEdge, failNode := e, None;
      } else {
        failEdge, failNode := None, Some(v);
      }
    }

    ghost method NoteRepair()
      requires Valid()
      modifies this`repaired
      ensures Valid() && repaired && (Sound() || !old(Sound()))
    {
      repaired := true;
    }

    /** More flow leaves or passes the node than its incoming edges bring: the rest comes in through a new entry
        edge. With `raise` the node's own count grows by as much. */
    method RepairEntry(v: nat, c: int, raise: bool)
      requires Valid() && v < |nodes|
      modifies this`nodes, this`edges, this`gCountNodes, this`gCountEdges, this`repaired, inEdges, outEdges
      ensures Valid() && repaired && (Sound() || !old(Sound()))
      ensures edges == old(edges) + [Edge(entry, v, CfgEdge, c, false, true, false)]
      ensures SameLists(Linked(old(nodes), |old(edges)|, entry, v), nodes)
      ensures SumCounted(edges, nodes[v].incoming) == old(SumCounted(edges, nodes[v].incoming)) + c
      ensures Uncounted(edges) == old(Uncounted(edges)) && SameFlags(old(nodes), nodes)
      ensures Now() == EntryRepaired(old(Now()), entry, v, c, raise)
      ensures guessNode.Some? && old(nodes[entry].HasCount()) ==> entry in gCountNodes
    {
      LinkedAt(nodes, |edges|, entry, v);
      NoteRepair();
      AddEntryEdge(v, c);
      RaiseForEntry(v, c, raise);
    }

    /** The node counts a new entry edge into v changes. */
    method RaiseForEntry(v: nat, c: int, raise: bool)
      requires Valid() && repaired && v < |nodes|
      modifies this`nodes, this`gCountNodes
      ensures Valid() && (Sound() || !old(Sound()))
      ensures SameLists(old(nodes), nodes) && SameFlags(old(nodes), nodes)
      ensures nodes == EntryRaised(old(nodes), entry, v, c, raise)
      ensures guessNode.Some? && old(nodes[entry].HasCount()) ==> entry in gCountNodes
    {
      MarkEntry(v, c, raise);
      GainEntry(c);
    }

    method GainEntry(c: int)
      requires Valid() && repaired
      modifies this`nodes, this`gCountNodes
      ensures Valid() && (Sound() || !old(Sound()))
      ensures SameLists(old(nodes), nodes) && SameFlags(old(nodes), nodes)
      ensures nodes == EntryGains(old(nodes), entry, c)
      ensures guessNode.Some? && old(nodes[entry].HasCount()) ==> entry in gCountNodes
    {
      if nodes[entry].HasCount() {
        RaiseNodeCount(entry, c);
      }
    }

    method MarkEntry(v: nat, c: int, raise: bool)
      requires Valid() && repaired && v < |nodes|
      modifies this`nodes, this`gCountNodes
      ensures Valid() && (Sound() || !old(Sound()))
      ensures SameLists(old(nodes), nodes) && SameFlags(old(nodes), nodes)
      ensures nodes == EntryMarked(old(nodes), v, c, raise)
    {
      PutNode(v, nodes[v].(routineEntry := true));
      if raise {
        RaiseNodeCount(v, c);
      }
      assert nodes[v] == EntryMarked(old(nodes), v, c, raise)[v];
    }

    method AddEntryEdge(v: nat, c: int)
      requires Valid() && repaired && v < |nodes|
      modifies this`nodes, this`edges, this`gCountEdges, inEdges, outEdges
      ensures Valid() && (Sound() || !old(Sound()))
      ensures edges == old(edges) + [Edge(entry, v, CfgEdge, c, false, true, false)]
      ensures SumCounted(edges, nodes[v].incoming) == old(SumCounted(edges, nodes[v].incoming)) + c
      ensures Uncounted(edges) == old(Uncounted(edges)) && SameFlags(old(nodes), nodes)
      ensures nodes == Linked(old(nodes), |old(edges)|, entry, v)
    {
      FreshCounted(nodes, edges, Edge(entry, v, CfgEdge, 0, false, false, false), c);
      var e := AddEdge(entry, v, CfgEdge);
      CountEdge(e, c);
    }

    /** A call whose count exceeds the sum of its outgoing edges: the calls that never came back leave through a
        return edge to the exit. When the call already has such an edge, the count of that edge, `lost`, is
        overwritten and the edge is entered in the counters a second time. */
    method RepairReturn(v: nat, c: int) returns (ok: bool, ghost lost: int)
      requires Valid() && v < |nodes| && nodes[v].callSite
      modifies this`nodes, this`edges, this`gCountNodes, this`gCountEdges, this`reused, this`repaired, inEdges, outEdges
      ensures Valid() && repaired && reused == (old(reused) || Joined(old(nodes), old(edges), v, exit, Return))
      ensures SameFlags(old(nodes), nodes) && Uncounted(edges) <= old(Uncounted(edges))
      ensures !Joined(old(nodes), old(edges), v, exit, Return) ==> lost == 0 && (Sound() || !old(Sound()))
      ensures Joined(old(nodes), old(edges), v, exit, Return) ==>
                exists e | 0 <= e < |old(edges)| :: old(edges)[e].source == v && old(edges)[e].counter == lost
      ensures ReturnRepaired(old(Now()), edges, exit, v, c)
      ensures old(Counted(edges, nodes[v].outgoing) == |nodes[v].outgoing|) ==>
                SumCounted(edges, nodes[v].outgoing) == old(SumCounted(edges, nodes[v].outgoing)) - lost + c
      ensures old(Sound() && Counted(edges, nodes[v].outgoing) == |nodes[v].outgoing|) ==>
                (Exact(nodes, edges, inEdges[..], outEdges[..]) <==> !Joined(old(nodes), old(edges), v, exit, Return))
      ensures old(Sound() && Counted(edges, nodes[v].outgoing) == |nodes[v].outgoing|) ==>
                ExitRepaired(old(Now()), nodes, edges, exit, v, c, ok)
      ensures guessNode.Some? && nodes[exit].HasCount() ==> exit in gCountNodes
    {
      ghost var s, all := Now(), Sound() && Counted(edges, nodes[v].outgoing) == |nodes[v].outgoing|;
      ghost var was := inEdges[exit];
      lost := AddReturnEdge(v, c);
      ok := SettleExit(s, was, all, v, c);
    }

    /** The exit once the return edge is there; `all` says that the counters of the exit and of the call were right and
        all edges out of the call counted. */
    method SettleExit(ghost s: Snapshot, ghost was: int, ghost all: bool, v: nat, c: int) returns (ok: bool)
      requires Valid() && repaired && WellFormed(s.ns, s.es) && v < |s.ns| == |nodes|
      requires ReturnRepaired(s, edges, exit, v, c) && inEdges[exit] == was + 1
      requires nodes == if Joined(s.ns, s.es, v, exit, Return) then s.ns else Linked(s.ns, |s.es|, v, exit)
      requires SameFlags(s.ns, nodes)
      requires all ==> Counted(s.es, s.ns[v].outgoing) == |s.ns[v].outgoing|
      requires all ==> was == Counted(s.es, s.ns[exit].incoming)
      modifies this`nodes, this`gCountNodes
      ensures Valid() && SameFlags(s.ns, nodes) && SameLists(old(nodes), nodes)
      ensures Sound() || !old(Sound())
      ensures Exact(nodes, edges, inEdges[..], outEdges[..]) <==> old(Exact(nodes, edges, inEdges[..], outEdges[..]))
      ensures all ==> ExitRepaired(s, nodes, edges, exit, v, c, ok)
      ensures guessNode.Some? && nodes[exit].HasCount() ==> exit in gCountNodes
    {
      ghost var ns := nodes;
      ok := UpdateExit(c);
      if all {
        ReturnExits(s, was, ns, edges, nodes, exit, v, c, inEdges[exit], ok);
      }
    }

    /** The exit gains what came in through the new edge, or gets its count when that was the last one missing. */
    method UpdateExit(c: int) returns (ok: bool)
      requires Valid() && repaired
      modifies this`nodes, this`gCountNodes
      ensures Valid() && SameFlags(old(nodes), nodes) && SameLists(old(nodes), nodes)
      ensures Exact(nodes, edges, inEdges[..], outEdges[..]) <==> old(Exact(nodes, edges, inEdges[..], outEdges[..]))
      ensures Sound() || !old(Sound())
      ensures gCountNodes == old(gCountNodes) + if guessNode.Some? && nodes[exit].HasCount() then [exit] else []
      ensures nodes == ExitUpdated(old(nodes), edges, exit, c, |old(nodes)[exit].incoming| == inEdges[exit])
      ensures ok <==> old(nodes[exit].HasCount() || |nodes[exit].incoming| != inEdges[exit]
                          || Counted(edges, nodes[exit].incoming) == |nodes[exit].incoming|)
    {
      ghost var ns := nodes;
      ok := true;
      if nodes[exit].HasCount() {
        RaiseNodeCount(exit, c);
      } else if |nodes[exit].incoming| == inEdges[exit] {
        var sum;
        ok, sum := SumAll(nodes[exit].incoming);
        if ok {
          SetNodeCount(exit, sum);
        }
      }
      if Exact(nodes, edges, inEdges[..], outEdges[..]) {
        KeepExact(nodes, edges, inEdges[..], outEdges[..], ns);
      } else if Exact(ns, edges, inEdges[..], outEdges[..]) {
        KeepExact(ns, edges, inEdges[..], outEdges[..], nodes);
      }
    }

    method AddReturnEdge(v: nat, c: int) returns (ghost lost: int)
      requires Valid() && v < |nodes| && nodes[v].callSite
      modifies this`nodes, this`edges, this`gCountEdges, this`reused, this`repaired, inEdges, outEdges
      ensures Valid() && repaired && reused == (old(reused) || Joined(old(nodes), old(edges), v, exit, Return))
      ensures SameFlags(old(nodes), nodes) && Uncounted(edges) <= old(Uncounted(edges))
      ensures !Joined(old(nodes), old(edges), v, exit, Return) ==> lost == 0
      ensures Sound() || Joined(old(nodes), old(edges), v, exit, Return) || !old(Sound())
      ensures Joined(old(nodes), old(edges), v, exit, Return) ==>
                exists e | 0 <= e < |old(edges)| :: old(edges)[e].source == v && old(edges)[e].counter == lost
      ensures ReturnRepaired(old(Now()), edges, exit, v, c)
      ensures old(Counted(edges, nodes[v].outgoing) == |nodes[v].outgoing|) ==>
                SumCounted(edges, nodes[v].outgoing) == old(SumCounted(edges, nodes[v].outgoing)) - lost + c
      ensures old(Sound() && Counted(edges, nodes[v].outgoing) == |nodes[v].outgoing|) ==>
                (Exact(nodes, edges, inEdges[..], outEdges[..]) <==> !Joined(old(nodes), old(edges), v, exit, Return))
      ensures inEdges[exit] == old(inEdges[exit]) + 1
      ensures nodes == if Joined(old(nodes), old(edges), v, exit, Return) then old(nodes)
                       else Linked(old(nodes), |old(edges)|, v, exit)
    {
      ghost var s, inE, outE, sound := Now(), inEdges[..], outEdges[..], Sound();
      var e := JoinExit(v);
      ghost var joined := Joined(s.ns, s.es, v, exit, Return);
      reused, lost := reused || joined, if joined then s.es[e].counter else 0;
      CountReturn(s, inE, outE, sound, joined, v, e, c);
    }

    method JoinExit(v: nat) returns (e: nat)
      requires Valid() && v < |nodes|
      modifies this`nodes, this`edges, this`repaired
      ensures Valid() && repaired && e < |edges|
      ensures Joined(old(nodes), old(edges), v, exit, Return) ==>
                && nodes == old(nodes) && edges == old(edges) && e in nodes[v].outgoing
                && edges[e].sink == exit && edges[e].kind == Return
      ensures !Joined(old(nodes), old(edges), v, exit, Return) ==>
                && e == |old(edges)| && edges == old(edges) + [Edge(v, exit, Return, 0, false, false, false)]
                && nodes == Linked(old(nodes), e, v, exit)
      ensures Sound() || !old(Sound())
    {
      NoteRepair();
      e := AddUniqueEdge(v, exit, Return);
    }

    /** The edge gets the count, whether it was there before or not. */
    method CountReturn(ghost s: Snapshot, ghost inE: seq<int>, ghost outE: seq<int>, ghost sound: bool,
                       ghost joined: bool, v: nat, e: nat, c: int)
      requires Valid() && repaired && e < |edges| && (sound ==> Sound()) && inE == inEdges[..] && outE == outEdges[..]
      requires WellFormed(s.ns, s.es) && v < |s.ns| == |nodes| && joined == Joined(s.ns, s.es, v, exit, Return)
      requires sound ==> Exact(s.ns, s.es, inE, outE)
      requires joined ==> nodes == s.ns && edges == s.es && e in s.ns[v].outgoing
      requires joined ==> s.es[e].sink == exit && s.es[e].kind == Return
      requires !joined ==> e == |s.es| && edges == s.es + [Edge(v, exit, Return, 0, false, false, false)]
      requires !joined ==> nodes == Linked(s.ns, e, v, exit)
      modifies this`edges, this`gCountEdges, inEdges, outEdges
      ensures Valid() && SameFlags(s.ns, nodes) && Uncounted(edges) <= Uncounted(s.es)
      ensures ReturnRepaired(s, edges, exit, v, c) && edges[e].source == v
      ensures inEdges[exit] == inE[exit] + 1
      ensures Sound() || joined || !sound
      ensures Counted(s.es, s.ns[v].outgoing) == |s.ns[v].outgoing| ==>
                SumCounted(edges, nodes[v].outgoing) ==
                SumCounted(s.es, s.ns[v].outgoing) + c - if joined then s.es[e].counter else 0
      ensures sound && joined && Counted(s.es, s.ns[v].outgoing) == |s.ns[v].outgoing| ==>
                !Exact(nodes, edges, inEdges[..], outEdges[..])
    {
      CountEdge(e, c);
      if joined {
        assert edges == s.es[e := s.es[e].Computed(c)];
        assert inEdges[..] == inE[exit := inE[exit] + 1] && outEdges[..] == outE[v := outE[v] + 1];
        ReturnReused(s, inE, outE, v, exit, e, c);
      } else {
        ReturnAdded(s, v, exit, c);
      }
    }

    /** All outgoing edges of src are counted: so is src, unless the sum falls short of a partial count while
        guessing (`stop`). Outside guess mode a smaller sum replaces the partial count. */
    method CountFromOut(src: nat) returns (ok: bool, stop: bool, queued: bool, u: nat)
      requires Valid() && src < |nodes| && !nodes[src].HasCount()
      requires !reused ==> Sound()
      modifies this`nodes, this`edges, this`inNodes, this`outNodes, this`gCountNodes, this`gCountEdges,
               this`numFailures, this`failNode, this`failEdge, inEdges, outEdges
      ensures Valid() && (reused || Sound())
      ensures SameFlags(old(nodes), nodes)
      ensures ok && stop ==> Restarted() && numFailures == old(numFailures) + 1
      ensures ok && !stop ==> numFailures == old(numFailures) && edges == old(edges) && outNodes == old(outNodes)
      ensures ok && !stop ==> u == UpperBound(old(inNodes), 1)
      ensures queued ==> ok && !stop
      ensures ok && !stop ==> queued == old(|nodes[src].incoming| - inEdges[src] == 1)
      ensures ok && !stop ==> inNodes == if queued then Inserted(old(inNodes), u, Entry(src, 1)) else old(inNodes)
      ensures old(!reused && outEdges[src] == |nodes[src].outgoing|) ==>
                && (old(guessNode == None || !ShortOut(Now(), src)) ==> ok && !stop)
                && (ok && !stop ==> Now() == SourceFollowed(old(Now()), src))
      ensures old(guessNode.Some? && ShortOut(Now(), src)) ==>
                stop && GuessFailed(old(Here()), Here(), None, src, old(OutRest(Now(), src)), ok)
    {
      ok, stop, queued, u := true, false, false, UpperBound(inNodes, 1);
      var c;
      ok, c := SumAll(nodes[src].outgoing);
      if !ok {
        return;
      }
      if nodes[src].partial && nodes[src].counter > c && guessNode.Some? {
        ok := FailGuess(None, src, nodes[src].counter - c);
        stop := true;
        return;
      }
      queued := SetFromOut(src, c);
    }

    method SetFromOut(src: nat, c: int) returns (queued: bool)
      requires Valid() && src < |nodes| && !nodes[src].HasCount()
      modifies this`nodes, this`gCountNodes, this`inNodes
      ensures Valid() && (Sound() || !old(Sound())) && SameFlags(old(nodes), nodes)
      ensures queued == old(|nodes[src].incoming| - inEdges[src] == 1)
      ensures inNodes == if queued then Inserted(old(inNodes), UpperBound(old(inNodes), 1), Entry(src, 1))
                         else old(inNodes)
      ensures nodes == old(nodes)[src := old(nodes)[src].Computed(c)]
    {
      SetNodeCount(src, c);
      queued := |nodes[src].incoming| - inEdges[src] == 1;
      if queued {
        var v := InsertIn(src);
      }
    }

    /** A call and the block it returns to, counted independently: what did not come back leaves to the exit. */
    method BalanceCall(src: nat) returns (ok: bool)
      requires Valid() && src < |nodes| && nodes[src].callSite
      requires !reused ==> Sound()
      modifies this`nodes, this`edges, this`gCountNodes, this`gCountEdges, this`reused, this`repaired, inEdges, outEdges
      ensures Valid() && (reused || Sound()) && (old(repaired) ==> repaired)
      ensures SameFlags(old(nodes), nodes) && Uncounted(edges) <= old(Uncounted(edges))
      ensures ok && !repaired ==> old(nodes[src].counter == SumCounted(edges, nodes[src].outgoing))
      ensures old(Counted(edges, nodes[src].outgoing) == |nodes[src].outgoing|
                  && nodes[src].counter == SumCounted(edges, nodes[src].outgoing)) ==>
                ok && nodes == old(nodes) && edges == old(edges) && reused == old(reused)
      ensures old(!reused && Counted(edges, nodes[src].outgoing) == |nodes[src].outgoing|) ==>
                CallOutcome(old(Now()), nodes, edges, exit, src, ok, reused) || old(OutRest(Now(), src)) == 0
      ensures reused && !old(reused) ==> !Exact(nodes, edges, inEdges[..], outEdges[..])
    {
      var c;
      ok, c := SumAll(nodes[src].outgoing);
      if !ok {
        return;
      }
      if nodes[src].counter != c {
        if nodes[src].counter <= c {
          ok := false;
          return;
        }
        ghost var s, all := Now(), !reused && Counted(edges, nodes[src].outgoing) == |nodes[src].outgoing|;
        ghost var lost;
        c := nodes[src].counter - c;
        ok, lost := RepairReturn(src, c);
        if all {
          CallEnds(s, nodes, edges, exit, src, c, ok, reused);
        }
      }
    }

    /** What a newly counted outgoing edge means for a source that propagates: `shift` says whether the source was
        queued at or before `pos`. */
    method FollowSource(src: nat, pos: nat) returns (ok: bool, stop: bool, pos': nat)
      requires Valid() && src < |nodes| && pos < |inNodes|
      requires !reused ==> Sound()
      modifies this`nodes, this`edges, this`inNodes, this`outNodes, this`gCountNodes, this`gCountEdges,
               this`numFailures, this`failNode, this`failEdge, inEdges, outEdges
      ensures Valid() && (reused || Sound())
      ensures SameFlags(old(nodes), nodes)
      ensures ok && stop ==> Restarted() && numFailures == old(numFailures) + 1
      ensures ok && !stop ==> numFailures == old(numFailures) && edges == old(edges)
      ensures ok && !stop ==> |inNodes| + |outNodes| <= old(|inNodes| + |outNodes|) + 1
      ensures ok && !stop ==> pos' < |inNodes| && inNodes[pos'].node == old(inNodes)[pos].node
      ensures old((guessNode == None || !ShortOut(Now(), src)) && !reused) ==> ok && !stop
      ensures ok && !stop && old(!reused) ==> Now() == SourceFollowed(old(Now()), src)
      ensures old(!reused && guessNode.Some? && ShortOut(Now(), src)) ==>
                stop && GuessFailed(old(Here()), Here(), None, src, old(OutRest(Now(), src)), ok)
    {
      ok, stop, pos' := true, false, pos;
      if !nodes[src].HasCount() && outEdges[src] == |nodes[src].outgoing| {
        var queued, u;
        ok, stop, queued, u := CountFromOut(src);
        if queued {
          InsertedAt(old(inNodes), u, Entry(src, 1), pos);
          pos' := if u <= pos then pos + 1 else pos;
        }
      } else if nodes[src].HasCount() && outEdges[src] + 1 == |nodes[src].outgoing| {
        var u := InsertOut(src);
      }
    }

    /** An edge out of src has just been counted on behalf of its sink nn, queued at `pos`: see what follows for src.
        `stop` reports a failed guess, which leaves only the guess node queued. */
    method SettleSource(src: nat, nn: nat, pos: nat) returns (ok: bool, stop: bool, pos': nat)
      requires Valid() && src < |nodes| && nn < |nodes| && pos < |inNodes| && inNodes[pos].node == nn
      requires !reused ==> Sound()
      modifies this`nodes, this`edges, this`inNodes, this`outNodes, this`gCountNodes, this`gCountEdges,
               this`numFailures, this`failNode, this`failEdge, this`reused, this`repaired, inEdges, outEdges
      ensures Valid() && (reused || Sound()) && (old(repaired) ==> repaired)
      ensures SameFlags(old(nodes), nodes)
      ensures ok && stop ==> Restarted() && numFailures == old(numFailures) + 1
      ensures ok && !stop ==> numFailures == old(numFailures) && Uncounted(edges) <= old(Uncounted(edges))
      ensures ok && !stop ==> |inNodes| + |outNodes| <= old(|inNodes| + |outNodes|) + 1
      ensures ok && !stop ==> pos' < |inNodes| && inNodes[pos'].node == nn
      ensures old((guessNode == None || !ShortOut(Now(), src) || HeldBack(Now(), src, nn))
                  && !reused && !CallTrouble(Now(), src, nn)) ==>
                ok && !stop
      ensures old(!reused && CallTrouble(Now(), src, nn)) ==> !stop
      ensures ok && !stop && !repaired ==> !old(CallTrouble(Now(), src, nn))
      ensures ok && !stop && old(!reused && !CallTrouble(Now(), src, nn)) ==>
                !reused && Now() == SourceSettled(old(Now()), src, nn)
      ensures old(!reused && CallTrouble(Now(), src, nn)) ==>
                CallOutcome(old(Now()), nodes, edges, exit, src, ok, reused)
      ensures old(!reused && CallTrouble(Now(), src, nn)) && reused ==> !Exact(nodes, edges, inEdges[..], outEdges[..])
      ensures old(!reused && guessNode.Some? && ShortOut(Now(), src) && !HeldBack(Now(), src, nn)) ==>
                stop && GuessFailed(old(Here()), Here(), None, src, old(OutRest(Now(), src)), ok)
    {
      if !nodes[src].callSite || !nodes[nn].measured || nodes[nn].partial {
        ok, stop, pos' := FollowSource(src, pos);
      } else {
        ok, stop, pos' := true, false, pos;
        if nodes[src].HasCount() && outEdges[src] == |nodes[src].outgoing| {
          ok := BalanceCall(src);
        }
      }
    }

    /** Gives e, the last uncounted incoming edge of nn, the residual count and follows it to its source. */
    method DeduceIn(nn: nat, pos: nat, e: nat, rest: int) returns (ok: bool, stop: bool, pos': nat)
      requires Valid() && nn < |nodes| && pos < |inNodes| && inNodes[pos].node == nn
      requires e < |edges| && e in nodes[nn].incoming && !edges[e].HasCount()
      requires rest == nodes[nn].counter - SumCounted(edges, nodes[nn].incoming)
      requires !reused ==> Sound()
      modifies this`nodes, this`edges, this`inNodes, this`outNodes, this`gCountNodes, this`gCountEdges,
               this`numFailures, this`failNode, this`failEdge, this`reused, this`repaired, inEdges, outEdges
      ensures Valid() && (reused || Sound()) && (old(repaired) ==> repaired)
      ensures SameFlags(old(nodes), nodes)
      ensures ok && stop ==> Restarted() && numFailures == old(numFailures) + 1
      ensures ok && !stop ==> numFailures == old(numFailures) && Uncounted(edges) < old(Uncounted(edges))
      ensures ok && !stop ==> pos' < |inNodes| && inNodes[pos'].node == nn
      ensures old(!reused) &&
              !CallTrouble(Deduced(old(Now()), nn, old(nodes[nn].incoming), e), old(edges[e].source), nn) ==>
                && (old(guessNode == None || HeldBack(Now(), edges[e].source, nn)
                        || !ShortOut(Deduced(Now(), nn, nodes[nn].incoming, e), edges[e].source)) ==>
                      ok && !stop)
                && (ok && !stop ==> !reused)
                && (ok && !stop ==> Now() == SourceSettled(Deduced(old(Now()), nn, old(nodes[nn].incoming), e),
                                                           old(edges[e].source), nn))
      ensures ok && !stop && !repaired ==>
                !CallTrouble(Deduced(old(Now()), nn, old(nodes[nn].incoming), e), old(edges[e].source), nn)
      ensures old(!reused) &&
              CallTrouble(Deduced(old(Now()), nn, old(nodes[nn].incoming), e), old(edges[e].source), nn) ==>
                && !stop
                && CallOutcome(Deduced(old(Now()), nn, old(nodes[nn].incoming), e),
                               nodes, edges, exit, old(edges[e].source), ok, reused)
                && (reused ==> !Exact(nodes, edges, inEdges[..], outEdges[..]))
      ensures old(!reused && guessNode.Some? && InFailsAt(Now(), nn, e)) ==>
                stop && GuessFailed(old(Here()), Here(), None, old(edges[e].source), InMissing(old(Now()), nn, e), ok)
    {
      var src := edges[e].source;
      ghost var s1 := Deduced(Now(), nn, nodes[nn].incoming, e);
      UncountedMark(edges, e, rest);
      CountEdge(e, rest);
      assert Now() == s1;
      ok, stop, pos' := SettleSource(src, nn, pos);
    }

    /** All incoming edges are counted: what is missing comes in through a new entry edge. */
    method BalanceIn(nn: nat, pos: nat, rest: int) returns (ok: bool)
      requires Valid() && pos < |inNodes| && nn < |nodes|
      requires !reused ==> Sound()
      modifies this`nodes, this`edges, this`inNodes, this`gCountNodes, this`gCountEdges, this`repaired,
               inEdges, outEdges
      ensures Valid() && (reused || Sound()) && (old(repaired) ==> repaired)
      ensures SameFlags(old(nodes), nodes) && Uncounted(edges) == old(Uncounted(edges))
      ensures ok <==> rest <= 0 || !old(nodes[nn].routineEntry)
      ensures ok ==> inNodes == Erased(old(inNodes), pos)
      ensures ok && !repaired ==> rest <= 0
      ensures rest <= 0 ==> nodes == old(nodes) && edges == old(edges)
      ensures ok && rest > 0 ==>
                SumCounted(edges, nodes[nn].incoming) == old(SumCounted(edges, nodes[nn].incoming)) + rest
      ensures ok && rest > 0 ==> Now() == EntryRepaired(old(Now()), entry, nn, rest, false).(inQ := inNodes)
      ensures old(InLacks(Now(), nn) && inNodes[pos].node == nn) && rest == old(InRest(Now(), nn)) && ok ==>
                InRaised(old(Now()), Now(), entry, nn, pos)
    {
      ok := true;
      if rest > 0 {
        if nodes[nn].routineEntry {
          ok := false;
          return;
        }
        EntryRepairSums(Now(), entry, nn, rest, false);
        RepairEntry(nn, rest, false);
      }
      DropIn(pos);
    }

    /** And one on the outgoing side. */
    ghost predicate OutEnded(m: Moment, v: nat, pos: nat, ok: bool, stop: bool, pos': nat)
      requires Valid() && WellFormed(m.at.ns, m.at.es) && v < |m.at.ns| == |nodes|
      reads this, inEdges, outEdges
    {
      var s, l := m.at, m.at.ns[v].outgoing;
      && (NotReady(s, v, l) ==> !ok)
      && (!OutTrouble(s, v) ==>
            && (m.guess == None || !OutFails(s, v) ==> ok && !stop)
            && (ok && !stop ==> !reused && OutStepped(s, Now(), v, pos, pos')))
      && (OutCall(s, v) ==> && !stop && CallOutcome(s, nodes, edges, exit, v, ok, reused)
                            && (reused ==> !Exact(nodes, edges, inEdges[..], outEdges[..])))
      && (OutShort(s, v) ==>
            if m.guess.Some? then stop && GuessFailedAt(m, Here(), l, v, -OutRest(s, v), ok)
            else !stop && (ok <==> !s.ns[v].routineEntry) && (ok ==> OutRaised(s, Now(), entry, v, pos, pos')))
      && (forall e: nat | m.guess.Some? && OutFailsAt(s, v, e) ::
            stop && GuessFailed(m, Here(), None, s.es[e].sink, OutMissing(s, v, e), ok))
    }

    lemma OutBalancedEnds(m: Moment, v: nat, pos: nat, ok: bool)
      requires Valid() && WellFormed(m.at.ns, m.at.es) && v < |m.at.ns| == |nodes|
      requires m.at.ns[v].HasCount() && Counted(m.at.es, m.at.ns[v].outgoing) == |m.at.ns[v].outgoing|
      requires OutRest(m.at, v) >= 0
      requires !OutCall(m.at, v) ==> ok && !reused && DroppedOut(m.at, Now(), v, pos)
      requires OutCall(m.at, v) ==> && CallOutcome(m.at, nodes, edges, exit, v, ok, reused)
                                    && (reused ==> !Exact(nodes, edges, inEdges[..], outEdges[..]))
      ensures OutEnded(m, v, pos, ok, false, pos) || OutRest(m.at, v) < 0
    {
    }

    lemma OutEdgeEnds(m: Moment, v: nat, e: nat, pos: nat, ok: bool, stop: bool, pos': nat)
      requires Valid() && WellFormed(m.at.ns, m.at.es) && v < |m.at.ns| == |nodes|
      requires m.at.ns[v].HasCount() && Counted(m.at.es, m.at.ns[v].outgoing) + 1 == |m.at.ns[v].outgoing|
      requires OutRest(m.at, v) >= 0 && e in m.at.ns[v].outgoing && !m.at.es[e].HasCount()
      requires m.guess == None || !OutFailsAt(m.at, v, e) ==> ok && !stop
      requires ok && !stop ==> !reused && OutStepped(m.at, Now(), v, pos, pos')
      requires m.guess.Some? && OutFailsAt(m.at, v, e) ==>
                 stop && GuessFailed(m, Here(), None, m.at.es[e].sink, OutMissing(m.at, v, e), ok)
      ensures OutEnded(m, v, pos, ok, stop, pos') || OutRest(m.at, v) < 0
    {
      OutOnly(m.at, v, e);
      assert OutFailsAt(m.at, v, e) ==> OutFails(m.at, v);
    }

    lemma OutShortEnds(m: Moment, v: nat, e: Option<nat>, pos: nat, ok: bool, stop: bool, pos': nat)
      requires Valid() && WellFormed(m.at.ns, m.at.es) && v < |m.at.ns| == |nodes| && OutShort(m.at, v)
      requires LastEdge(m.at.es, m.at.ns[v].outgoing, e)
      requires m.guess.Some? ==> stop && GuessFailed(m, Here(), e, v, -OutRest(m.at, v), ok)
      requires m.guess == None ==> && !stop && (ok <==> !m.at.ns[v].routineEntry)
                                   && (ok ==> OutRaised(m.at, Now(), entry, v, pos, pos'))
      ensures OutEnded(m, v, pos, ok, stop, pos') || !OutShort(m.at, v)
    {
      assert m.guess.Some? ==> GuessFailedAt(m, Here(), m.at.ns[v].outgoing, v, -OutRest(m.at, v), ok);
    }

    lemma BalancedEnds(m: Moment, v: nat, pos: nat, ok: bool)
      requires Valid() && WellFormed(m.at.ns, m.at.es) && v < |m.at.ns| == |nodes|
      requires m.at.ns[v].HasCount() && Counted(m.at.es, m.at.ns[v].incoming) == |m.at.ns[v].incoming|
      requires InRest(m.at, v) >= 0
      requires InRest(m.at, v) == 0 ==> ok && !reused && DroppedIn(m.at, Now(), v, pos)
      requires InRest(m.at, v) > 0 ==> (ok <==> !m.at.ns[v].routineEntry)
      requires InRest(m.at, v) > 0 && ok ==> InRaised(m.at, Now(), entry, v, pos)
      ensures InEnded(m, v, pos, ok, false, pos) || InRest(m.at, v) < 0
    {
    }

    lemma EdgeEnds(m: Moment, v: nat, pos: nat, ok: bool, stop: bool, pos': nat)
      requires Valid() && WellFormed(m.at.ns, m.at.es) && v < |m.at.ns| == |nodes|
      requires m.at.ns[v].HasCount() && OneLeft(m.at, v) && InRest(m.at, v) >= 0
      requires !InTrouble(m.at, v) ==> && (m.guess == None || !InFails(m.at, v) ==> ok && !stop)
                                       && (ok && !stop ==> !reused && InStepped(m.at, Now(), v, pos, pos'))
      requires forall e: nat | CallStep(m.at, v, e) ::
                 && !stop
                 && CallOutcome(Deduced(m.at, v, m.at.ns[v].incoming, e), nodes, edges, exit, m.at.es[e].source, ok,
                                reused)
                 && (reused ==> !Exact(nodes, edges, inEdges[..], outEdges[..]))
      requires forall e: nat | m.guess.Some? && InFailsAt(m.at, v, e) ::
                 stop && GuessFailed(m, Here(), None, m.at.es[e].source, InMissing(m.at, v, e), ok)
      ensures InEnded(m, v, pos, ok, stop, pos') || InRest(m.at, v) < 0
    {
    }

    /** With a residual that is not negative: deduce the edge left over, or bring the residual in through a new entry
        edge; then drop the queue entry. */
    method ResolveIn(nn: nat, pos: nat, diffE: int, rest: int, theEdge: Option<nat>)
      returns (ok: bool, stop: bool, pos': nat)
      requires Valid() && pos < |inNodes| && inNodes[pos].node == nn && rest >= 0
      requires !reused ==> Sound()
      requires diffE == |nodes[nn].incoming| - inEdges[nn]
      requires rest == nodes[nn].counter - SumCounted(edges, nodes[nn].incoming)
      requires theEdge == None <==> Counted(edges, nodes[nn].incoming) == |nodes[nn].incoming|
      requires theEdge.Some? ==> theEdge.value in nodes[nn].incoming && !edges[theEdge.value].HasCount()
      modifies this`nodes, this`edges, this`inNodes, this`outNodes, this`gCountNodes, this`gCountEdges,
               this`numFailures, this`failNode, this`failEdge, this`reused, this`repaired, inEdges, outEdges
      ensures Valid() && (reused || Sound()) && (old(repaired) ==> repaired)
      ensures SameFlags(old(nodes), nodes)
      ensures ok && stop ==> Restarted() && numFailures == old(numFailures) + 1
      ensures ok && !stop ==> numFailures == old(numFailures) && pos' <= |inNodes|
      ensures ok && !stop ==> Uncounted(edges) < old(Uncounted(edges)) ||
                              (Uncounted(edges) == old(Uncounted(edges)) &&
                               |inNodes| + |outNodes| < old(|inNodes| + |outNodes|))
      ensures ok && !stop && !repaired ==> old(nodes[nn].HasCount() ==> !InTrouble(Now(), nn))
      ensures InEnded(old(Here()), nn, pos, ok, stop, pos') || old(reused || !nodes[nn].HasCount())
    {
      CountedBound(edges, nodes[nn].incoming);
      ok, stop, pos' := true, false, pos;
      ghost var m, plain := Here(), !reused && nodes[nn].HasCount();
      if diffE == 0 && theEdge == None {
        ok := BalanceIn(nn, pos, rest);
        if plain {
          BalancedEnds(m, nn, pos, ok);
        }
      } else if diffE == 1 && theEdge.Some? {
        ok, stop, pos' := ResolveEdgeIn(nn, pos, theEdge.value, rest);
        if plain {
          EdgeEnds(m, nn, pos, ok, stop, pos');
        }
      } else {
        ok := false;
      }
    }

    /** Deduces the one uncounted incoming edge and drops the queue entry. */
    method ResolveEdgeIn(nn: nat, pos: nat, e: nat, rest: int) returns (ok: bool, stop: bool, pos': nat)
      requires Valid() && pos < |inNodes| && inNodes[pos].node == nn && rest >= 0
      requires e in nodes[nn].incoming && !edges[e].HasCount()
      requires !reused ==> Sound()
      requires rest == nodes[nn].counter - SumCounted(edges, nodes[nn].incoming)
      modifies this`nodes, this`edges, this`inNodes, this`outNodes, this`gCountNodes, this`gCountEdges,
               this`numFailures, this`failNode, this`failEdge, this`reused, this`repaired, inEdges, outEdges
      ensures Valid() && (reused || Sound()) && (old(repaired) ==> repaired)
      ensures SameFlags(old(nodes), nodes)
      ensures ok && stop ==> Restarted() && numFailures == old(numFailures) + 1
      ensures ok && !stop ==> numFailures == old(numFailures) && pos' <= |inNodes|
      ensures ok && !stop ==> Uncounted(edges) < old(Uncounted(edges))
      ensures old(!reused && !InTrouble(Now(), nn)) && old(OneLeft(Now(), nn)) ==>
                && (old(guessNode == None || !InFails(Now(), nn)) ==> ok && !stop)
                && (ok && !stop ==> !reused && InStepped(old(Now()), Now(), nn, pos, pos'))
      ensures ok && !stop && !repaired && old(OneLeft(Now(), nn)) ==>
                old(nodes[nn].HasCount() ==> !InTrouble(Now(), nn))
      ensures forall d: nat | old(!reused && CallStep(Now(), nn, d)) ::
                && !stop
                && CallOutcome(Deduced(old(Now()), nn, old(nodes[nn].incoming), d),
                               nodes, edges, exit, old(edges[d].source), ok, reused)
                && (reused ==> !Exact(nodes, edges, inEdges[..], outEdges[..]))
      ensures forall d: nat | old(!reused && guessNode.Some? && InFailsAt(Now(), nn, d)) ::
                stop && GuessFailed(old(Here()), Here(), None, old(edges[d].source), InMissing(old(Now()), nn, d), ok)
    {
      if OneLeft(Now(), nn) {
        InOnly(Now(), nn, e);
      }
      ok, stop, pos' := DeduceIn(nn, pos, e, rest);
      if ok && !stop {
        DropIn(pos');
      }
    }

    /** More comes into nn than it has: a failed guess, or else the end of the run. */
    method FailIn(nn: nat, pos: nat, theEdge: Option<nat>, c: int) returns (ok: bool, stop: bool, pos': nat)
      requires Valid() && nn < |nodes| && LastEdge(edges, nodes[nn].incoming, theEdge)
      requires InShort(Now(), nn) && c == -InRest(Now(), nn)
      modifies this`nodes, this`edges, this`inNodes, this`outNodes, this`gCountNodes, this`gCountEdges,
               this`numFailures, this`failNode, this`failEdge, inEdges, outEdges
      ensures Valid() && (Sound() || !old(Sound())) && SameFlags(old(nodes), nodes)
      ensures ok ==> stop && (Restarted() || !old(Sound())) && numFailures == old(numFailures) + 1
      ensures InEnded(old(Here()), nn, pos, ok, stop, pos') || c != -old(InRest(Now(), nn))
    {
      ok, stop, pos' := false, false, pos;
      ghost var m, fail := Here(), guessNode.Some?;
      if guessNode.Some? {
        ok := FailGuess(theEdge, nn, c);
        stop := true;
      }
      assert fail ==> GuessFailedAt(m, Here(), m.at.ns[nn].incoming, nn, c, ok);
    }

    /** The node at `pos` of the in queue: deduce its one uncounted incoming edge, or balance it with an entry edge
        when all are counted, and drop it from the queue. `stop` reports a failed guess. */
    method StepIn(pos: nat) returns (ok: bool, stop: bool, pos': nat)
      requires Valid() && pos < |inNodes|
      requires !reused ==> Sound()
      modifies this`nodes, this`edges, this`inNodes, this`outNodes, this`gCountNodes, this`gCountEdges,
               this`numFailures, this`failNode, this`failEdge, this`reused, this`repaired, inEdges, outEdges
      ensures Valid() && (reused || Sound()) && (old(repaired) ==> repaired)
      ensures SameFlags(old(nodes), nodes)
      ensures ok && stop ==> Restarted() && numFailures == old(numFailures) + 1
      ensures ok && !stop ==> numFailures == old(numFailures) && pos' <= |inNodes|
      ensures ok && !stop ==> Uncounted(edges) < old(Uncounted(edges)) ||
                              (Uncounted(edges) == old(Uncounted(edges)) &&
                               |inNodes| + |outNodes| < old(|inNodes| + |outNodes|))
      ensures ok && !stop && !repaired ==> !old(InTrouble(Now(), inNodes[pos].node))
      ensures InEnded(old(Here()), old(inNodes[pos].node), pos, ok, stop, pos') || old(reused)
    {
      var nn := inNodes[pos].node;
      ok, stop, pos' := true, false, pos;
      var diffE := |nodes[nn].incoming| - inEdges[nn];
      if diffE >= 2 || !nodes[nn].HasCount() {
        ok := false;
        return;
      }
      var rest, theEdge;
      ok, rest, theEdge := Scan(nodes[nn].incoming, nodes[nn].counter);
      if !ok {
        return;
      }
      if rest < 0 {
        ok, stop, pos' := FailIn(nn, pos, theEdge, -rest);
        return;
      }
      ok, stop, pos' := ResolveIn(nn, pos, diffE, rest, theEdge);
    }

    /** All incoming edges of t are counted: so is t, unless the sum falls short of a partial count while guessing
        (`stop`). A call with all its outgoing edges counted is queued too, to be balanced. */
    method CountFromIn(t: nat, d: int) returns (ok: bool, stop: bool, queued: bool, u: nat)
      requires Valid() && t < |nodes| && !nodes[t].HasCount() && d == |nodes[t].outgoing| - outEdges[t]
      requires !reused ==> Sound()
      modifies this`nodes, this`edges, this`inNodes, this`outNodes, this`gCountNodes, this`gCountEdges,
               this`numFailures, this`failNode, this`failEdge, inEdges, outEdges
      ensures Valid() && (reused || Sound())
      ensures SameFlags(old(nodes), nodes)
      ensures ok && stop ==> Restarted() && numFailures == old(numFailures) + 1
      ensures ok && !stop ==> numFailures == old(numFailures) && edges == old(edges) && inNodes == old(inNodes)
      ensures queued ==> ok && !stop
      ensures ok && !stop ==> queued == (d == 1 || (d == 0 && old(nodes)[t].callSite))
      ensures ok && !stop && queued ==>
                u == UpperBound(old(outNodes), d) && outNodes == Inserted(old(outNodes), u, Entry(t, d))
      ensures ok && !stop && !queued ==> outNodes == old(outNodes)
      ensures old(!reused && inEdges[t] == |nodes[t].incoming|) ==>
                && (old(guessNode == None || !ShortIn(Now(), t)) ==> ok && !stop)
                && (ok && !stop ==> Now() == SinkFollowed(old(Now()), t))
      ensures old(guessNode.Some? && ShortIn(Now(), t)) ==>
                stop && GuessFailed(old(Here()), Here(), None, t, old(InRest(Now(), t)), ok)
    {
      ok, stop, queued, u := true, false, false, 0;
      var c;
      ok, c := SumAll(nodes[t].incoming);
      if !ok {
        return;
      }
      if nodes[t].partial && nodes[t].counter > c && guessNode.Some? {
        ok := FailGuess(None, t, nodes[t].counter - c);
        stop := true;
        return;
      }
      queued, u := SetFromIn(t, c, d);
    }

    method SetFromIn(t: nat, c: int, d: int) returns (queued: bool, u: nat)
      requires Valid() && t < |nodes| && !nodes[t].HasCount() && d == |nodes[t].outgoing| - outEdges[t]
      modifies this`nodes, this`gCountNodes, this`outNodes
      ensures Valid() && (Sound() || !old(Sound())) && SameFlags(old(nodes), nodes)
      ensures queued == (d == 1 || (d == 0 && old(nodes)[t].callSite))
      ensures queued ==> u == UpperBound(old(outNodes), d) && outNodes == Inserted(old(outNodes), u, Entry(t, d))
      ensures !queued ==> outNodes == old(outNodes)
      ensures old(Sound()) ==> Now() == SinkSet(old(Now()), t, c)
    {
      queued, u := false, 0;
      SetNodeCount(t, c);
      if d == 1 || (d == 0 && nodes[t].callSite) {
        u := InsertOut(t);
        queued := true;
      }
    }

    /** What a newly counted incoming edge means for its sink. */
    method FollowSink(t: nat, pos: nat) returns (ok: bool, stop: bool, pos': nat)
      requires Valid() && t < |nodes| && pos < |outNodes|
      requires !reused ==> Sound()
      modifies this`nodes, this`edges, this`inNodes, this`outNodes, this`gCountNodes, this`gCountEdges,
               this`numFailures, this`failNode, this`failEdge, inEdges, outEdges
      ensures Valid() && (reused || Sound())
      ensures SameFlags(old(nodes), nodes)
      ensures ok && stop ==> Restarted() && numFailures == old(numFailures) + 1
      ensures ok && !stop ==> numFailures == old(numFailures) && edges == old(edges)
      ensures ok && !stop ==> |inNodes| + |outNodes| <= old(|inNodes| + |outNodes|) + 1
      ensures ok && !stop ==> pos' < |outNodes| && outNodes[pos'].node == old(outNodes)[pos].node
      ensures old((guessNode == None || !ShortIn(Now(), t)) && !reused) ==> ok && !stop
      ensures ok && !stop && old(!reused) ==> Now() == SinkFollowed(old(Now()), t)
      ensures old(!reused && guessNode.Some? && ShortIn(Now(), t)) ==>
                stop && GuessFailed(old(Here()), Here(), None, t, old(InRest(Now(), t)), ok)
    {
      ok, stop, pos' := true, false, pos;
      if !nodes[t].HasCount() && inEdges[t] == |nodes[t].incoming| {
        var queued, u;
        var d := |nodes[t].outgoing| - outEdges[t];
        ok, stop, queued, u := CountFromIn(t, d);
        if queued {
          InsertedAt(old(outNodes), u, Entry(t, d), pos);
          pos' := if u <= pos then pos + 1 else pos;
        }
      } else if nodes[t].HasCount() && inEdges[t] + 1 == |nodes[t].incoming| {
        var u := InsertIn(t);
      }
    }

    /** Gives e, the last uncounted outgoing edge of nn, the residual count and follows it to its sink. */
    method DeduceOut(nn: nat, pos: nat, e: nat, rest: int) returns (ok: bool, stop: bool, pos': nat)
      requires Valid() && nn < |nodes| && pos < |outNodes| && outNodes[pos].node == nn
      requires e < |edges| && e in nodes[nn].outgoing && !edges[e].HasCount()
      requires !reused ==> Sound()
      modifies this`nodes, this`edges, this`inNodes, this`outNodes, this`gCountNodes, this`gCountEdges,
               this`numFailures, this`failNode, this`failEdge, inEdges, outEdges
      ensures Valid() && (reused || Sound())
      ensures SameFlags(old(nodes), nodes)
      ensures ok && stop ==> Restarted() && numFailures == old(numFailures) + 1
      ensures ok && !stop ==> numFailures == old(numFailures) && Uncounted(edges) < old(Uncounted(edges))
      ensures ok && !stop ==> pos' < |outNodes| && outNodes[pos'].node == nn
      ensures old(guessNode == None && !reused) ==> ok && !stop
      ensures old(!reused && rest == nodes[nn].counter - SumCounted(edges, nodes[nn].outgoing)
                  && !ShortIn(Deduced(Now(), nn, nodes[nn].outgoing, e), edges[e].sink)) ==>
                ok && !stop
      ensures ok && !stop && old(!reused && rest == nodes[nn].counter - SumCounted(edges, nodes[nn].outgoing)) ==>
                Now() == SinkFollowed(Deduced(old(Now()), nn, old(nodes[nn].outgoing), e), old(edges[e].sink))
      ensures old(!reused && guessNode.Some? && OutFailsAt(Now(), nn, e)) && rest == old(OutRest(Now(), nn)) ==>
                stop && GuessFailed(old(Here()), Here(), None, old(edges[e].sink), OutMissing(old(Now()), nn, e), ok)
    {
      var t := edges[e].sink;
      ghost var s1 := Deduced(Now(), nn, nodes[nn].outgoing, e);
      ghost var exact := rest == nodes[nn].counter - SumCounted(edges, nodes[nn].outgoing);
      UncountedMark(edges, e, rest);
      CountEdge(e, rest);
      assert exact ==> Now() == s1;
      ok, stop, pos' := FollowSink(t, pos);
    }

    /** All outgoing edges are counted: what a call did not pass on leaves through a return edge. */
    method BalanceOut(nn: nat, pos: nat, rest: int) returns (ok: bool)
      requires Valid() && pos < |outNodes| && nn < |nodes|
      requires !reused ==> Sound()
      modifies this`nodes, this`edges, this`outNodes, this`gCountNodes, this`gCountEdges, this`reused, this`repaired,
               inEdges, outEdges
      ensures Valid() && (reused || Sound()) && (old(repaired) ==> repaired)
      ensures SameFlags(old(nodes), nodes) && Uncounted(edges) <= old(Uncounted(edges))
      ensures ok ==> outNodes == Erased(old(outNodes), pos)
      ensures ok && !repaired ==> !old(nodes[nn].callSite) || rest <= 0
      ensures !old(nodes[nn].callSite) || rest <= 0 ==>
                ok && nodes == old(nodes) && edges == old(edges) && reused == old(reused)
      ensures old(!reused && OutCall(Now(), nn)) && rest == old(OutRest(Now(), nn)) ==>
                CallOutcome(old(Now()), nodes, edges, exit, nn, ok, reused)
      ensures reused && !old(reused) && old(OutCall(Now(), nn)) ==> !Exact(nodes, edges, inEdges[..], outEdges[..])
    {
      ok := true;
      if nodes[nn].callSite && rest > 0 {
        ghost var lost;
        ok, lost := RepairReturn(nn, rest);
      }
      if ok {
        DropOut(pos);
      }
    }

    /** With a residual that is not negative: deduce the edge left over, unless a call holds its count back, or let
        what a call did not pass on leave to the exit; then drop the queue entry. */
    method ResolveOut(nn: nat, pos: nat, diffE: int, rest: int, theEdge: Option<nat>)
      returns (ok: bool, stop: bool, pos': nat)
      requires Valid() && pos < |outNodes| && outNodes[pos].node == nn
      requires !reused ==> Sound()
      requires theEdge.Some? ==> theEdge.value in nodes[nn].outgoing && !edges[theEdge.value].HasCount()
      modifies this`nodes, this`edges, this`inNodes, this`outNodes, this`gCountNodes, this`gCountEdges,
               this`numFailures, this`failNode, this`failEdge, this`reused, this`repaired, inEdges, outEdges
      ensures Valid() && (reused || Sound()) && (old(repaired) ==> repaired)
      ensures SameFlags(old(nodes), nodes)
      ensures ok && stop ==> Restarted() && numFailures == old(numFailures) + 1
      ensures ok && !stop ==> numFailures == old(numFailures) && pos' <= |outNodes|
      ensures ok && !stop ==> Uncounted(edges) < old(Uncounted(edges)) ||
                              (Uncounted(edges) == old(Uncounted(edges)) &&
                               |inNodes| + |outNodes| < old(|inNodes| + |outNodes|))
      ensures ok && !stop && !repaired ==>
                0 <= diffE <= 1 && (diffE == 0 ==> !old(nodes[nn].callSite) || rest <= 0)
      ensures old(!reused && nodes[nn].HasCount()) && rest == old(OutRest(Now(), nn)) && rest >= 0 &&
              diffE == old(|nodes[nn].outgoing| - outEdges[nn]) &&
              (theEdge == None <==> old(Counted(edges, nodes[nn].outgoing) == |nodes[nn].outgoing|)) ==>
                OutEnded(old(Here()), nn, pos, ok, stop, pos') || rest < 0
    {
      CountedBound(edges, nodes[nn].outgoing);
      ok, stop, pos' := true, false, pos;
      ghost var m := Here();
      ghost var plain := && !reused && nodes[nn].HasCount() && rest == OutRest(Now(), nn) && rest >= 0
                         && diffE == |nodes[nn].outgoing| - outEdges[nn]
                         && (theEdge == None <==> Counted(edges, nodes[nn].outgoing) == |nodes[nn].outgoing|);
      if diffE == 0 {
        ok := BalanceOut(nn, pos, rest);
        if plain {
          OutBalancedEnds(m, nn, pos, ok);
        }
      } else {
        if diffE != 1 || theEdge == None {
          ok := false;
          return;
        }
        ok, stop, pos' := ResolveEdgeOut(nn, pos, theEdge.value, rest);
        if plain {
          OutEdgeEnds(m, nn, theEdge.value, pos, ok, stop, pos');
        }
      }
    }

    /** Deduces the one uncounted outgoing edge, unless a call holds its count back, and drops the queue entry. */
    method ResolveEdgeOut(nn: nat, pos: nat, e: nat, rest: int) returns (ok: bool, stop: bool, pos': nat)
      requires Valid() && pos < |outNodes| && outNodes[pos].node == nn
      requires e in nodes[nn].outgoing && !edges[e].HasCount()
      requires !reused ==> Sound()
      modifies this`nodes, this`edges, this`inNodes, this`outNodes, this`gCountNodes, this`gCountEdges,
               this`numFailures, this`failNode, this`failEdge, this`reused, this`repaired, inEdges, outEdges
      ensures Valid() && (reused || Sound()) && (old(repaired) ==> repaired)
      ensures SameFlags(old(nodes), nodes)
      ensures ok && stop ==> Restarted() && numFailures == old(numFailures) + 1
      ensures ok && !stop ==> numFailures == old(numFailures) && pos' <= |outNodes|
      ensures ok && !stop ==> Uncounted(edges) < old(Uncounted(edges)) ||
                              (Uncounted(edges) == old(Uncounted(edges)) &&
                               |inNodes| + |outNodes| < old(|inNodes| + |outNodes|))
      ensures old(!reused && guessNode == None) ==> ok && !stop
      ensures old(!reused && nodes[nn].HasCount() && !OutFailsAt(Now(), nn, e)) &&
              old(Counted(edges, nodes[nn].outgoing) + 1 == |nodes[nn].outgoing|) && rest >= 0 &&
              rest == old(nodes[nn].counter - SumCounted(edges, nodes[nn].outgoing)) ==>
                ok && !stop
      ensures ok && !stop && old(!reused) && old(Counted(edges, nodes[nn].outgoing) != |nodes[nn].outgoing|) &&
              rest == old(nodes[nn].counter - SumCounted(edges, nodes[nn].outgoing)) ==>
                !reused && OutStepped(old(Now()), Now(), nn, pos, pos')
      ensures old(!reused && guessNode.Some? && OutFailsAt(Now(), nn, e)) && rest == old(OutRest(Now(), nn)) ==>
                stop && GuessFailed(old(Here()), Here(), None, old(edges[e].sink), OutMissing(old(Now()), nn, e), ok)
    {
      ghost var s := Now();
      ghost var plain := !reused && Counted(s.es, s.ns[nn].outgoing) != |s.ns[nn].outgoing| && rest == OutRest(s, nn);
      ok, stop, pos' := DeduceUnlessHeld(nn, pos, e, rest);
      if ok && !stop {
        DropOut(pos');
        if plain {
          OutSteppedBy(s, Now(), nn, e, pos, pos');
        }
      }
    }

    method DeduceUnlessHeld(nn: nat, pos: nat, e: nat, rest: int) returns (ok: bool, stop: bool, pos': nat)
      requires Valid() && pos < |outNodes| && outNodes[pos].node == nn
      requires e in nodes[nn].outgoing && !edges[e].HasCount()
      requires !reused ==> Sound()
      modifies this`nodes, this`edges, this`inNodes, this`outNodes, this`gCountNodes, this`gCountEdges,
               this`numFailures, this`failNode, this`failEdge, inEdges, outEdges
      ensures Valid() && (reused || Sound())
      ensures SameFlags(old(nodes), nodes)
      ensures ok && stop ==> Restarted() && numFailures == old(numFailures) + 1
      ensures ok && !stop ==> numFailures == old(numFailures) && pos' < |outNodes|
      ensures ok && !stop ==> Uncounted(edges) < old(Uncounted(edges)) ||
                              (Uncounted(edges) == old(Uncounted(edges)) &&
                               |inNodes| + |outNodes| == old(|inNodes| + |outNodes|))
      ensures old(!reused && guessNode == None) ==> ok && !stop
      ensures old(!reused && nodes[nn].HasCount() && !OutFailsAt(Now(), nn, e)) &&
              old(Counted(edges, nodes[nn].outgoing) + 1 == |nodes[nn].outgoing|) && rest >= 0 &&
              rest == old(OutRest(Now(), nn)) ==>
                ok && !stop
      ensures ok && !stop && old(!reused) && rest == old(OutRest(Now(), nn)) ==>
                Now() == if old(HeldBack(Now(), nn, edges[e].sink)) then old(Now())
                         else SinkFollowed(Deduced(old(Now()), nn, old(nodes[nn].outgoing), e), old(edges[e].sink))
      ensures ok && !stop && old(HeldBack(Now(), nn, edges[e].sink)) ==> pos' == pos
      ensures ok && !stop ==> outNodes[pos'].node == nn
      ensures old(!reused && guessNode.Some? && OutFailsAt(Now(), nn, e)) && rest == old(OutRest(Now(), nn)) ==>
                stop && GuessFailed(old(Here()), Here(), None, old(edges[e].sink), OutMissing(old(Now()), nn, e), ok)
    {
      ok, stop, pos' := true, false, pos;
      var t := edges[e].sink;
      if !nodes[nn].callSite || !nodes[t].measured || nodes[t].partial {
        ok, stop, pos' := DeduceOut(nn, pos, e, rest);
      }
    }

    /** c executions more come into nn from the entry, and nn counts them. */
    method RaiseNode(nn: nat, theEdge: Option<nat>, c: int)
      requires Valid() && nn < |nodes|
      requires theEdge.Some? ==> theEdge.value in nodes[nn].outgoing && !edges[theEdge.value].HasCount()
      modifies this`nodes, this`edges, this`gCountNodes, this`gCountEdges, this`repaired, inEdges, outEdges
      ensures Valid() && repaired && (Sound() || !old(Sound()))
      ensures SameFlags(old(nodes), nodes) && Uncounted(edges) == old(Uncounted(edges))
      ensures Now() == EntryRepaired(old(Now()), entry, nn, c, true)
      ensures old(nodes[nn].HasCount()) ==> OutRest(Now(), nn) == old(OutRest(Now(), nn)) + c
      ensures theEdge.Some? ==> theEdge.value in nodes[nn].outgoing && !edges[theEdge.value].HasCount()
    {
      LinkedAt(nodes, |edges|, entry, nn);
      EntryRepairSums(Now(), entry, nn, c, true);
      RepairEntry(nn, c, true);
    }

    /** More leaves nn than it has: a failed guess, or an entry not seen before. */
    method RaiseOut(nn: nat, theEdge: Option<nat>, c: int) returns (ok: bool, stop: bool)
      requires Valid() && nn < |nodes|
      requires !reused ==> Sound()
      requires theEdge.Some? ==> theEdge.value in nodes[nn].outgoing && !edges[theEdge.value].HasCount()
      modifies this`nodes, this`edges, this`inNodes, this`outNodes, this`gCountNodes, this`gCountEdges,
               this`numFailures, this`failNode, this`failEdge, this`reused, this`repaired, inEdges, outEdges
      ensures Valid() && (reused || Sound()) && (old(repaired) ==> repaired)
      ensures SameFlags(old(nodes), nodes)
      ensures ok && stop ==> Restarted() && numFailures == old(numFailures) + 1
      ensures ok && !stop ==> numFailures == old(numFailures) && Uncounted(edges) == old(Uncounted(edges))
      ensures ok && !stop ==> repaired && inNodes == old(inNodes) && outNodes == old(outNodes)
      ensures ok && !stop && theEdge.Some? ==> theEdge.value in nodes[nn].outgoing && !edges[theEdge.value].HasCount()
      ensures reused == old(reused) && guessNode == old(guessNode)
      ensures old(guessNode) == None ==> (ok <==> !old(nodes[nn].routineEntry)) && !stop
      ensures old(guessNode) == None && ok ==> Now() == EntryRepaired(old(Now()), entry, nn, c, true)
      ensures old(guessNode == None && nodes[nn].HasCount()) && ok ==>
                OutRest(Now(), nn) == old(OutRest(Now(), nn)) + c
      ensures old(guessNode.Some?) ==> stop && GuessFailed(old(Here()), Here(), theEdge, nn, c, ok)
    {
      ok, stop := true, false;
      if guessNode.Some? {
        ok := FailGuess(theEdge, nn, c);
        stop := true;
      } else if nodes[nn].routineEntry {
        ok := false;
      } else {
        RaiseNode(nn, theEdge, c);
      }
    }

    /** The node at `pos` of the out queue. Outside guess mode a negative residual means an unseen entry: the node
        and its incoming side are raised by what is missing, once. */
    method StepOut(pos: nat) returns (ok: bool, stop: bool, pos': nat)
      requires Valid() && pos < |outNodes|
      requires !reused ==> Sound()
      modifies this`nodes, this`edges, this`inNodes, this`outNodes, this`gCountNodes, this`gCountEdges,
               this`numFailures, this`failNode, this`failEdge, this`reused, this`repaired, inEdges, outEdges
      ensures Valid() && (reused || Sound()) && (old(repaired) ==> repaired)
      ensures SameFlags(old(nodes), nodes)
      ensures ok && stop ==> Restarted() && numFailures == old(numFailures) + 1
      ensures ok && !stop ==> numFailures == old(numFailures) && pos' <= |outNodes|
      ensures ok && !stop ==> Uncounted(edges) < old(Uncounted(edges)) ||
                              (Uncounted(edges) == old(Uncounted(edges)) &&
                               |inNodes| + |outNodes| < old(|inNodes| + |outNodes|))
      ensures ok && !stop && !repaired ==> !old(OutTrouble(Now(), outNodes[pos].node))
      ensures OutEnded(old(Here()), old(outNodes[pos].node), pos, ok, stop, pos') || old(reused)
    {
      var nn := outNodes[pos].node;
      ok, stop, pos' := true, false, pos;
      var diffE := |nodes[nn].outgoing| - outEdges[nn];
      if diffE >= 2 || !nodes[nn].HasCount() {
        ok := false;
        return;
      }
      var rest, theEdge;
      ok, rest, theEdge := Scan(nodes[nn].outgoing, nodes[nn].counter);
      if !ok {
        return;
      }
      if rest < 0 {
        ok, stop, pos' := RaiseAndResolve(nn, pos, diffE, theEdge, -rest);
      } else {
        ok, stop, pos' := ResolveOut(nn, pos, diffE, rest, theEdge);
      }
    }

    /** The node that c more left than it has, once it has been raised, is treated as one that has nothing over. */
    method RaiseAndResolve(nn: nat, pos: nat, diffE: int, theEdge: Option<nat>, c: int)
      returns (ok: bool, stop: bool, pos': nat)
      requires Valid() && pos < |outNodes| && outNodes[pos].node == nn
      requires !reused ==> Sound()
      requires OutShort(Now(), nn) && c == -OutRest(Now(), nn) && diffE == |nodes[nn].outgoing| - outEdges[nn]
      requires theEdge == None <==> Counted(edges, nodes[nn].outgoing) == |nodes[nn].outgoing|
      requires theEdge.Some? ==> theEdge.value in nodes[nn].outgoing && !edges[theEdge.value].HasCount()
      modifies this`nodes, this`edges, this`inNodes, this`outNodes, this`gCountNodes, this`gCountEdges,
               this`numFailures, this`failNode, this`failEdge, this`reused, this`repaired, inEdges, outEdges
      ensures Valid() && (reused || Sound()) && (old(repaired) ==> repaired)
      ensures SameFlags(old(nodes), nodes)
      ensures ok && stop ==> Restarted() && numFailures == old(numFailures) + 1
      ensures ok && !stop ==> repaired && numFailures == old(numFailures) && pos' <= |outNodes|
      ensures ok && !stop ==> Uncounted(edges) < old(Uncounted(edges)) ||
                              (Uncounted(edges) == old(Uncounted(edges)) &&
                               |inNodes| + |outNodes| < old(|inNodes| + |outNodes|))
      ensures OutEnded(old(Here()), nn, pos, ok, stop, pos') || old(reused)
    {
      pos' := pos;
      ghost var m, sure := Here(), !reused;
      ghost var s, plain := Now(), guessNode == None && !reused;
      assert plain ==> outEdges[nn] == Counted(edges, nodes[nn].outgoing);
      RaisedReady(s, entry, nn, c);
      ok, stop := RaiseOut(nn, theEdge, c);
      if ok && !stop {
        assert !reused ==> outEdges[nn] == Counted(edges, nodes[nn].outgoing);
        ok, stop, pos' := ResolveRaised(s, plain, nn, c, pos, diffE, theEdge);
      }
      if sure {
        OutShortEnds(m, nn, theEdge, pos, ok, stop, pos');
      }
    }

    /** Nothing is over; `plain` says that s is where the node was raised, outside guess mode. */
    method ResolveRaised(ghost s: Snapshot, ghost plain: bool, nn: nat, ghost c: int, pos: nat, diffE: int,
                         theEdge: Option<nat>)
      returns (ok: bool, stop: bool, pos': nat)
      requires Valid() && pos < |outNodes| && outNodes[pos].node == nn && nn < |nodes| && repaired
      requires !reused ==> Sound()
      requires theEdge.Some? ==> theEdge.value in nodes[nn].outgoing && !edges[theEdge.value].HasCount()
      requires WellFormed(s.ns, s.es) && nn < |s.ns| == |nodes| && c == -OutRest(s, nn) && SameFlags(s.ns, nodes)
      requires plain ==> && guessNode == None && !reused && diffE == |nodes[nn].outgoing| - outEdges[nn]
                         && Now() == EntryRepaired(s, entry, nn, c, true)
                         && (theEdge == None <==> Counted(edges, nodes[nn].outgoing) == |nodes[nn].outgoing|)
                         && Spent(Now(), nn) && !OutTrouble(Now(), nn)
      modifies this`nodes, this`edges, this`inNodes, this`outNodes, this`gCountNodes, this`gCountEdges,
               this`numFailures, this`failNode, this`failEdge, this`reused, this`repaired, inEdges, outEdges
      ensures Valid() && (reused || Sound()) && repaired
      ensures SameFlags(s.ns, nodes)
      ensures ok && stop ==> Restarted() && numFailures == old(numFailures) + 1
      ensures ok && !stop ==> numFailures == old(numFailures) && pos' <= |outNodes|
      ensures ok && !stop ==> Uncounted(edges) < old(Uncounted(edges)) ||
                              (Uncounted(edges) == old(Uncounted(edges)) &&
                               |inNodes| + |outNodes| < old(|inNodes| + |outNodes|))
      ensures plain ==> ok && !stop
      ensures plain ==> OutRaised(s, Now(), entry, nn, pos, pos') || stop
    {
      ghost var t := Now();
      ok, stop, pos' := ResolveOut(nn, pos, diffE, 0, theEdge);
      if plain {
        RaisedSteps(s, t, Now(), entry, nn, c, pos, pos');
      }
    }

    // ----- The passes over the queues -----

    /** One entry of the in queue, as part of a pass. */
    method NextIn(ghost f: Flow, pos: nat) returns (ok: bool, stop: bool, pos': nat)
      requires Valid() && pos < |inNodes| && (!reused ==> Sound()) && Steady() && (guessNode.Some? ==> tracking)
      modifies this`nodes, this`edges, this`inNodes, this`outNodes, this`gCountNodes, this`gCountEdges,
               this`numFailures, this`failNode, this`failEdge, this`reused, this`repaired, inEdges, outEdges
      ensures Valid() && (reused || Sound()) && (old(repaired) ==> repaired) && (ok ==> Steady())
      ensures SameFlags(old(nodes), nodes)
      ensures ok && stop ==> numFailures == old(numFailures) + 1
      ensures ok && !stop ==> numFailures == old(numFailures) && pos' <= |inNodes|
      ensures ok && !stop ==> Uncounted(edges) < old(Uncounted(edges)) ||
                              (Uncounted(edges) == old(Uncounted(edges)) &&
                               |inNodes| + |outNodes| < old(|inNodes| + |outNodes|))
      ensures old(Good(f, {}, {})) ==> ok && !stop && Good(f, {}, {}) && Derived(old(Now()), Now())
    {
      ghost var good, s, v := Good(f, {}, {}), Now(), inNodes[pos].node;
      if good {
        InStepSafe(s, f, v, pos, guessNode == None);
      }
      ok, stop, pos' := StepIn(pos);
      if ok && !stop && !repaired {
        InStepSettled(s, Now(), v, pos, pos');
      }
      if good {
        InStepKeeps(s, Now(), f, v, pos, pos', guessNode == None);
      }
    }

    /** One pass over the in queue; a failed guess ends it early. */
    method InPass(ghost f: Flow) returns (ok: bool)
      requires Valid() && (!reused ==> Sound()) && Steady() && (guessNode.Some? ==> tracking)
      modifies this`nodes, this`edges, this`inNodes, this`outNodes, this`gCountNodes, this`gCountEdges,
               this`numFailures, this`failNode, this`failEdge, this`reused, this`repaired, inEdges, outEdges
      ensures Valid() && (reused || Sound()) && (old(repaired) ==> repaired) && (ok ==> Steady())
      ensures SameFlags(old(nodes), nodes)
      ensures ok ==> Lower(numFailures, Uncounted(edges), |inNodes| + |outNodes|,
                           old(numFailures), old(Uncounted(edges)), old(|inNodes| + |outNodes|))
                     || (old(inNodes) == [] && numFailures == old(numFailures) && edges == old(edges)
                         && inNodes == old(inNodes) && outNodes == old(outNodes))
      ensures old(Good(f, {}, {})) ==>
                ok && numFailures == old(numFailures) && Good(f, {}, {}) && Derived(old(Now()), Now())
    {
      ghost var ns, es, n0, c0, q0 := nodes, edges, numFailures, Uncounted(edges), |inNodes| + |outNodes|;
      ghost var good, start := Good(f, {}, {}), Now();
      ghost var moved := false;
      var pos: nat := 0;
      while pos < |inNodes|
        invariant Valid() && (reused || Sound()) && Steady() && (old(repaired) ==> repaired) && pos <= |inNodes|
        invariant SameFlags(ns, nodes) && numFailures == n0
        invariant moved ==> Lower(numFailures, Uncounted(edges), |inNodes| + |outNodes|, n0, c0, q0)
        invariant !moved ==> pos == 0 && edges == es && inNodes == old(inNodes) && outNodes == old(outNodes)
        invariant good ==> Good(f, {}, {}) && Derived(start, Now())
        decreases Uncounted(edges), |inNodes| + |outNodes|
      {
        ghost var s := Now();
        var stop;
        ok, stop, pos := NextIn(f, pos);
        moved := true;
        if !ok || stop {
          return;
        }
        if good {
          DerivedOn(start, s, Now());
        }
      }
      ok := true;
    }

    /** One entry of the out queue, as part of a pass. */
    method NextOut(ghost f: Flow, pos: nat) returns (ok: bool, stop: bool, pos': nat)
      requires Valid() && pos < |outNodes| && (!reused ==> Sound()) && Steady() && (guessNode.Some? ==> tracking)
      modifies this`nodes, this`edges, this`inNodes, this`outNodes, this`gCountNodes, this`gCountEdges,
               this`numFailures, this`failNode, this`failEdge, this`reused, this`repaired, inEdges, outEdges
      ensures Valid() && (reused || Sound()) && (old(repaired) ==> repaired) && (ok ==> Steady())
      ensures SameFlags(old(nodes), nodes)
      ensures ok && stop ==> numFailures == old(numFailures) + 1
      ensures ok && !stop ==> numFailures == old(numFailures) && pos' <= |outNodes|
      ensures ok && !stop ==> Uncounted(edges) < old(Uncounted(edges)) ||
                              (Uncounted(edges) == old(Uncounted(edges)) &&
                               |inNodes| + |outNodes| < old(|inNodes| + |outNodes|))
      ensures old(Good(f, {}, {})) ==> ok && !stop && Good(f, {}, {}) && Derived(old(Now()), Now())
    {
      ghost var good, s, v := Good(f, {}, {}), Now(), outNodes[pos].node;
      if good {
        OutStepSafe(s, f, v, pos, guessNode == None);
      }
      ok, stop, pos' := StepOut(pos);
      if ok && !stop && !repaired {
        OutStepSettled(s, Now(), v, pos, pos');
      }
      if good {
        OutStepKeeps(s, Now(), f, v, pos, pos', guessNode == None);
      }
    }

    /** One pass over the out queue. */
    method OutPass(ghost f: Flow) returns (ok: bool)
      requires Valid() && (!reused ==> Sound()) && Steady() && (guessNode.Some? ==> tracking)
      modifies this`nodes, this`edges, this`inNodes, this`outNodes, this`gCountNodes, this`gCountEdges,
               this`numFailures, this`failNode, this`failEdge, this`reused, this`repaired, inEdges, outEdges
      ensures Valid() && (reused || Sound()) && (old(repaired) ==> repaired) && (ok ==> Steady())
      ensures SameFlags(old(nodes), nodes)
      ensures ok ==> Lower(numFailures, Uncounted(edges), |inNodes| + |outNodes|,
                           old(numFailures), old(Uncounted(edges)), old(|inNodes| + |outNodes|))
                     || (old(outNodes) == [] && numFailures == old(numFailures) && edges == old(edges)
                         && inNodes == old(inNodes) && outNodes == old(outNodes))
      ensures old(Good(f, {}, {})) ==>
                ok && numFailures == old(numFailures) && Good(f, {}, {}) && Derived(old(Now()), Now())
    {
      ghost var ns, es, n0, c0, q0 := nodes, edges, numFailures, Uncounted(edges), |inNodes| + |outNodes|;
      ghost var good, start := Good(f, {}, {}), Now();
      ghost var moved := false;
      var pos: nat := 0;
      while pos < |outNodes|
        invariant Valid() && (reused || Sound()) && Steady() && (old(repaired) ==> repaired) && pos <= |outNodes|
        invariant SameFlags(ns, nodes) && numFailures == n0
        invariant moved ==> Lower(numFailures, Uncounted(edges), |inNodes| + |outNodes|, n0, c0, q0)
        invariant !moved ==> pos == 0 && edges == es && inNodes == old(inNodes) && outNodes == old(outNodes)
        invariant good ==> Good(f, {}, {}) && Derived(start, Now())
        decreases Uncounted(edges), |inNodes| + |outNodes|
      {
        ghost var s := Now();
        var stop;
        ok, stop, pos := NextOut(f, pos);
        moved := true;
        if !ok || stop {
          return;
        }
        if good {
          DerivedOn(start, s, Now());
        }
      }
      ok := true;
    }

    /** What the computation is for: nothing is left without a count, except an exit that nothing reaches. */
    ghost predicate AllCounted()
      reads this
    {
      AllCountedIn(nodes, edges, hasNonzero)
    }

    /** The guess node offers no side on which exactly one edge is missing. */
    ghost predicate Stuck()
      requires Valid()
      reads this, inEdges, outEdges
    {
      && guessNode.Some? && tracking && nodes[guessNode.value].measured
      && inEdges[guessNode.value] + 1 != |nodes[guessNode.value].incoming|
      && outEdges[guessNode.value] + 1 != |nodes[guessNode.value].outgoing|
    }

    /** What follows where both queues are empty, in s: the end when everything is counted, a guess at the first node
        with only a partial count, or a failure when there is none. */
    ghost predicate Quiesced(s: Snapshot, ok: bool, guess: bool)
      requires Valid()
      reads this, inEdges, outEdges
    {
      && tracking == guess
      && (ok && !guess <==> AllCountedIn(s.ns, s.es, hasNonzero))
      && (!ok <==> !AllCountedIn(s.ns, s.es, hasNonzero) && NoPartial(s.ns))
      && if guess
         then guessNode.Some? && FirstPartial(s.ns, guessNode.value) && Flagged(s, Now(), guessNode.value) &&
              gCountEdges == [] && (Quiet(Now()) <==> Stuck())
         else Now() == s
    }

    /** Both queues are empty: unless everything has a count, guess that the first partial count left is a full one.
        Fails when there is none. */
    method Quiesce() returns (ok: bool, guess: bool)
      requires Valid() && (!reused ==> Sound()) && Steady() && inNodes == [] && outNodes == []
      modifies this`nodes, this`gCountNodes, this`gCountEdges, this`inNodes, this`outNodes, this`guessNode,
               this`numFailures, this`failNode, this`failEdge, this`tracking, this`atGuess, this`guessed
      ensures Valid() && (Sound() || !old(Sound()))
      ensures guess ==> numFailures == 0 && Unflagged(nodes) < old(Unflagged(nodes))
      ensures !guess ==> numFailures == old(numFailures)
      ensures Quiesced(old(Now()), ok, guess) || !old(Quiet(Now()))
      ensures guess ==> AllQueued(Now(), guessNode.value) || old(reused || !Settled(Now(), {}, {}))
    {
      guess := false;
      var open := Uncounteds();
      if !open {
        return true, false;
      }
      if guessNode == None {
        return false, false;
      }
      ok, guess := true, true;
      StartGuess();
    }

    /** Looks for nodes and edges without a count, and for a node to guess at. */
    method Uncounteds() returns (some: bool)
      requires Valid()
      modifies this`guessNode, this`tracking
      ensures Valid() && !tracking && (Sound() || !old(Sound()))
      ensures some <==> !AllCountedIn(nodes, edges, hasNonzero)
      ensures guessNode.Some? ==> FirstPartial(nodes, guessNode.value)
      ensures guessNode == None ==> NoPartial(nodes)
    {
      var openNodes := UncountedNodes();
      var openEdges := UncountedEdges();
      some := openNodes || openEdges;
    }

    /** Looks for nodes without a count, except an exit that nothing reaches, and for the first one with a partial
        count, which becomes the guess node. */
    method UncountedNodes() returns (some: bool)
      requires Valid()
      modifies this`guessNode, this`tracking
      ensures Valid() && !tracking && (Sound() || !old(Sound()))
      ensures !some <==> forall v | 0 <= v < |nodes| :: nodes[v].HasCount() || (nodes[v].cfgExit && !hasNonzero)
      ensures guessNode.Some? ==> FirstPartial(nodes, guessNode.value)
      ensures guessNode == None ==> forall v | 0 <= v < |nodes| :: nodes[v].partial ==> nodes[v].HasCount()
    {
      some, guessNode, tracking := false, None, false;
      var v := 0;
      while v < |nodes|
        invariant 0 <= v <= |nodes| && !tracking
        invariant !some <==> forall u | 0 <= u < v :: nodes[u].HasCount() || (nodes[u].cfgExit && !hasNonzero)
        invariant guessNode == None ==> forall u | 0 <= u < v :: nodes[u].partial ==> nodes[u].HasCount()
        invariant guessNode.Some? ==> guessNode.value < v && FirstPartial(nodes, guessNode.value)
      {
        if !nodes[v].HasCount() {
          if !nodes[v].cfgExit || hasNonzero {
            some := true;
          }
          if nodes[v].partial && guessNode == None {
            guessNode := Some(v);
          }
        }
        v := v + 1;
      }
    }

    method UncountedEdges() returns (some: bool)
      requires Valid()
      ensures !some <==> forall e | 0 <= e < |edges| :: edges[e].HasCount()
    {
      some := false;
      var e := 0;
      while e < |edges|
        invariant 0 <= e <= |edges|
        invariant !some <==> forall d | 0 <= d < e :: edges[d].HasCount()
      {
        if !edges[e].HasCount() {
          some := true;
        }
        e := e + 1;
      }
    }

    /** Takes the partial count of the guess node for a full one and queues the node where it can propagate. */
    method StartGuess()
      requires Valid() && (!reused ==> Sound()) && guessNode.Some? && inNodes == [] && outNodes == []
      requires !nodes[guessNode.value].HasCount() && !tracking && Steady()
      modifies this`nodes, this`gCountNodes, this`gCountEdges, this`inNodes, this`outNodes,
               this`numFailures, this`failNode, this`failEdge, this`tracking, this`atGuess, this`guessed
      ensures Valid() && (Sound() || !old(Sound())) && tracking
      ensures nodes == old(nodes)[guessNode.value := old(nodes)[guessNode.value].(measured := true)]
      ensures Unflagged(nodes) < old(Unflagged(nodes)) && numFailures == 0 && gCountEdges == []
      ensures Quiet(Now()) <==> Stuck()
      ensures AllQueued(Now(), guessNode.value) || old(reused || !Settled(Now(), {}, {}))
    {
      ghost var g, s, settled := guessNode.value, Now(), !reused && Settled(Now(), {}, {});
      UnflaggedLess(nodes, g, nodes[g].(measured := true));
      ClearGuess();
      OpenGuess();
      if settled {
        GuessSettled(s, Now(), g);
      }
    }

    method OpenGuess()
      requires Valid() && guessNode.Some? && inNodes == [] && outNodes == [] && gCountNodes == [] && gCountEdges == []
      requires !tracking && Steady()
      modifies this`nodes, this`inNodes, this`outNodes, this`tracking, this`atGuess, this`guessed
      ensures Valid() && (Sound() || !old(Sound())) && tracking
      ensures nodes == old(nodes)[guessNode.value := old(nodes)[guessNode.value].(measured := true)]
      ensures Quiet(Now()) <==> Stuck()
      ensures Requeued(Now(), guessNode.value) || !old(Sound())
    {
      FlagGuess();
      Requeue();
    }

    method ClearGuess()
      requires Valid() && !tracking
      modifies this`gCountNodes, this`gCountEdges, this`numFailures, this`failNode, this`failEdge
      ensures Valid() == old(Valid()) && (Sound() || !old(Sound()))
      ensures gCountNodes == [] && gCountEdges == [] && numFailures == 0
    {
      if Sound() {
        TrackedNow(base.es, edges, gCountEdges, set e: nat | e < |edges| && edges[e].HasCount());
      }
      gCountNodes, gCountEdges := [], [];
      numFailures, failNode, failEdge := 0, None, None;
    }

    /** The guess node counts from now on. */
    method FlagGuess()
      requires Valid() && guessNode.Some? && inNodes == [] && outNodes == [] && gCountNodes == [] && gCountEdges == []
      requires !tracking && Steady()
      modifies this`nodes, this`tracking, this`atGuess, this`guessed
      ensures Valid() && (Sound() || !old(Sound())) && tracking && guessed == Now()
      ensures nodes == old(nodes)[guessNode.value := old(nodes)[guessNode.value].(measured := true)]
    {
      var g := guessNode.value;
      ghost var s := Now();
      PutNode(g, nodes[g].(measured := true));
      guessed := Now();
      if !repaired {
        FlagRestful(s, guessed, g);
      }
      FollowUp();
    }

    /** What is derived from here on is tracked. */
    ghost method FollowUp()
      requires Valid() && guessNode.Some? && gCountNodes == [] && gCountEdges == [] && !tracking
      requires guessed == Now() && (repaired || Restful(guessed, guessNode.value))
      modifies this`tracking, this`atGuess
      ensures Valid() && tracking && (Sound() || !old(Sound()))
    {
      tracking, atGuess := true, set e: nat | e < |edges| && edges[e].HasCount();
      if Exact(nodes, edges, inEdges[..], outEdges[..]) && GuessList(edges, []) && Frozen(base.es, edges, []) {
        TrackedNow(base.es, edges, [], atGuess);
      }
    }

    // ----- The initial pass -----

    /** Enters the edges with a count in the counters of their ends. */
    method InitEdges()
      requires Valid() && forall v | 0 <= v < |nodes| :: inEdges[v] == 0 && outEdges[v] == 0
      modifies this`hasNonzero, inEdges, outEdges
      ensures Valid() && Exact(nodes, edges, inEdges[..], outEdges[..])
      ensures hasNonzero == (old(hasNonzero) || RunEdge(edges, |edges|))
    {
      ExactEnds(nodes, edges, inEdges[..], outEdges[..]);
      EnterEdges();
      ExactEnds(nodes, edges, inEdges[..], outEdges[..]);
    }

    method EnterEdges()
      requires Valid() && ExactBelow(nodes, edges, inEdges[..], outEdges[..], 0)
      modifies this`hasNonzero, inEdges, outEdges
      ensures ExactBelow(nodes, edges, inEdges[..], outEdges[..], |edges|)
      ensures hasNonzero == (old(hasNonzero) || RunEdge(edges, |edges|))
    {
      ghost var ran := hasNonzero;
      var e := 0;
      while e < |edges|
        invariant 0 <= e <= |edges|
        invariant ExactBelow(nodes, edges, inEdges[..], outEdges[..], e)
        invariant hasNonzero == (ran || RunEdge(edges, e))
      {
        EnterEdge(e, ran);
        e := e + 1;
      }
    }

    method EnterEdge(e: nat, ghost ran: bool)
      requires Valid() && e < |edges| && ExactBelow(nodes, edges, inEdges[..], outEdges[..], e)
      requires hasNonzero == (ran || RunEdge(edges, e))
      modifies this`hasNonzero, inEdges, outEdges
      ensures ExactBelow(nodes, edges, inEdges[..], outEdges[..], e + 1)
      ensures hasNonzero == (ran || RunEdge(edges, e + 1))
    {
      RunEdgeNext(edges, e);
      ghost var inE, outE := inEdges[..], outEdges[..];
      ExactStep(nodes, edges, inE, outE, e);
      if edges[e].HasCount() {
        var s, t := edges[e].source, edges[e].sink;
        outEdges[s] := outEdges[s] + 1;
        inEdges[t] := inEdges[t] + 1;
        assert inEdges[..] == inE[t := inE[t] + 1] && outEdges[..] == outE[s := outE[s] + 1];
        if edges[e].counter > 0 {
          hasNonzero := true;
        }
      }
    }

    /** A counted node whose incoming edges are all counted: what they lack comes in through a new entry edge. */
    method InitBalance(v: nat) returns (ok: bool)
      requires Valid() && Sound() && v < |nodes| && guessNode == None && nodes[v].HasCount()
      modifies this`nodes, this`edges, this`gCountNodes, this`gCountEdges, this`repaired, inEdges, outEdges
      ensures Valid() == old(Valid()) && Sound() == old(Sound()) && (old(repaired) ==> repaired)
      ensures ok && old(CountClash(Now(), v)) ==> repaired
      ensures !old(CountClash(Now(), v)) ==> ok && Now() == old(Now())
      ensures old(CountClash(Now(), v)) ==> (ok <==> !old(ClashAborts(Now(), v)))
      ensures ok && old(CountClash(Now(), v)) ==> Now() == ClashRepaired(old(Now()), entry, v)
      ensures ok && old(CountClash(Now(), v)) ==> SumCounted(edges, nodes[v].incoming) == old(nodes[v].counter)
    {
      ghost var s := Now();
      ok := true;
      CountedBound(edges, nodes[v].incoming);
      if |nodes[v].incoming| - inEdges[v] == 0 && inEdges[v] > 0 {
        var sum;
        ok, sum := SumAll(nodes[v].incoming);
        if !ok {
          return;
        }
        if sum > nodes[v].counter || (sum < nodes[v].counter && nodes[v].routineEntry) {
          return false;
        }
        if sum < nodes[v].counter {
          var lack := nodes[v].counter - sum;
          assert lack == s.ns[v].counter - SumCounted(s.es, s.ns[v].incoming);
          RepairEntry(v, lack, false);
        }
      }
    }

    /** The initial pass at one node: check a measured count, or derive one from a fully counted side, and queue the
        node on the sides where one edge is missing. */
    method InitNode(v: nat) returns (ok: bool)
      requires Valid() && Sound() && v < |nodes| && guessNode == None
      modifies this, inEdges, outEdges
      ensures Valid() && Sound() && guessNode == None && reused == old(reused) && |nodes| == |old(nodes)|
      ensures ok <==> !old(InitAborts(Now(), v))
      ensures ok ==> Now() == InitStep(old(Now()), entry, v)
      ensures old(repaired) ==> repaired
      ensures ok && old(InitTrouble(Now(), v)) ==> repaired
      ensures hasNonzero == (old(hasNonzero) || RunNode(Upgraded(old(nodes)[v])))
    {
      ghost var s := Now();
      PutNode(v, Upgraded(nodes[v]));
      assert Now() == WithNode(s, v, Upgraded(s.ns[v]));
      ok := true;
      if nodes[v].HasCount() {
        ok := InitCounted(v);
      } else {
        InitOpen(v);
      }
    }

    method InitOpen(v: nat)
      requires Valid() && Sound() && v < |nodes| && guessNode == None
      modifies this`nodes, this`gCountNodes, this`inNodes, this`outNodes
      ensures Valid() && Sound() && Now() == OpenInit(old(Now()), v)
    {
      CountedBound(edges, nodes[v].incoming);
      CountedBound(edges, nodes[v].outgoing);
      if outEdges[v] == |nodes[v].outgoing| && outEdges[v] > 0 {
        InitFromOut(v);
      } else if inEdges[v] == |nodes[v].incoming| && inEdges[v] > 0 {
        InitFromIn(v);
      }
    }

    method InitCounted(v: nat) returns (ok: bool)
      requires Valid() && Sound() && v < |nodes| && guessNode == None && nodes[v].HasCount()
      modifies this, inEdges, outEdges
      ensures Valid() && Sound() && guessNode == None && reused == old(reused) && |nodes| == |old(nodes)|
      ensures ok <==> !old(ClashAborts(Now(), v))
      ensures ok ==> Now() == CountedInit(old(Now()), entry, v)
      ensures old(repaired) ==> repaired
      ensures ok && old(CountClash(Now(), v)) ==> repaired
      ensures hasNonzero == (old(hasNonzero) || RunNode(old(nodes)[v]))
    {
      NoteRun(nodes[v].counter);
      var incDiff := |nodes[v].incoming| - inEdges[v];
      ok := InitBalance(v);
      if ok {
        InitQueues(v, incDiff);
      }
    }

    method NoteRun(c: int)
      requires Valid()
      modifies this`hasNonzero
      ensures Valid() && (Sound() || !old(Sound())) && hasNonzero == (old(hasNonzero) || c > 0)
    {
      if c > 0 {
        hasNonzero := true;
      }
    }

    method InitQueues(v: nat, incDiff: int)
      requires Valid() && Sound() && v < |nodes|
      modifies this`inNodes, this`outNodes
      ensures Valid() && Sound()
      ensures incDiff == |nodes[v].incoming| - inEdges[v] ==> Now() == QueuedOut(QueuedIn(old(Now()), v), v)
      ensures incDiff == 0 ==> Now() == QueuedOut(old(Now()), v)
    {
      if incDiff == 1 {
        var u := InsertIn(v);
      }
      InitQueueOut(v);
    }

    method InitQueueIn(v: nat)
      requires Valid() && Sound() && v < |nodes|
      modifies this`inNodes
      ensures Valid() && Sound() && Now() == QueuedIn(old(Now()), v)
    {
      if |nodes[v].incoming| - inEdges[v] == 1 {
        var u := InsertIn(v);
      }
    }

    method InitQueueOut(v: nat)
      requires Valid() && Sound() && v < |nodes|
      modifies this`outNodes
      ensures Valid() && Sound() && Now() == QueuedOut(old(Now()), v)
    {
      if |nodes[v].outgoing| - outEdges[v] == 1 {
        var u := InsertOut(v);
      }
    }

    method InitFromOut(v: nat)
      requires Valid() && Sound() && v < |nodes| && guessNode == None
      requires Counted(edges, nodes[v].outgoing) == |nodes[v].outgoing|
      modifies this`nodes, this`gCountNodes, this`inNodes
      ensures Valid() && Sound()
      ensures Now() == QueuedIn(WithNode(old(Now()), v,
                                         old(nodes)[v].Computed(SumCounted(old(edges), old(nodes)[v].outgoing))), v)
    {
      var ok, sum := SumAll(nodes[v].outgoing);
      SetNodeCount(v, sum);
      InitQueueIn(v);
    }

    method InitFromIn(v: nat)
      requires Valid() && Sound() && v < |nodes| && guessNode == None
      requires Counted(edges, nodes[v].incoming) == |nodes[v].incoming|
      modifies this`nodes, this`gCountNodes, this`outNodes
      ensures Valid() && Sound()
      ensures Now() == QueuedOut(WithNode(old(Now()), v,
                                          old(nodes)[v].Computed(SumCounted(old(edges), old(nodes)[v].incoming))), v)
    {
      var ok, sum := SumAll(nodes[v].incoming);
      SetNodeCount(v, sum);
      InitQueueOut(v);
    }

    /** The initial pass over the nodes. */
    method InitNodes(ghost f: Flow) returns (ok: bool)
      requires Valid() && Sound() && guessNode == None && inNodes == [] && outNodes == []
      modifies this, inEdges, outEdges
      ensures Valid() && Sound() && guessNode == None && reused == old(reused)
      ensures ok <==> !InitFails(old(Now()), entry, 0)
      ensures ok ==> Now() == InitFrom(old(Now()), entry, 0)
      ensures ok ==> hasNonzero == (old(hasNonzero) || InitRuns(old(Now()), entry, 0))
      ensures ok ==> Steady()
      ensures old(!reused && Fits(nodes, edges, f)) ==>
                ok && Good(f, {}, {}) && InitDerived(old(nodes), old(edges), Now())
    {
      ghost var s0 := Now();
      assert Untreated(s0, 0);
      ok := InitAll();
      assert ok && !repaired ==> From(|nodes|, |nodes|) == {};
      if !reused && Fits(s0.ns, s0.es, f) {
        InitGoodStart(s0, f);
        InitGoodRest(s0, s0, f, entry, 0);
      }
    }

    method InitAll() returns (ok: bool)
      requires Valid() && Sound() && guessNode == None && (repaired || Untreated(Now(), 0))
      modifies this, inEdges, outEdges
      ensures Valid() && Sound() && guessNode == None && reused == old(reused)
      ensures ok <==> !InitFails(old(Now()), entry, 0)
      ensures ok ==> Now() == InitFrom(old(Now()), entry, 0)
      ensures ok ==> hasNonzero == (old(hasNonzero) || InitRuns(old(Now()), entry, 0))
      ensures ok ==> repaired || Untreated(Now(), |nodes|)
    {
      ghost var s0, ran0 := Now(), hasNonzero;
      var v, n := 0, |nodes|;
      while v < n
        invariant 0 <= v <= |nodes| == n
        invariant Valid() && Sound() && guessNode == None && reused == old(reused)
        invariant InitRest(s0, ran0, Now(), hasNonzero, entry, v) && (repaired || Untreated(Now(), v))
      {
        ok := InitNext(s0, ran0, v);
        if !ok {
          return;
        }
        v := v + 1;
      }
      InitRestEnd(s0, ran0, Now(), hasNonzero, entry);
      ok := true;
    }

    method InitNext(ghost s0: Snapshot, ghost ran0: bool, v: nat) returns (ok: bool)
      requires Valid() && Sound() && v < |nodes| && guessNode == None && InitRest(s0, ran0, Now(), hasNonzero, entry, v)
      requires repaired || Untreated(Now(), v)
      modifies this, inEdges, outEdges
      ensures Valid() && Sound() && guessNode == None && reused == old(reused) && |nodes| == |old(nodes)|
      ensures if ok then InitRest(s0, ran0, Now(), hasNonzero, entry, v + 1) else InitFails(s0, entry, 0)
      ensures ok ==> repaired || Untreated(Now(), v + 1)
    {
      InitRestNext(s0, ran0, Now(), hasNonzero, entry, v);
      if !repaired {
        TreatNext(Now(), v);
      }
      ok := InitNode(v);
    }

    /** The initial passes over the edges and the nodes. */
    method Initialize(ghost f: Flow) returns (ok: bool)
      requires Valid() && !repaired && !tracking && guessNode == None
      requires inNodes == [] && outNodes == [] && gCountEdges == []
      requires forall v | 0 <= v < |nodes| :: inEdges[v] == 0 && outEdges[v] == 0
      requires base.es == []
      modifies this, inEdges, outEdges
      ensures Valid() && Sound() && guessNode == None && !reused && (ok ==> Steady())
      ensures ok <==> !InitFails(old(Now()), entry, 0)
      ensures ok ==> Now() == InitFrom(old(Now()), entry, 0)
      ensures ok ==> hasNonzero == (old(hasNonzero) || RunAtStart(old(Now()), entry))
      ensures old(Fits(nodes, edges, f)) ==> ok && Good(f, {}, {}) && InitDerived(old(nodes), old(edges), Now())
    {
      InitEdges();
      ok := InitNodes(f);
    }

    // ----- The whole computation -----

    /** One turn of the outer loop, up to the test for guessing. */
    method BothPasses(ghost f: Flow) returns (ok: bool)
      requires Valid() && (!reused ==> Sound()) && (inNodes != [] || outNodes != [])
      requires Steady() && (guessNode.Some? ==> tracking)
      modifies this`nodes, this`edges, this`inNodes, this`outNodes, this`gCountNodes, this`gCountEdges,
               this`numFailures, this`failNode, this`failEdge, this`reused, this`repaired, inEdges, outEdges
      ensures Valid() && (reused || Sound()) && (old(repaired) ==> repaired) && (ok ==> Steady())
      ensures SameFlags(old(nodes), nodes) && Unflagged(nodes) == old(Unflagged(nodes))
      ensures ok ==> Lower(numFailures, Uncounted(edges), |inNodes| + |outNodes|,
                           old(numFailures), old(Uncounted(edges)), old(|inNodes| + |outNodes|))
      ensures old(Good(f, {}, {})) ==>
                ok && numFailures == old(numFailures) && Good(f, {}, {}) && Derived(old(Now()), Now())
    {
      ghost var ns, start, good := nodes, Now(), Good(f, {}, {});
      ok := InPass(f);
      UnflaggedSame(ns, nodes);
      if !ok {
        return;
      }
      ghost var ns1, middle := nodes, Now();
      ok := OutPass(f);
      UnflaggedSame(ns1, nodes);
      if good {
        DerivedOn(start, middle, Now());
      }
    }

    /** The guess being followed up. */
    ghost function Guess(): Option<nat>
      reads this
    {
      if tracking then guessNode else None
    }

    /** The run has stopped at a guess made in `quiet`: it has counted nothing but the node v. */
    ghost predicate StoppedAt(quiet: Snapshot, v: nat)
      reads this
    {
      Flagged(quiet, Now(), v) && Quiet(Now())
    }

    /** The first guess has been made at v in `quiet`. If nothing could be deduced from it, nothing has been. */
    ghost predicate GuessedAt(quiet: Snapshot, v: nat)
      requires WellFormed(quiet.ns, quiet.es)
      reads this
    {
      PastGuess(quiet, nodes, Guess(), v) && (DeadEnd(quiet, v) ==> !reused && StoppedAt(quiet, v))
    }

    /** How a run ends, once nothing more can be deduced in `quiet`: there, with everything counted or for want of a
        node to guess at, or after a guess. It stops at that guess if and only if the node is blocked. */
    ghost predicate EndsFrom(quiet: Snapshot, ok: bool)
      requires WellFormed(quiet.ns, quiet.es)
      reads this
    {
      if AllCountedIn(quiet.ns, quiet.es, hasNonzero) then ok && Now() == quiet && !reused
      else if NoPartial(quiet.ns) then !ok && Now() == quiet && !reused
      else exists v: nat :: FirstPartial(quiet.ns, v) && v < |nodes| && nodes[v].measured &&
                       (Blocked(quiet.ns, quiet.es, v) <==> ok && !reused && StoppedAt(quiet, v))
    }

    /** If all partial counts are the flow's, so are all counts, and no guess fails. */
    ghost predicate RightGuesses(f: Flow, start: Snapshot)
      reads this, inEdges, outEdges, base
    {
      Full(start.ns, f) ==>
        && Good(f, {}, {}) && Full(nodes, f) && Extends(start.ns, start.es, nodes, edges)
        && (tracking ==> numFailures == 0)
    }

    /** The invariant of a run for which a flow fits: before the first time the queues are empty everything has been
        derived, and after it `quiet` is the state then. */
    ghost predicate OnTrack(f: Flow, start: Snapshot, quiet: Snapshot, first: bool, guess: nat)
      reads this, inEdges, outEdges, base
    {
      if first then Good(f, {}, {}) && Derived(start, Now()) && SameFlags(start.ns, nodes) && base.es == []
      else QuietFrom(f, start, quiet) && Going(quiet, guess)
    }

    /** How such a run ends when it has been at `quiet`. */
    ghost predicate Concluded(f: Flow, start: Snapshot, quiet: Snapshot, ok: bool)
      reads this, base
    {
      QuietFrom(f, start, quiet) && EndsFrom(quiet, ok) && (!reused ==> Frozen(quiet.es, edges, []))
    }

    /** There is something left to count and no node to guess at. */
    ghost predicate Exhausted()
      reads this
    {
      NoPartial(nodes) && !AllCounted()
    }

    /** Where both queues are empty: everything is counted, or the last guess could not be followed up. */
    ghost predicate Ended()
      requires Valid()
      reads this, inEdges, outEdges
    {
      if tracking then Stuck() && (!repaired ==> Blocked(nodes, edges, guessNode.value)) else AllCounted()
    }

    /** How things stand between two turns of the outer loop. */
    ghost predicate BetweenTurns()
      requires Valid()
      reads this, inEdges, outEdges
    {
      if Quiet(Now()) then Ended() else guessNode.Some? ==> tracking
    }

    /** One turn of the outer loop. */
    method Turn(ghost f: Flow, ghost good: bool, ghost start: Snapshot, ghost quiet0: Snapshot, ghost first0: bool,
                ghost guess0: nat)
      returns (ok: bool, ghost quiet: Snapshot, ghost first: bool, ghost guess: nat)
      requires Valid() && (!reused ==> Sound()) && (inNodes != [] || outNodes != [])
      requires Steady() && (guessNode.Some? ==> tracking)
      requires good ==> OnTrack(f, start, quiet0, first0, guess0) && RightGuesses(f, start)
      modifies this, inEdges, outEdges, base
      ensures Valid() && (reused || Sound()) && hasNonzero == old(hasNonzero) && (ok ==> Steady())
      ensures ok ==> Unflagged(nodes) < old(Unflagged(nodes)) ||
                     (Unflagged(nodes) == old(Unflagged(nodes)) &&
                      Lower(numFailures, Uncounted(edges), |inNodes| + |outNodes|,
                            old(numFailures), old(Uncounted(edges)), old(|inNodes| + |outNodes|)))
      ensures (BetweenTurns() && (Quiet(Now()) ==> !first)) || !ok
      ensures OnTrack(f, start, quiet, first, guess) || !ok || !good
      ensures Concluded(f, start, quiet, false) || ok || !good
      ensures RightGuesses(f, start) || !good
      ensures good && Full(start.ns, f) ==> ok || Exhausted()
    {
      quiet, first, guess := quiet0, first0, guess0;
      ok := PassesOnTrack(f, good, start, quiet, first, guess);
      if ok && inNodes == [] && outNodes == [] {
        ok, quiet, guess := AtQuiet(f, good, start, quiet, first, guess);
        first := false;
      }
    }

    /** The two passes, as part of a run. */
    method PassesOnTrack(ghost f: Flow, ghost good: bool, ghost start: Snapshot, ghost quiet: Snapshot,
                         ghost first: bool, ghost guess: nat)
      returns (ok: bool)
      requires Valid() && (!reused ==> Sound()) && (inNodes != [] || outNodes != [])
      requires Steady() && (guessNode.Some? ==> tracking)
      requires good ==> OnTrack(f, start, quiet, first, guess) && RightGuesses(f, start)
      modifies this`nodes, this`edges, this`inNodes, this`outNodes, this`gCountNodes, this`gCountEdges,
               this`numFailures, this`failNode, this`failEdge, this`reused, this`repaired, inEdges, outEdges
      ensures Valid() && (reused || Sound()) && (ok ==> Steady())
      ensures Unflagged(nodes) == old(Unflagged(nodes))
      ensures ok ==> Lower(numFailures, Uncounted(edges), |inNodes| + |outNodes|,
                           old(numFailures), old(Uncounted(edges)), old(|inNodes| + |outNodes|))
      ensures OnTrack(f, start, quiet, first, guess) || !good
      ensures Concluded(f, start, quiet, false) || ok || !good
      ensures (RightGuesses(f, start) && StandsRight(f, start, Now(), reused)) || !good
      ensures Stands(f, start, Now(), quiet, first, guess, hasNonzero, reused, base.es) || !Quiet(Now()) || !good
      ensures good && Full(start.ns, f) ==> ok
    {
      ghost var s := Now();
      ok := BothPasses(f);
      if good {
        RightStays(f, start, s);
        StaysOnTrack(f, start, quiet, first, guess, s, ok);
      }
    }

    lemma RightStays(f: Flow, start: Snapshot, s: Snapshot)
      requires Full(start.ns, f) ==>
                 && Good(f, {}, {}) && Full(s.ns, f) && Extends(start.ns, start.es, s.ns, s.es)
                 && Derived(s, Now()) && (tracking ==> numFailures == 0)
      ensures RightGuesses(f, start) && StandsRight(f, start, Now(), reused)
    {
      if Full(start.ns, f) {
        FullOn(s.ns, s.es, nodes, edges, f);
        ExtendsOn(start, s, Now());
      }
    }

    /** Keeps track over the two passes. */
    lemma StaysOnTrack(f: Flow, start: Snapshot, quiet: Snapshot, first: bool, guess: nat, s: Snapshot, ok: bool)
      requires Valid() && (!reused ==> Sound()) && !Quiet(s)
      requires SameFlags(s.ns, nodes)
      requires if first then Derived(start, s) && SameFlags(start.ns, s.ns) && base.es == []
               else QuietFrom(f, start, quiet) && base.es == quiet.es && !NoPartial(quiet.ns)
                    && Unfinished(quiet, hasNonzero, guess) && PastGuess(quiet, s.ns, Guess(), guess)
      requires first ==> ok && Good(f, {}, {}) && Derived(s, Now())
      ensures OnTrack(f, start, quiet, first, guess)
      ensures !ok ==> Concluded(f, start, quiet, ok)
      ensures Quiet(Now()) ==> Stands(f, start, Now(), quiet, first, guess, hasNonzero, reused, base.es)
    {
      if first {
        DerivedOn(start, s, Now());
      } else {
        PastSame(quiet, s.ns, nodes, Guess(), guess);
        NotBlocked(f, quiet, guess);
      }
    }

    /** The queues have drained. */
    method AtQuiet(ghost f: Flow, ghost good: bool, ghost start: Snapshot, ghost quiet0: Snapshot, ghost first: bool,
                   ghost guess0: nat)
      returns (ok: bool, ghost quiet: Snapshot, ghost guess: nat)
      requires Valid() && (!reused ==> Sound()) && Steady() && inNodes == [] && outNodes == []
      requires good ==> Stands(f, start, Now(), quiet0, first, guess0, hasNonzero, reused, base.es)
      requires good ==> StandsRight(f, start, Now(), reused)
      modifies this, base
      ensures Valid() && (reused || Sound()) && hasNonzero == old(hasNonzero) && Steady()
      ensures ok ==> Unflagged(nodes) < old(Unflagged(nodes)) ||
                     (nodes == old(nodes) && edges == old(edges) && numFailures == old(numFailures))
      ensures BetweenTurns() || !ok
      ensures inNodes != [] || outNodes != [] ==> Unflagged(nodes) < old(Unflagged(nodes))
      ensures OnTrack(f, start, quiet, false, guess) || !ok || !good
      ensures Concluded(f, start, quiet, false) || ok || !good
      ensures RightGuesses(f, start) || !good
      ensures good && Full(start.ns, f) ==> ok || Exhausted()
    {
      quiet, guess := quiet0, guess0;
      ghost var s := Now();
      var guessing;
      ok, guessing := NextGuess(good && first);
      if good {
        quiet, guess := Track(f, start, s, quiet0, first, guess0, ok, guessing, old(base.es));
        QuietIsRight(f, start, s, guessing);
      }
    }

    /** The end, a failure or the next guess; the edges counted by then are kept apart at the first one. */
    method NextGuess(ghost first: bool) returns (ok: bool, guess: bool)
      requires Valid() && (!reused ==> Sound()) && Steady() && inNodes == [] && outNodes == []
      modifies this`nodes, this`gCountNodes, this`gCountEdges, this`inNodes, this`outNodes, this`guessNode,
               this`numFailures, this`failNode, this`failEdge, this`tracking, this`atGuess, this`guessed, base
      ensures Valid() && (Sound() || !old(Sound())) && Steady()
      ensures guess ==> numFailures == 0 && Unflagged(nodes) < old(Unflagged(nodes))
      ensures !guess ==> numFailures == old(numFailures)
      ensures Quiesced(old(Now()), ok, guess) || !old(Quiet(Now()))
      ensures BetweenTurns() || !ok
      ensures guess ==> AllQueued(Now(), guessNode.value) || old(reused || !Settled(Now(), {}, {}))
      ensures base.es == if first && guess then edges else old(base.es)
    {
      ghost var s := Now();
      ok, guess := Quiesce();
      AfterQuiet(s, ok, guess);
      if first && guess {
        KeepApart();
      }
    }

    ghost method KeepApart()
      requires Valid() && gCountEdges == []
      modifies base
      ensures Valid() && (Sound() || !old(Sound())) && base.es == edges
    {
      base.es := edges;
    }

    lemma AfterQuiet(s: Snapshot, ok: bool, guessing: bool)
      requires Valid() && (!reused ==> Sound()) && Quiet(s) && Quiesced(s, ok, guessing)
      requires repaired || if guessing then AllQueued(Now(), guessNode.value) else Settled(s, {}, {})
      ensures Steady() && (BetweenTurns() || !ok)
    {
    }

    /** Where the run stands after that. */
    lemma Track(f: Flow, start: Snapshot, s: Snapshot, quiet0: Snapshot, first: bool, guess0: nat, ok: bool,
                guessing: bool, base0: seq<Edge>)
      returns (quiet: Snapshot, guess: nat)
      requires Valid() && (!reused ==> Sound()) && Quiet(s) && Quiesced(s, ok, guessing)
      requires Stands(f, start, s, quiet0, first, guess0, hasNonzero, reused, base0)
      requires base.es == if first && guessing then edges else base0
      ensures OnTrack(f, start, quiet, false, guess) || !ok
      ensures Concluded(f, start, quiet, false) || ok
    {
      quiet, guess := if first then s else quiet0, guess0;
      if first && guessing {
        guess := guessNode.value;
        FirstGuess(quiet, guess);
      } else if !first {
        LaterGuess(f, quiet, s, guess, guessing);
      }
    }

    lemma QuietIsRight(f: Flow, start: Snapshot, s: Snapshot, guessing: bool)
      requires Valid() && (!reused ==> Sound()) && (tracking ==> numFailures == 0)
      requires if guessing then guessNode.Some? && Flagged(s, Now(), guessNode.value) && s.ns[guessNode.value].partial
               else Now() == s
      requires StandsRight(f, start, s, reused) && (Full(start.ns, f) ==> Settled(Now(), {}, {}))
      ensures RightGuesses(f, start)
    {
      if guessing && Full(start.ns, f) {
        GuessAgrees(s, Now(), f, guessNode.value);
        ExtendsOn(start, s, Now());
      }
    }

    lemma FirstGuess(quiet: Snapshot, guess: nat)
      requires Valid() && Sound() && !reused && tracking && guessNode == Some(guess) && WellFormed(quiet.ns, quiet.es)
      requires Flagged(quiet, Now(), guess) && FirstPartial(quiet.ns, guess) && (Quiet(Now()) <==> Stuck())
      ensures GuessedAt(quiet, guess)
    {
    }

    lemma LaterGuess(f: Flow, quiet: Snapshot, s: Snapshot, guess: nat, guessing: bool)
      requires Valid() && WellFormed(quiet.ns, quiet.es) && Calm(quiet, f, {}, {}) && Quiet(quiet)
      requires Unfinished(quiet, hasNonzero, guess)
      requires exists g :: PastGuess(quiet, s.ns, g, guess)
      requires if guessing then tracking && guessNode.Some? && Flagged(s, Now(), guessNode.value) &&
                                !s.ns[guessNode.value].HasCount()
               else nodes == s.ns && !tracking
      ensures GuessedAt(quiet, guess) && !Blocked(quiet.ns, quiet.es, guess)
    {
      var g :| PastGuess(quiet, s.ns, g, guess);
      NotBlocked(f, quiet, guess);
    }

    /** Propagates until both queues stay empty, guessing where nothing can be deduced. `quiet` is the state the first
        time they are empty: everything up to then was forced. */
    method Propagate(ghost f: Flow) returns (ok: bool, ghost quiet: Snapshot)
      requires Valid() && (!reused ==> Sound()) && Steady() && guessNode == None && !tracking && base.es == []
      modifies this, inEdges, outEdges, base
      ensures Valid() && (reused || Sound()) && hasNonzero == old(hasNonzero) && (ok ==> Steady())
      ensures ok ==> inNodes == [] && outNodes == []
      ensures old(Quiet(Now())) ==> ok && quiet == Now() == old(Now()) && reused == old(reused) && !tracking
      ensures Ended() || !ok || old(Quiet(Now()))
      ensures old(Good(f, {}, {}) && !Quiet(Now())) ==> Concluded(f, old(Now()), quiet, ok)
      ensures old(Good(f, {}, {})) ==> RightGuesses(f, old(Now())) && (Full(old(nodes), f) ==> ok || Exhausted())
    {
      ghost var good, start := Good(f, {}, {}), Now();
      ghost var first, ran, guess: nat := true, false, 0;
      quiet := Now();
      if good {
        DerivedSelf(start);
      }
      while inNodes != [] || outNodes != []
        invariant Valid() && (reused || Sound()) && Steady() && hasNonzero == old(hasNonzero)
        invariant if ran then !Quiet(start)
                  else first && Now() == quiet == start && reused == old(reused) && guessNode == None && !tracking
        invariant if ran then BetweenTurns() && (Quiet(Now()) ==> !first) else guessNode.Some? ==> tracking
        invariant good ==> OnTrack(f, start, quiet, first, guess) && RightGuesses(f, start)
        decreases Unflagged(nodes), 100 - numFailures, Uncounted(edges), |inNodes| + |outNodes|
      {
        ran := true;
        ok, quiet, first, guess := Turn(f, good, start, quiet, first, guess);
        if !ok {
          return;
        }
      }
      ok := true;
      if good && ran {
        HasConcluded(f, start, quiet, guess);
      }
    }

    lemma HasConcluded(f: Flow, start: Snapshot, quiet: Snapshot, guess: nat)
      requires Valid() && (!reused ==> Sound()) && OnTrack(f, start, quiet, false, guess) && Quiet(Now()) && Ended()
      ensures Concluded(f, start, quiet, true)
    {
      if !AllCountedIn(quiet.ns, quiet.es, hasNonzero) {
        SettledComplete(quiet);
        assert CompleteAt(quiet.ns, quiet.es, guess);
        BlockedOrNot(quiet.ns, quiet.es, guess);
        if !reused && StoppedAt(quiet, guess) {
          StoppedDead(quiet, guess);
        }
        assert FirstPartial(quiet.ns, guess);
      }
    }

    /** Only a guess that could not be followed up leaves things as they were. */
    lemma StoppedDead(quiet: Snapshot, guess: nat)
      requires Valid() && Sound() && WellFormed(quiet.ns, quiet.es) && Ended()
      requires GuessedAt(quiet, guess) && StoppedAt(quiet, guess)
      ensures DeadEnd(quiet, guess)
    {
      if tracking {
        assert DeadEnd(Now(), guessNode.value);
      } else {
        CountedBound(edges, nodes[guess].incoming);
        CountedBound(edges, nodes[guess].outgoing);
      }
    }

    /** The run goes on after a guess, or has ended with everything counted. */
    ghost predicate Going(quiet: Snapshot, guess: nat)
      requires WellFormed(quiet.ns, quiet.es)
      reads this, base
    {
      if AllCountedIn(quiet.ns, quiet.es, hasNonzero) then Now() == quiet && !reused
      else !NoPartial(quiet.ns) && GuessedAt(quiet, guess) && base.es == quiet.es
    }

    /** Takes the measured counts and derives the others. Unless edges had to be added, nothing more can be deduced
        in the end; and then either everything has a count, or the run has stopped at a guess, at a blocked node. If
        the counts come from a flow f, then the run derives all that is forced before it guesses: `quiet`, the state
        in which nothing more can be deduced, extends the input and agrees with every flow that fits it, and is
        complete. `EndsFrom` says how the run ends from there. If the partial counts are the flow's too, so are all
        counts. */
    method ComputeBBAndEdgeCounts(ghost f: Flow) returns (ok: bool, ghost quiet: Snapshot)
      requires Valid() && !repaired && !tracking && guessNode == None
      requires inNodes == [] && outNodes == [] && gCountEdges == []
      requires forall v | 0 <= v < |nodes| :: inEdges[v] == 0 && outEdges[v] == 0
      requires base.es == []
      modifies this, inEdges, outEdges, base
      ensures Valid() && (reused || Sound())
      ensures ok ==> inNodes == [] && outNodes == []
      ensures InitFails(old(Now()), entry, 0) ==> !ok
      ensures !InitFails(old(Now()), entry, 0) && Quiet(InitFrom(old(Now()), entry, 0)) ==>
                ok && Now() == InitFrom(old(Now()), entry, 0) && !reused && !tracking
      ensures Final() || !ok
      ensures ok && !tracking && !Quiet(InitFrom(old(Now()), entry, 0)) ==> AllCounted()
      ensures ok ==> hasNonzero == (old(hasNonzero) || RunAtStart(old(Now()), entry))
      ensures old(Fits(nodes, edges, f)) ==> !InitFails(old(Now()), entry, 0)
      ensures Explained(f, old(nodes), old(edges), InitFrom(old(Now()), entry, 0), quiet, ok) ||
              !old(Fits(nodes, edges, f))
    {
      ghost var good, s0 := Fits(nodes, edges, f), Now();
      quiet := Now();
      ok := Initialize(f);
      if !ok {
        return;
      }
      ghost var s1 := Now();
      ok, quiet := Propagate(f);
      if ok {
        EndsComplete();
      }
      if good {
        RunExplained(f, s0, s1, quiet, ok);
      }
    }

    /** What holds at the end of every run, if a guess is being followed up or not: unless edges have been added,
        nothing more can be deduced, and the guess node is blocked, and then the edges at its free sides are left
        over. */
    ghost predicate Final()
      requires Valid()
      reads this, inEdges, outEdges
    {
      && (tracking ==> Stuck())
      && (!repaired ==> Complete(nodes, edges))
      && (tracking && !repaired ==> Blocked(nodes, edges, guessNode.value))
      && (tracking && !repaired && FreeSide(nodes[guessNode.value]) ==> !AllCounted())
    }

    lemma EndsComplete()
      requires Valid() && Steady() && Quiet(Now()) && (tracking ==> Ended())
      ensures Final()
    {
      if !repaired {
        SettledComplete(Now());
        if tracking && FreeSide(nodes[guessNode.value]) {
          BlockedIsOpen(nodes, edges, guessNode.value);
        }
      }
    }

    /** What a run does with the counts ns and es that the flow f fits, and s1 after the initial pass: how it gets to
        `quiet` and ends from there, and that all counts are the flow's if the partial ones are. */
    ghost predicate Explained(f: Flow, ns: seq<Node>, es: seq<Edge>, s1: Snapshot, quiet: Snapshot, ok: bool)
      requires WellFormed(ns, es)
      reads this
    {
      && QuietOf(ns, es, quiet)
      && (if Quiet(s1) then Now() == quiet && edges == es else EndsFrom(quiet, ok))
      && (!reused ==> Frozen(quiet.es, edges, []))
      && (Full(ns, f) ==> && Extends(ns, es, nodes, edges) && WellFormed(nodes, edges) && Agrees(nodes, edges, f)
                          && (ok || Exhausted()))
    }

    lemma RunExplained(f: Flow, s0: Snapshot, s1: Snapshot, quiet: Snapshot, ok: bool)
      requires WellFormed(s0.ns, s0.es) && Fits(s0.ns, s0.es, f) && InitDerived(s0.ns, s0.es, s1)
      requires RightGuesses(f, s1) && (Full(s1.ns, f) ==> ok || Exhausted())
      requires if Quiet(s1) then Now() == quiet == s1 && !reused else Concluded(f, s1, quiet, ok)
      ensures Explained(f, s0.ns, s0.es, s1, quiet, ok)
    {
      if Quiet(s1) {
        DerivedSelf(s1);
      }
      QuietComplete(quiet, f);
      InputDerived(s0, s1, quiet);
      if Full(s0.ns, f) {
        FullOn(s0.ns, s0.es, s1.ns, s1.es, f);
        ExtendsOn(s0, s1, Now());
      }
    }
  }

  /** The first guess, in `quiet`, was at v, and g, the one being followed up, is at that node or at one that was not a
      counter node then. */
  ghost predicate PastGuess(quiet: Snapshot, ns: seq<Node>, g: Option<nat>, v: nat) {
    && FirstPartial(quiet.ns, v) && |ns| == |quiet.ns| && ns[v].measured
    && (forall u | 0 <= u < |ns| :: quiet.ns[u].measured ==> ns[u].measured)
    && (g.Some? && g.value < |ns| ==> g.value == v || !quiet.ns[g.value].measured)
  }

  /** Where a run for which the flow f fits stands when both queues are empty, in s. */
  ghost predicate Stands(f: Flow, start: Snapshot, s: Snapshot, quiet: Snapshot, first: bool, guess: nat, nonzero: bool,
                         reused: bool, base: seq<Edge>) {
    if first then QuietFrom(f, start, s) && !reused && base == []
    else QuietFrom(f, start, quiet) && base == quiet.es && Unfinished(quiet, nonzero, guess) && !NoPartial(quiet.ns) &&
         exists g :: PastGuess(quiet, s.ns, g, guess)
  }

  ghost predicate StandsRight(f: Flow, start: Snapshot, s: Snapshot, reused: bool) {
    Full(start.ns, f) ==> !reused && Calm(s, f, {}, {}) && Full(s.ns, f) && Extends(start.ns, start.es, s.ns, s.es)
  }

  lemma PastSame(quiet: Snapshot, ns: seq<Node>, ns': seq<Node>, g: Option<nat>, v: nat)
    requires PastGuess(quiet, ns, g, v) && SameFlags(ns, ns')
    ensures PastGuess(quiet, ns', g, v)
  {
  }

  lemma NotBlocked(f: Flow, quiet: Snapshot, v: nat)
    requires Calm(quiet, f, {}, {}) && Quiet(quiet) && v < |quiet.ns| && !quiet.ns[v].HasCount() && !DeadEnd(quiet, v)
    ensures !Blocked(quiet.ns, quiet.es, v)
  {
    SettledComplete(quiet);
    assert CompleteAt(quiet.ns, quiet.es, v);
    BlockedOrNot(quiet.ns, quiet.es, v);
  }

  /** A count given to an edge that was there. */
  lemma ReturnReused(s: Snapshot, inE: seq<int>, outE: seq<int>, v: nat, exit: nat, e: nat, c: int)
    requires WellFormed(s.ns, s.es) && v < |s.ns| && exit < |s.ns| && e in s.ns[v].outgoing && |inE| == |outE| == |s.ns|
    requires e < |s.es| && s.es[e].sink == exit && s.es[e].kind == Return && Joined(s.ns, s.es, v, exit, Return)
    ensures ReturnRepaired(s, s.es[e := s.es[e].Computed(c)], exit, v, c)
    ensures s.es[e].source == v && WellFormed(s.ns, s.es[e := s.es[e].Computed(c)])
    ensures Uncounted(s.es[e := s.es[e].Computed(c)]) <= Uncounted(s.es)
    ensures Counted(s.es, s.ns[v].outgoing) == |s.ns[v].outgoing| ==>
              SumCounted(s.es[e := s.es[e].Computed(c)], s.ns[v].outgoing) ==
              SumCounted(s.es, s.ns[v].outgoing) - s.es[e].counter + c
    ensures Counted(s.es, s.ns[v].outgoing) == |s.ns[v].outgoing| && Exact(s.ns, s.es, inE, outE) ==>
              !Exact(s.ns, s.es[e := s.es[e].Computed(c)], inE[exit := inE[exit] + 1], outE[v := outE[v] + 1])
  {
    assert ReturnEdge(s, v, exit, e);
    KeepShape(s.ns, s.es, s.ns, s.es[e := s.es[e].Computed(c)]);
    UncountedMark(s.es, e, c);
    CountedBound(s.es, s.ns[v].outgoing);
    if s.es[e].HasCount() {
      StaleCounted(s.ns, s.es, inE, outE, e, c);
    }
  }

  /** A fresh edge with its count. */
  lemma ReturnAdded(s: Snapshot, v: nat, exit: nat, c: int)
    requires WellFormed(s.ns, s.es) && v < |s.ns| && exit < |s.ns| && !Joined(s.ns, s.es, v, exit, Return)
    ensures var n := Edge(v, exit, Return, 0, false, false, false);
            var ns', es' := Linked(s.ns, |s.es|, v, exit), (s.es + [n])[|s.es| := n.Computed(c)];
            && ReturnRepaired(s, es', exit, v, c) && WellFormed(ns', es')
            && Uncounted(es') == Uncounted(s.es) && SameFlags(s.ns, ns')
            && SumCounted(es', ns'[v].outgoing) == SumCounted(s.es, s.ns[v].outgoing) + c
  {
    FreshCounted(s.ns, s.es, Edge(v, exit, Return, 0, false, false, false), c);
  }

  lemma OutSteppedBy(s: Snapshot, t: Snapshot, v: nat, e: nat, i: nat, i': nat)
    requires WellFormed(s.ns, s.es) && v < |s.ns| && e in s.ns[v].outgoing && !s.es[e].HasCount()
    requires Counted(s.es, s.ns[v].outgoing) != |s.ns[v].outgoing|
    requires HeldBack(s, v, s.es[e].sink) ==> DroppedOut(s, t, v, i)
    requires !HeldBack(s, v, s.es[e].sink) ==>
               DroppedOut(SinkFollowed(Deduced(s, v, s.ns[v].outgoing, e), s.es[e].sink), t, v, i')
    ensures OutStepped(s, t, v, i, i')
  {
  }

  lemma CallEnds(s: Snapshot, ns: seq<Node>, es: seq<Edge>, exit: nat, src: nat, c: int, ok: bool, reused: bool)
    requires WellFormed(s.ns, s.es) && src < |s.ns| && c == OutRest(s, src) && c > 0
    requires ReturnRepaired(s, es, exit, src, c) || c < 0
    requires ExitRepaired(s, ns, es, exit, src, c, ok) || c < 0
    requires reused <==> Joined(s.ns, s.es, src, exit, Return)
    ensures CallOutcome(s, ns, es, exit, src, ok, reused) || c < 0
  {
  }

  /** What the update of the exit comes to behind the return edge of a call whose outgoing edges were all counted. */
  lemma ReturnExits(s: Snapshot, was: int, ns: seq<Node>, es: seq<Edge>, ns': seq<Node>, exit: nat, v: nat, c: int,
                    now: int, ok: bool)
    requires WellFormed(s.ns, s.es) && v < |s.ns| && exit < |s.ns| && WellFormed(ns, es) && |ns| == |s.ns|
    requires Counted(s.es, s.ns[v].outgoing) == |s.ns[v].outgoing| && ReturnRepaired(s, es, exit, v, c)
    requires was == Counted(s.es, s.ns[exit].incoming) && now == was + 1
    requires ns == if Joined(s.ns, s.es, v, exit, Return) then s.ns else Linked(s.ns, |s.es|, v, exit)
    requires ns' == ExitUpdated(ns, es, exit, c, |ns[exit].incoming| == now)
    requires ok <==> ns[exit].HasCount() || |ns[exit].incoming| != now
                     || Counted(es, ns[exit].incoming) == |ns[exit].incoming|
    ensures ExitRepaired(s, ns', es, exit, v, c, ok) || now != was + 1
  {
    if Joined(s.ns, s.es, v, exit, Return) {
      var e: nat :| ReturnEdge(s, v, exit, e) && es == s.es[e := s.es[e].Computed(c)];
      CountedBound(s.es, s.ns[v].outgoing);
      CountedBound(s.es, s.ns[exit].incoming);
      Recounted(s.es, s.ns[exit].incoming, e, c);
    } else {
      var n := Edge(v, exit, Return, 0, false, false, false);
      assert es == (s.es + [n])[|s.es| := n.Computed(c)];
      FreshAll(s, n, c);
      ExitGainsFresh(s, exit, v, c, |ns[exit].incoming| == now);
    }
  }

  lemma InsertedAt(q: seq<Entry>, u: nat, e: Entry, i: nat)
    requires u <= |q| && i < |q|
    ensures |Inserted(q, u, e)| == |q| + 1 && Inserted(q, u, e)[if u <= i then i + 1 else i] == q[i]
  {
  }

  /** The nodes the initial pass has not treated yet. */
  ghost function From(v: nat, n: nat): (r: set<nat>)
    ensures forall w :: w in r <==> v <= w < n
    decreases n - v
  {
    if v >= n then {} else {v} + From(v + 1, n)
  }

  /** The initial pass has left nothing to deduce that is not queued below v. */
  ghost predicate Untreated(s: Snapshot, v: nat) {
    Settled(s, From(v, |s.ns|), From(v, |s.ns|))
  }

  lemma TreatNext(s: Snapshot, v: nat)
    requires Untreated(s, v) && v < |s.ns|
    ensures Untreated(NodeInit(s, v), v + 1)
  {
    NodeInitSettled(s, From(v, |s.ns|), v);
    assert From(v, |s.ns|) - {v} == From(v + 1, |s.ns|);
  }

  /** Nothing is left without a count, except an exit when nothing was counted at all. */
  ghost predicate AllCountedIn(ns: seq<Node>, es: seq<Edge>, nonzero: bool) {
    && (forall e | 0 <= e < |es| :: es[e].HasCount())
    && (forall v | 0 <= v < |ns| :: ns[v].HasCount() || (ns[v].cfgExit && !nonzero))
  }

  /** A first guess is due, at v, and will propagate. */
  ghost predicate Unfinished(quiet: Snapshot, nonzero: bool, v: nat) {
    && !AllCountedIn(quiet.ns, quiet.es, nonzero) && WellFormed(quiet.ns, quiet.es)
    && FirstPartial(quiet.ns, v) && !DeadEnd(quiet, v)
  }

  /** Where nothing more can be deduced, and all since the start has been. */
  ghost predicate QuietFrom(f: Flow, start: Snapshot, quiet: Snapshot) {
    Calm(quiet, f, {}, {}) && Quiet(quiet) && Derived(start, quiet) && SameFlags(start.ns, quiet.ns)
  }

  lemma DerivedSelf(s: Snapshot)
    ensures Derived(s, s)
  {
  }

  ghost predicate NoPartial(ns: seq<Node>) {
    forall v | 0 <= v < |ns| :: ns[v].partial ==> ns[v].HasCount()
  }

  /** A node without a side on which exactly one edge is missing. */
  ghost predicate DeadEnd(s: Snapshot, v: nat)
    requires WellFormed(s.ns, s.es) && v < |s.ns|
  {
    && Counted(s.es, s.ns[v].incoming) + 1 != |s.ns[v].incoming|
    && Counted(s.es, s.ns[v].outgoing) + 1 != |s.ns[v].outgoing|
  }

  /** What a run makes of an input that some flow fits before it has to guess: nothing more can be deduced, all that has
      been is forced, and, without calls, it is the least to be counted wherever nothing more can be deduced. */
  ghost predicate QuietOf(ns: seq<Node>, es: seq<Edge>, quiet: Snapshot)
    requires WellFormed(ns, es)
  {
    && WellFormed(quiet.ns, quiet.es) && Extends(ns, es, quiet.ns, quiet.es) && Complete(quiet.ns, quiet.es)
    && (forall g | Fits(ns, es, g) :: Agrees(quiet.ns, quiet.es, g))
    && Unguessed(ns, quiet.ns) && Least(Input(ns, es), quiet)
  }

  lemma InputDerived(s0: Snapshot, s1: Snapshot, quiet: Snapshot)
    requires WellFormed(s0.ns, s0.es) && InitDerived(s0.ns, s0.es, s1) && Derived(s1, quiet)
    requires SameFlags(s1.ns, quiet.ns) && WellFormed(quiet.ns, quiet.es) && Complete(quiet.ns, quiet.es)
    ensures QuietOf(s0.ns, s0.es, quiet)
  {
    ExtendsOn(s0, s1, quiet);
  }

  /** The lowest-numbered node with a partial count and nothing better. */
  ghost predicate FirstPartial(ns: seq<Node>, v: nat) {
    && v < |ns| && ns[v].partial && !ns[v].HasCount()
    && forall u | 0 <= u < v :: ns[u].partial ==> ns[u].HasCount()
  }

  /** The initial pass is at s before node v, and `ran` says whether it has met anything executed. */
  ghost predicate InitRest(s0: Snapshot, ran0: bool, s: Snapshot, ran: bool, entry: nat, v: nat) {
    && WellFormed(s0.ns, s0.es) && WellFormed(s.ns, s.es) && entry < |s0.ns| && entry < |s.ns|
    && (InitFails(s0, entry, 0) <==> InitFails(s, entry, v)) && InitFrom(s0, entry, 0) == InitFrom(s, entry, v)
    && (ran0 || InitRuns(s0, entry, 0)) == (ran || InitRuns(s, entry, v))
  }

  lemma InitRestNext(s0: Snapshot, ran0: bool, s: Snapshot, ran: bool, entry: nat, v: nat)
    requires InitRest(s0, ran0, s, ran, entry, v) && v < |s.ns|
    ensures InitAborts(s, v) ==> InitFails(s0, entry, 0)
    ensures !InitAborts(s, v) ==>
              InitRest(s0, ran0, InitStep(s, entry, v), ran || RunNode(Upgraded(s.ns[v])), entry, v + 1)
  {
  }

  lemma InitRestEnd(s0: Snapshot, ran0: bool, s: Snapshot, ran: bool, entry: nat)
    requires InitRest(s0, ran0, s, ran, entry, |s.ns|)
    ensures !InitFails(s0, entry, 0) && s == InitFrom(s0, entry, 0) && ran == (ran0 || InitRuns(s0, entry, 0))
  {
  }

  lemma InitGoodStart(s: Snapshot, f: Flow)
    requires WellFormed(s.ns, s.es) && Fits(s.ns, s.es, f) && Quiet(s)
    ensures InitGood(s, s, f, 0)
  {
    forall g | Fits(s.ns, s.es, g) ensures CalmFrom(s, g, 0) {
      assert forall v: nat | v < |s.ns| :: v in From(0, |s.ns|);
    }
  }

  /** The initial pass has treated the nodes below v: their partial counts are upgraded and the others untouched, and
      any flow that fits the input fits so far. */
  ghost predicate InitGood(s0: Snapshot, s: Snapshot, f: Flow, v: nat)
    requires WellFormed(s0.ns, s0.es)
  {
    && Fits(s0.ns, s0.es, f) && s.es == s0.es && |s.ns| == |s0.ns|
    && Extends(s0.ns, s0.es, s.ns, s.es)
    && (forall u | 0 <= u < |s.ns| && u < v :: s.ns[u].measured == Upgraded(s0.ns[u]).measured)
    && (forall u | v <= u < |s.ns| :: s.ns[u] == s0.ns[u])
    && (forall g | Fits(s0.ns, s0.es, g) :: CalmFrom(s, g, v))
    && Least(Input(s0.ns, s0.es), s)
  }

  ghost predicate CalmFrom(s: Snapshot, g: Flow, v: nat) {
    Calm(s, g, From(v, |s.ns|), From(v, |s.ns|)) && EntryExact(s.ns, g)
  }

  lemma InitGoodStep(s0: Snapshot, s: Snapshot, f: Flow, entry: nat, v: nat)
    requires WellFormed(s0.ns, s0.es) && InitGood(s0, s, f, v) && v < |s.ns| && entry < |s.ns|
    ensures WellFormed(s.ns, s.es) && !InitAborts(s, v) && InitGood(s0, InitStep(s, entry, v), f, v + 1)
  {
    assert CalmFrom(s, f, v);
    NodeInitCalm(s, f, From(v, |s.ns|), v);
    InitIsLocal(s, v);
    NodeInitExtends(s, v);
    ExtendsOn(s0, s, NodeInit(s, v));
    forall g | Fits(s0.ns, s0.es, g) ensures CalmFrom(NodeInit(s, v), g, v + 1) {
      assert CalmFrom(s, g, v);
      assert From(v, |s.ns|) - {v} == From(v + 1, |s.ns|);
      NodeInitCalm(s, g, From(v, |s.ns|), v);
    }
    InitLeast(s0, s, v);
  }

  /** The initial pass at a node adds no count that could be done without. */
  lemma InitLeast(s0: Snapshot, s: Snapshot, v: nat)
    requires WellFormed(s.ns, s.es) && v < |s.ns| == |s0.ns| && s.ns[v] == s0.ns[v] && Least(Input(s0.ns, s0.es), s)
    ensures Least(Input(s0.ns, s0.es), NodeInit(s, v))
  {
    forall q | Bounds(q, Input(s0.ns, s0.es)) ensures Bounds(q, NodeInit(s, v)) {
      NodeInitBounds(s, v, q);
    }
  }

  /** What the initial pass makes of an input that some flow fits. */
  ghost predicate InitDerived(ns: seq<Node>, es: seq<Edge>, s: Snapshot)
    requires WellFormed(ns, es)
  {
    && s.es == es && Extends(ns, es, s.ns, s.es) && Unguessed(ns, s.ns)
    && (forall g | Fits(ns, es, g) :: Calm(s, g, {}, {}))
    && Least(Input(ns, es), s)
  }

  lemma InitGoodEnd(s0: Snapshot, s: Snapshot, f: Flow)
    requires WellFormed(s0.ns, s0.es) && InitGood(s0, s, f, |s.ns|)
    ensures InitDerived(s0.ns, s0.es, s)
  {
    assert From(|s.ns|, |s.ns|) == {};
    forall g | Fits(s0.ns, s0.es, g) ensures Calm(s, g, {}, {}) {
      assert CalmFrom(s, g, |s.ns|);
    }
  }

  /** The nodes from v on give the initial pass no trouble either. */
  lemma {:induction false} InitGoodRest(s0: Snapshot, s: Snapshot, f: Flow, entry: nat, v: nat)
    requires WellFormed(s0.ns, s0.es) && InitGood(s0, s, f, v) && v <= |s.ns| && entry < |s.ns|
    ensures WellFormed(s.ns, s.es) && !InitFails(s, entry, v) && InitDerived(s0.ns, s0.es, InitFrom(s, entry, v))
    decreases |s.ns| - v
  {
    assert CalmFrom(s, f, v);
    if v < |s.ns| {
      InitGoodStep(s0, s, f, entry, v);
      InitGoodRest(s0, InitStep(s, entry, v), f, entry, v + 1);
    } else {
      InitGoodEnd(s0, s, f);
    }
  }

  /** No node has become a counter node, but for the upgrades of the initial pass. */
  ghost predicate Unguessed(ns0: seq<Node>, ns: seq<Node>) {
    && |ns| == |ns0|
    && forall v | 0 <= v < |ns| :: ns[v].measured == Upgraded(ns0[v]).measured
  }

  /** Two runs that take the nodes of an input without calls in different orders count the same in their first quiet
      states: by this, whatever each of them does up to there. */
  lemma OrderIsFree(ns: seq<Node>, es: seq<Edge>, f: Flow, q: Snapshot, r: Snapshot)
    requires WellFormed(ns, es) && CallFree(ns) && Fits(ns, es, f) && QuietOf(ns, es, q) && QuietOf(ns, es, r)
    ensures |r.ns| == |q.ns| && |r.es| == |q.es|
    ensures forall v | 0 <= v < |q.ns| ::
              && (q.ns[v].HasCount() <==> r.ns[v].HasCount())
              && (q.ns[v].HasCount() ==> q.ns[v].counter == r.ns[v].counter)
    ensures forall e | 0 <= e < |q.es| ::
              && (q.es[e].HasCount() <==> r.es[e].HasCount())
              && (q.es[e].HasCount() ==> q.es[e].counter == r.es[e].counter)
  {
    InputBounds(ns, es, q);
    InputBounds(ns, es, r);
    assert Bounds(q, r) && Bounds(r, q);
  }

  lemma InputBounds(ns: seq<Node>, es: seq<Edge>, q: Snapshot)
    requires CallFree(ns) && WellFormed(q.ns, q.es) && Complete(q.ns, q.es)
    requires Extends(ns, es, q.ns, q.es) && Unguessed(ns, q.ns)
    ensures Bounds(q, Input(ns, es))
  {
    assert forall v | 0 <= v < |ns| :: NodeExtends(ns[v], q.ns[v]);
    assert forall e | 0 <= e < |es| :: EdgeExtends(es[e], q.es[e]);
  }

  lemma InitIsLocal(s: Snapshot, v: nat)
    requires WellFormed(s.ns, s.es) && v < |s.ns|
    ensures |NodeInit(s, v).ns| == |s.ns| && NodeInit(s, v).ns[v].measured == Upgraded(s.ns[v]).measured
    ensures forall u | 0 <= u < |s.ns| && u != v :: NodeInit(s, v).ns[u] == s.ns[u]
  {
  }

  /** Progress without a new guess: one failure more, or fewer uncounted edges, or a shorter queue. */
  ghost predicate Lower(n: int, c: nat, q: nat, n0: int, c0: nat, q0: nat) {
    n > n0 || (n == n0 && (c < c0 || (c == c0 && q < q0)))
  }
}
