/** What a guess leaves to start again from, and where it stops. */
module CountGuess {
  import opened CountTheory
  import opened CountFlow

  ghost predicate Quiet(s: Snapshot) {
    s.inQ == [] && s.outQ == []
  }

  // ----- Taking counts back -----

  /** Once the counts on the two lists are taken back, what had a count in g has one. */
  ghost predicate TakenBack(g: Snapshot, ns: seq<Node>, es: seq<Edge>, lv: seq<nat>, le: seq<nat>) {
    && SameLists(g.ns, ns) && SameEnds(g.es, es)
    && (forall v | 0 <= v < |ns| :: KeptNode(g.ns[v], ns[v], v, lv))
    && (forall e | 0 <= e < |es| :: KeptEdge(g.es[e], es[e], e, le))
  }

  ghost predicate KeptNode(g: Node, n: Node, v: int, lv: seq<nat>) {
    g.callSite == n.callSite && (g.HasCount() <==> n.measured || (n.computed && v !in lv))
  }

  ghost predicate KeptEdge(g: Edge, d: Edge, e: int, le: seq<nat>) {
    g.HasCount() <==> d.measured || d.guessed || (d.computed && e !in le)
  }

  /** Nothing can be deduced in g but from the node v, whose count is the guess. */
  ghost predicate Restful(g: Snapshot, v: nat) {
    Quiet(g) && Settled(g, {v}, {v}) && v < |g.ns| && g.ns[v].HasCount()
  }

  /** A rollback leads back to g, from where only the guess at v can be followed up. */
  ghost predicate Resumable(g: Snapshot, v: nat, ns: seq<Node>, es: seq<Edge>, lv: seq<nat>, le: seq<nat>) {
    Restful(g, v) && TakenBack(g, ns, es, lv, le)
  }

  /** The same nodes have a count. */
  ghost predicate SameCounts(ns: seq<Node>, ns': seq<Node>) {
    |ns'| == |ns| && forall v | 0 <= v < |ns| :: ns'[v].HasCount() <==> ns[v].HasCount()
  }

  lemma TakenBackNow(g: Snapshot)
    ensures TakenBack(g, g.ns, g.es, [], [])
  {
  }

  /** Only the edges' being counted matters. */
  lemma {:induction false} CountedLike(es: seq<Edge>, es': seq<Edge>, l: seq<nat>)
    requires Within(l, |es|) && |es'| == |es| && forall e | 0 <= e < |es| :: es[e].HasCount() <==> es'[e].HasCount()
    ensures Counted(es', l) == Counted(es, l)
  {
    if l != [] {
      CountedLike(es, es', l[1..]);
    }
  }

  /** The work lists hold the node v where it has one uncounted edge, and nothing else. */
  ghost predicate Requeued(s: Snapshot, v: nat)
    requires WellFormed(s.ns, s.es) && v < |s.ns|
  {
    && s.inQ == (if Counted(s.es, s.ns[v].incoming) + 1 == |s.ns[v].incoming| then [Entry(v, 1)] else [])
    && s.outQ == (if Counted(s.es, s.ns[v].outgoing) + 1 == |s.ns[v].outgoing| then [Entry(v, 1)] else [])
  }

  /** Back where the guess was made, with the guess node queued, nothing is left to deduce that is not queued. */
  lemma RestartSettled(g: Snapshot, s: Snapshot, v: nat)
    requires Resumable(g, v, s.ns, s.es, [], [])
    requires WellFormed(s.ns, s.es) && v < |s.ns| && Requeued(s, v)
    ensures Settled(s, {}, {}) && SameCounts(g.ns, s.ns)
  {
    assert forall w | 0 <= w < |s.ns| :: KeptNode(g.ns[w], s.ns[w], w, []);
    assert forall e | 0 <= e < |s.es| :: KeptEdge(g.es[e], s.es[e], e, []);
    assert KeptNode(g.ns[v], s.ns[v], v, []);
    forall w: nat | w < |s.ns| && w != v ensures InSettled(s, w) && OutSettled(s, w) {
      CountedLike(g.es, s.es, s.ns[w].incoming);
      CountedLike(g.es, s.es, s.ns[w].outgoing);
      assert KeptNode(g.ns[w], s.ns[w], w, []);
      assert InSettled(g, w) && OutSettled(g, w);
    }
    assert |s.inQ| > 0 ==> s.inQ[0].node == v;
    assert |s.outQ| > 0 ==> s.outQ[0].node == v;
    assert InSettled(s, v) && OutSettled(s, v);
  }

  /** An edge that gets its count goes on the list. */
  lemma EdgeTakenBack(g: Snapshot, ns: seq<Node>, es: seq<Edge>, lv: seq<nat>, le: seq<nat>, e: nat, c: int)
    requires TakenBack(g, ns, es, lv, le) && e < |es| && !es[e].HasCount()
    ensures TakenBack(g, ns, es[e := es[e].Computed(c)], lv, le + [e])
  {
    forall d | 0 <= d < |es| ensures KeptEdge(g.es[d], es[e := es[e].Computed(c)][d], d, le + [e]) {
      assert KeptEdge(g.es[d], es[d], d, le);
    }
  }

  /** So does a node. */
  lemma NodeTakenBack(g: Snapshot, ns: seq<Node>, es: seq<Edge>, lv: seq<nat>, le: seq<nat>, v: nat, c: int)
    requires TakenBack(g, ns, es, lv, le) && v < |ns| && !ns[v].HasCount()
    ensures TakenBack(g, ns[v := ns[v].Computed(c)], es, lv + [v], le)
  {
    forall w | 0 <= w < |ns| ensures KeptNode(g.ns[w], ns[v := ns[v].Computed(c)][w], w, lv + [v]) {
      assert KeptNode(g.ns[w], ns[w], w, lv);
    }
  }

  /** What else a node holds does not matter. */
  ghost predicate SameCount(n: Node, n': Node) {
    && n'.measured == n.measured && n'.computed == n.computed && n'.callSite == n.callSite
    && n'.incoming == n.incoming && n'.outgoing == n.outgoing
  }

  lemma PutTakenBack(g: Snapshot, ns: seq<Node>, es: seq<Edge>, lv: seq<nat>, le: seq<nat>, v: nat, n: Node)
    requires TakenBack(g, ns, es, lv, le) && v < |ns| && SameCount(ns[v], n)
    ensures TakenBack(g, ns[v := n], es, lv, le)
  {
    forall w | 0 <= w < |ns| ensures KeptNode(g.ns[w], ns[v := n][w], w, lv) {
      assert KeptNode(g.ns[w], ns[w], w, lv);
    }
  }

  lemma ClearTakenBack(g: Snapshot, ns: seq<Node>, es: seq<Edge>, lv: seq<nat>, le: seq<nat>, ns': seq<Node>)
    requires TakenBack(g, ns, es, lv, le) && |ns'| == |ns|
    requires forall v | 0 <= v < |ns| :: ns'[v] == ns[v].(computed := ns[v].computed && v !in lv)
    ensures TakenBack(g, ns', es, lv, le)
  {
    forall v | 0 <= v < |ns| ensures KeptNode(g.ns[v], ns'[v], v, lv) {
      assert KeptNode(g.ns[v], ns[v], v, lv);
    }
  }

  /** The counts on the list lv are taken back, and v has delta more. */
  ghost predicate NodesReverted(ns: seq<Node>, ns': seq<Node>, lv: seq<nat>, v: nat, delta: int) {
    && |ns'| == |ns|
    && forall u | 0 <= u < |ns| ::
         ns'[u] == ns[u].(counter := ns[u].counter + (if u == v then delta else 0),
                          computed := ns[u].computed && u !in lv)
  }

  ghost predicate EdgesReverted(es: seq<Edge>, es': seq<Edge>, le: seq<nat>) {
    && |es'| == |es|
    && forall e | 0 <= e < |es| :: es'[e] == es[e].(computed := es[e].computed && e !in le)
  }

  lemma RevertedKeeps(ns: seq<Node>, ns': seq<Node>, lv: seq<nat>, v: nat, delta: int)
    requires NodesReverted(ns, ns', lv, v, delta)
    ensures SameFlags(ns, ns') && SameLists(ns, ns')
  {
  }

  lemma RevertedTakenBack(g: Snapshot, s: Snapshot, t: Snapshot, lv: seq<nat>, le: seq<nat>, v: nat, delta: int)
    requires TakenBack(g, s.ns, s.es, lv, le)
    requires NodesReverted(s.ns, t.ns, lv, v, delta) && EdgesReverted(s.es, t.es, le)
    ensures TakenBack(g, t.ns, t.es, [], [])
  {
    forall u | 0 <= u < |s.ns| ensures KeptNode(g.ns[u], t.ns[u], u, []) {
      assert KeptNode(g.ns[u], s.ns[u], u, lv);
    }
    forall e | 0 <= e < |s.es| ensures KeptEdge(g.es[e], t.es[e], e, []) {
      assert KeptEdge(g.es[e], s.es[e], e, le);
    }
  }

  // ----- Where a guess stops -----

  /** No side of v lacks exactly one count: a side is empty or lacks two, or v is a call that keeps its count back from
      a fully counted outgoing side. */
  ghost predicate Blocked(ns: seq<Node>, es: seq<Edge>, v: nat)
    requires WellFormed(ns, es) && v < |ns|
  {
    && (ns[v].incoming == [] || Counted(es, ns[v].incoming) + 2 <= |ns[v].incoming|)
    && (ns[v].outgoing == [] || Counted(es, ns[v].outgoing) + 2 <= |ns[v].outgoing| ||
        (ns[v].callSite && Counted(es, ns[v].outgoing) == |ns[v].outgoing|))
  }

  /** An uncounted node that nothing can be deduced at offers a guess no side with exactly one edge missing if and only
      if it is blocked. */
  lemma BlockedOrNot(ns: seq<Node>, es: seq<Edge>, v: nat)
    requires WellFormed(ns, es) && v < |ns| && !ns[v].HasCount() && CompleteAt(ns, es, v)
    ensures Blocked(ns, es, v) <==> && Counted(es, ns[v].incoming) + 1 != |ns[v].incoming|
                                    && Counted(es, ns[v].outgoing) + 1 != |ns[v].outgoing|
  {
    CountedBound(es, ns[v].incoming);
    CountedBound(es, ns[v].outgoing);
  }

  /** The node has a side that is not held back. */
  predicate FreeSide(n: Node) {
    n.incoming != [] || (n.outgoing != [] && !n.callSite)
  }

  /** What a guess stops at stays without a count. */
  lemma BlockedIsOpen(ns: seq<Node>, es: seq<Edge>, v: nat)
    requires WellFormed(ns, es) && v < |ns| && Blocked(ns, es, v) && FreeSide(ns[v])
    ensures exists e :: 0 <= e < |es| && !es[e].HasCount() && (es[e].sink == v || es[e].source == v)
  {
    var l := if ns[v].incoming != [] then ns[v].incoming else ns[v].outgoing;
    CountedBound(es, l);
    var e :| e in l && !es[e].HasCount();
    assert e in ns[v].incoming || e in ns[v].outgoing;
  }

  /** With the queues empty and nothing left unqueued, nothing more can be deduced. */
  lemma SettledComplete(s: Snapshot)
    requires Settled(s, {}, {}) && Quiet(s)
    ensures Complete(s.ns, s.es)
  {
    forall v: nat | v < |s.ns| ensures CompleteAt(s.ns, s.es, v) {
      CountedBound(s.es, s.ns[v].incoming);
      CountedBound(s.es, s.ns[v].outgoing);
      assert InSettled(s, v) && OutSettled(s, v);
    }
  }

  // ----- Guesses that are right -----

  /** The partial counts are all there is. */
  ghost predicate Full(ns: seq<Node>, f: Flow) {
    |f.node| == |ns| && forall v | 0 <= v < |ns| :: ns[v].partial ==> ns[v].counter == f.node[v]
  }

  /** A partial count that the fully counted outgoing side of its node falls short of, and incoming side. */
  ghost predicate ShortOut(s: Snapshot, v: nat)
    requires WellFormed(s.ns, s.es) && v < |s.ns|
  {
    && s.ns[v].partial && !s.ns[v].HasCount() && Counted(s.es, s.ns[v].outgoing) == |s.ns[v].outgoing|
    && s.ns[v].counter > SumCounted(s.es, s.ns[v].outgoing)
  }

  ghost predicate ShortIn(s: Snapshot, v: nat)
    requires WellFormed(s.ns, s.es) && v < |s.ns|
  {
    && s.ns[v].partial && !s.ns[v].HasCount() && Counted(s.es, s.ns[v].incoming) == |s.ns[v].incoming|
    && s.ns[v].counter > SumCounted(s.es, s.ns[v].incoming)
  }

  /** Deducing e, the last uncounted incoming edge of v, shows that a partial count at its source is too large. */
  ghost predicate InFailsAt(s: Snapshot, v: nat, e: nat)
    requires WellFormed(s.ns, s.es) && v < |s.ns|
  {
    var l := s.ns[v].incoming;
    && e in l && !s.es[e].HasCount() && s.ns[v].HasCount() && Counted(s.es, l) + 1 == |l|
    && s.ns[v].counter >= SumCounted(s.es, l) && !HeldBack(s, s.es[e].source, v)
    && ShortOut(Deduced(s, v, l, e), s.es[e].source)
  }

  /** By how much it is too large. */
  ghost function InMissing(s: Snapshot, v: nat, e: nat): int
    requires WellFormed(s.ns, s.es) && v < |s.ns| && e < |s.es|
  {
    OutRest(Deduced(s, v, s.ns[v].incoming, e), s.es[e].source)
  }

  /** The same for an outgoing edge and its sink. */
  ghost predicate OutFailsAt(s: Snapshot, v: nat, e: nat)
    requires WellFormed(s.ns, s.es) && v < |s.ns|
  {
    var l := s.ns[v].outgoing;
    && e in l && !s.es[e].HasCount() && s.ns[v].HasCount() && Counted(s.es, l) + 1 == |l|
    && s.ns[v].counter >= SumCounted(s.es, l) && !HeldBack(s, v, s.es[e].sink)
    && ShortIn(Deduced(s, v, l, e), s.es[e].sink)
  }

  ghost function OutMissing(s: Snapshot, v: nat, e: nat): int
    requires WellFormed(s.ns, s.es) && v < |s.ns| && e < |s.es|
  {
    InRest(Deduced(s, v, s.ns[v].outgoing, e), s.es[e].sink)
  }

  /** Processing v from its incoming side makes a guess fail, and from its outgoing side. */
  ghost predicate InFails(s: Snapshot, v: nat)
    requires WellFormed(s.ns, s.es) && v < |s.ns|
  {
    exists e: nat :: InFailsAt(s, v, e)
  }

  ghost predicate OutFails(s: Snapshot, v: nat)
    requires WellFormed(s.ns, s.es) && v < |s.ns|
  {
    exists e: nat :: OutFailsAt(s, v, e)
  }

  /** What the counted incoming edges leave of a node's count. */
  ghost function InRest(s: Snapshot, v: nat): int
    requires WellFormed(s.ns, s.es) && v < |s.ns|
  {
    s.ns[v].counter - SumCounted(s.es, s.ns[v].incoming)
  }

  /** Where e is the one incoming edge of v without a count, all hangs on e. */
  lemma InOnly(s: Snapshot, v: nat, e: nat)
    requires WellFormed(s.ns, s.es) && v < |s.ns| && OneLeft(s, v) && InRest(s, v) >= 0
    requires e in s.ns[v].incoming && !s.es[e].HasCount()
    ensures forall d: nat | CallStep(s, v, d) || InFailsAt(s, v, d) :: d == e
    ensures InTrouble(s, v) <==>
            !s.ns[v].HasCount() || CallTrouble(Deduced(s, v, s.ns[v].incoming, e), s.es[e].source, v)
    ensures s.ns[v].HasCount() && !InFails(s, v) ==>
              HeldBack(s, s.es[e].source, v) || !ShortOut(Deduced(s, v, s.ns[v].incoming, e), s.es[e].source)
  {
    OnlyOpen(s.es, s.ns[v].incoming, e);
    assert !InFails(s, v) ==> !InFailsAt(s, v, e);
  }

  lemma OutOnly(s: Snapshot, v: nat, e: nat)
    requires WellFormed(s.ns, s.es) && v < |s.ns| && OutRest(s, v) >= 0
    requires Counted(s.es, s.ns[v].outgoing) + 1 == |s.ns[v].outgoing|
    requires e in s.ns[v].outgoing && !s.es[e].HasCount()
    ensures forall d: nat | OutFailsAt(s, v, d) :: d == e
    ensures s.ns[v].HasCount() && !OutFails(s, v) ==>
              HeldBack(s, v, s.es[e].sink) || !ShortIn(Deduced(s, v, s.ns[v].outgoing, e), s.es[e].sink)
  {
    OnlyOpen(s.es, s.ns[v].outgoing, e);
    assert !OutFails(s, v) ==> !OutFailsAt(s, v, e);
  }

  /** The initial pass, too, leaves a node that it brings an entry edge with the sum of its incoming edges for a
      count. */
  lemma ClashBalanced(s: Snapshot, entry: nat, v: nat)
    requires WellFormed(s.ns, s.es) && entry < |s.ns| && v < |s.ns| && v != entry
    ensures InRest(ClashRepaired(s, entry, v), v) == 0
    ensures s.ns[v].HasCount() ==> OutRest(ClashRepaired(s, entry, v), v) == OutRest(s, v)
  {
    EntryRepairSums(s, entry, v, InRest(s, v), false);
  }

  /** The node has no count to start from, or more than one edge of the list has none. */
  ghost predicate NotReady(s: Snapshot, v: nat, l: seq<nat>)
    requires v < |s.ns| && Within(l, |s.es|)
  {
    !s.ns[v].HasCount() || Counted(s.es, l) + 2 <= |l|
  }

  /** More comes into the counted node v than it has, and at most one count is missing on its incoming side. */
  ghost predicate InShort(s: Snapshot, v: nat)
    requires WellFormed(s.ns, s.es) && v < |s.ns|
  {
    s.ns[v].HasCount() && Counted(s.es, s.ns[v].incoming) + 1 >= |s.ns[v].incoming| && InRest(s, v) < 0
  }

  /** All that comes into the counted node v is counted and is less than it has. */
  ghost predicate InLacks(s: Snapshot, v: nat)
    requires WellFormed(s.ns, s.es) && v < |s.ns|
  {
    s.ns[v].HasCount() && Counted(s.es, s.ns[v].incoming) == |s.ns[v].incoming| && InRest(s, v) > 0
  }

  /** What was missing now comes in from the entry, and v is done with. */
  ghost predicate InRaised(s: Snapshot, t: Snapshot, entry: nat, v: nat, i: nat)
    requires WellFormed(s.ns, s.es) && v < |s.ns| && entry < |s.ns|
  {
    && DroppedIn(EntryRepaired(s, entry, v, InRest(s, v), false), t, v, i)
    && WellFormed(t.ns, t.es) && v < |t.ns| && (v != entry ==> InRest(t, v) == 0)
  }

  lemma NoInFails(s: Snapshot, f: Flow, v: nat)
    requires Calm(s, f, {}, {}) && v < |s.ns| && InReady(s, v) && Full(s.ns, f)
    ensures !InFails(s, v)
  {
    forall e | e in s.ns[v].incoming && !s.es[e].HasCount()
      ensures !ShortOut(Deduced(s, v, s.ns[v].incoming, e), s.es[e].source)
    {
      var s1, src := Deduced(s, v, s.ns[v].incoming, e), s.es[e].source;
      DeducedAgrees(s, f, v, s.ns[v].incoming, e);
      assert e in s.ns[src].outgoing;
      if Counted(s1.es, s1.ns[src].outgoing) == |s1.ns[src].outgoing| {
        FullSide(s1.ns, s1.es, f, src, s1.ns[src].outgoing);
      }
    }
  }

  lemma NoOutFails(s: Snapshot, f: Flow, v: nat)
    requires Calm(s, f, {}, {}) && v < |s.ns| && OutReady(s, v) && Full(s.ns, f)
    ensures !OutFails(s, v)
  {
    forall e | e in s.ns[v].outgoing && !s.es[e].HasCount()
      ensures !ShortIn(Deduced(s, v, s.ns[v].outgoing, e), s.es[e].sink)
    {
      var s1, t := Deduced(s, v, s.ns[v].outgoing, e), s.es[e].sink;
      DeducedAgrees(s, f, v, s.ns[v].outgoing, e);
      assert e in s.ns[t].incoming;
      if Counted(s1.es, s1.ns[t].incoming) == |s1.ns[t].incoming| {
        FullSide(s1.ns, s1.es, f, t, s1.ns[t].incoming);
      }
    }
  }

  /** What is counted on the way takes the flow's count. */
  lemma FullOn(ns: seq<Node>, es: seq<Edge>, ns': seq<Node>, es': seq<Edge>, f: Flow)
    requires Full(ns, f) && Extends(ns, es, ns', es') && WellFormed(ns', es') && Agrees(ns', es', f)
    ensures Full(ns', f)
  {
    forall v | 0 <= v < |ns'| ensures ns'[v].partial ==> ns'[v].counter == f.node[v] {
      assert NodeExtends(ns[v], ns'[v]);
    }
  }

  // ----- One step of a pass -----

  /** A step at which all is as a flow would have it neither aborts nor repairs nor makes a guess fail. */
  lemma InStepSafe(s: Snapshot, f: Flow, v: nat, i: nat, unguessed: bool)
    requires Calm(s, f, {}, {}) && i < |s.inQ| && s.inQ[i].node == v && (unguessed || Full(s.ns, f))
    ensures !InTrouble(s, v) && (unguessed || !InFails(s, v))
  {
    NoInTrouble(s, f, v);
    if !unguessed {
      NoInFails(s, f, v);
    }
  }

  lemma OutStepSafe(s: Snapshot, f: Flow, v: nat, i: nat, unguessed: bool)
    requires Calm(s, f, {}, {}) && i < |s.outQ| && s.outQ[i].node == v && (unguessed || Full(s.ns, f))
    ensures !OutTrouble(s, v) && (unguessed || !OutFails(s, v))
  {
    NoOutTrouble(s, f, v);
    if !unguessed {
      NoOutFails(s, f, v);
    }
  }

  /** And all stays so. */
  lemma InStepKeeps(s: Snapshot, t: Snapshot, f: Flow, v: nat, i: nat, i': nat, unguessed: bool)
    requires Calm(s, f, {}, {}) && i < |s.inQ| && s.inQ[i].node == v && InStepped(s, t, v, i, i')
    requires unguessed || Full(s.ns, f)
    ensures Calm(t, f, {}, {}) && Derived(s, t) && (unguessed || Full(t.ns, f))
  {
    InStepCalm(s, t, f, v, i, i');
    InStepDerived(s, t, v, i, i');
    if !unguessed {
      FullOn(s.ns, s.es, t.ns, t.es, f);
    }
  }

  lemma OutStepKeeps(s: Snapshot, t: Snapshot, f: Flow, v: nat, i: nat, i': nat, unguessed: bool)
    requires Calm(s, f, {}, {}) && i < |s.outQ| && s.outQ[i].node == v && OutStepped(s, t, v, i, i')
    requires unguessed || Full(s.ns, f)
    ensures Calm(t, f, {}, {}) && Derived(s, t) && (unguessed || Full(t.ns, f))
  {
    OutStepCalm(s, t, f, v, i, i');
    OutStepDerived(s, t, v, i, i');
    if !unguessed {
      FullOn(s.ns, s.es, t.ns, t.es, f);
    }
  }

  // ----- Making a guess -----

  ghost predicate Flagged(s: Snapshot, t: Snapshot, v: nat) {
    v < |s.ns| && t.ns == s.ns[v := s.ns[v].(measured := true)] && t.es == s.es
  }

  lemma FlagRestful(s: Snapshot, g: Snapshot, v: nat)
    requires Settled(s, {}, {}) && Quiet(s) && Quiet(g) && Flagged(s, g, v)
    ensures Restful(g, v)
  {
    KeepShape(s.ns, s.es, g.ns, g.es);
    forall w: nat | w < |g.ns| && w != v ensures InSettled(g, w) && OutSettled(g, w) {
      assert InSettled(s, w) && OutSettled(s, w);
    }
  }

  /** Nothing is left to deduce that is not queued, and nothing is queued if and only if the guess node v is blocked. */
  ghost predicate AllQueued(s: Snapshot, v: nat) {
    Settled(s, {}, {}) && v < |s.ns| && (Quiet(s) <==> Blocked(s.ns, s.es, v))
  }

  /** So it is after a guess in a state in which nothing can be deduced. */
  lemma GuessSettled(s: Snapshot, t: Snapshot, v: nat)
    requires Settled(s, {}, {}) && Quiet(s) && Flagged(s, t, v) && !s.ns[v].HasCount()
    requires WellFormed(t.ns, t.es) && Requeued(t, v)
    ensures AllQueued(t, v)
  {
    var g := Snapshot(t.ns, t.es, [], []);
    FlagRestful(s, g, v);
    TakenBackNow(g);
    RestartSettled(g, t, v);
    SettledComplete(s);
    assert CompleteAt(s.ns, s.es, v);
    BlockedOrNot(s.ns, s.es, v);
  }

  /** A right guess. */
  lemma GuessAgrees(s: Snapshot, t: Snapshot, f: Flow, v: nat)
    requires WellFormed(s.ns, s.es) && Agrees(s.ns, s.es, f) && Full(s.ns, f)
    requires Flagged(s, t, v) && s.ns[v].partial && WellFormed(t.ns, t.es)
    ensures Agrees(t.ns, t.es, f) && Full(t.ns, f) && Extends(s.ns, s.es, t.ns, t.es)
  {
  }
}
