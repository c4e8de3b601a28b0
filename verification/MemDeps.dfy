/** The dependence distances between two array references over many iterations. */
module MemoryDependences {
  import opened Ratios
  import opened Meetings
  import opened Coverage

  /** How a probe treats a ratio that is not a positive integer: as an assertion failure, as no hit unless the first
      factor is positive, or as a hit. */
  datatype Check = Asserted | Guarded | Unchecked

  predicate Found(z: Ratio, check: Check) {
    z.Ratio? && (z.f2 == 1 || z.f2 == -1) && (check.Guarded? ==> z.f1 > 0)
  }

  predicate Good(z: Ratio) {
    z.Ratio? && z.f2 == 1 && z.f1 > 0
  }

  predicate Passes(z: Ratio, check: Check) {
    Found(z, check) && !check.Unchecked? ==> Good(z)
  }

  /** The iteration of nodeB, as a ratio, that touches what node touches in iteration i. */
  function NodeRatio(r: Refs, i: int): Ratio {
    HasIntegerRatio(r.f - r.o + r.s * i, r.t)
  }

  /** The iteration of node, as a ratio, that touches what nodeB touches in iteration j. */
  function BRatio(r: Refs, j: int): Ratio {
    HasIntegerRatio(r.t * j - (r.f - r.o), r.s)
  }

  lemma NodeRatioScaled(r: Refs, d: int, a: int, b: int, g: int, i: int)
    requires Scaled(r, d, a, b, g)
    ensures NodeRatio(r, i) == HasIntegerRatio((d + i * a) * g, b * g)
  {
    assert r.f - r.o + r.s * i == (d + i * a) * g;
  }

  lemma BRatioScaled(r: Refs, d: int, a: int, b: int, g: int, j: int)
    requires Scaled(r, d, a, b, g)
    ensures BRatio(r, j) == HasIntegerRatio((j * b - d) * g, a * g)
  {
    assert r.t * j - (r.f - r.o) == (j * b - d) * g;
  }

  /** A probe by z from a place that is q away from the start of the strides e finds a multiple of e. */
  ghost predicate Probes(z: Ratio, q: int, e: int) {
    && (Good(z) ==> q == z.f1 * e)
    && (q == 0 || (q > 0 <==> e > 0) ==> (Found(z, Unchecked) ==> Good(z)))
    && (Found(z, Unchecked) <==> q != 0 && Divides(e, q))
  }

  /** nodeB touches in iteration z.f1 what node touches in iteration i. */
  lemma GoodNode(r: Refs, d: int, a: int, b: int, g: int, i: int, n: nat)
    requires Scaled(r, d, a, b, g) && b != 0
    ensures Probes(NodeRatio(r, i), d + i * a, b)
    ensures var z := NodeRatio(r, i);
      Good(z) && 0 <= i < n && z.f1 < n ==> Witnessed(r, n, DepOf(i, z.f1))
  {
    NodeRatioScaled(r, d, a, b, g, i);
    ScaledRatio(d + i * a, b, g);
    var z := NodeRatio(r, i);
    if Good(z) && 0 <= i < n && z.f1 < n {
      MeetsScaled(r, d, a, b, g, i, z.f1);
      Witness(r, n, i, z.f1);
    }
  }

  /** node touches in iteration z.f1 what nodeB touches in iteration j. */
  lemma GoodB(r: Refs, d: int, a: int, b: int, g: int, j: int, n: nat)
    requires Scaled(r, d, a, b, g) && a != 0
    ensures Probes(BRatio(r, j), j * b - d, a)
    ensures var z := BRatio(r, j);
      Good(z) && 0 <= j < n && z.f1 < n ==> Witnessed(r, n, DepOf(z.f1, j))
  {
    BRatioScaled(r, d, a, b, g, j);
    ScaledRatio(j * b - d, a, g);
    var z := BRatio(r, j);
    if Good(z) && 0 <= j < n && z.f1 < n {
      MeetsScaled(r, d, a, b, g, z.f1, j);
      Witness(r, n, z.f1, j);
    }
  }

  /** Every pair of iterations that meet is ordered by an edge at most as long as they are apart. */
  ghost predicate Covered(r: Refs, n: nat, added: set<Dep>) {
    forall i, j | 0 <= i < n && 0 <= j < n && Meets(r, i, j) :: EdgeFor(added, i, j)
  }

  ghost predicate EdgeFor(added: set<Dep>, i: int, j: int) {
    exists e | e in added :: e.forward == (j > i) && e.distance <= Abs(i - j)
  }

  /** The edges added are those of the gaps. */
  ghost predicate EdgesOf(added: set<Dep>, gaps: int -> bool) {
    && (forall gap | gaps(gap) :: DepOf(0, gap) in added)
    && (forall e | e in added :: exists gap :: gaps(gap) && e == DepOf(0, gap))
  }

  lemma EdgeCovers(added: set<Dep>, gaps: int -> bool, i: int, j: int, s: int)
    requires EdgesOf(added, gaps) && s == j - i
    ensures EdgeFor(added, i, j) <==> exists gap :: gaps(gap) && Closer(gap, s, true)
  {
    if e :| e in added && e.forward == (j > i) && e.distance <= Abs(i - j) {
      var gap :| gaps(gap) && e == DepOf(0, gap);
      assert Closer(gap, s, true);
    }
    if gap :| gaps(gap) && Closer(gap, s, true) {
      assert DepOf(0, gap) in added;
    }
  }

  // ----- When the follower is the faster -----

  lemma ProbeOfB(r: Refs, d: int, a: int, b: int, g: int, n: nat, m: int, gap: int)
    requires Scaled(r, d, a, b, g) && d > 0 && a > 0
    ensures ProbeGap(n, d, a, b, g, m, gap) <==>
      var z := BRatio(r, m); Found(z, Unchecked) && z.f1 < n && gap == m - z.f1
  {
    GoodB(r, d, a, b, g, m, n);
    BRatioScaled(r, d, a, b, g, m);
    ProbeIteration(BRatio(r, m), m * b - d, a, g, n);
  }

  lemma ProbeOfNode(r: Refs, d: int, a: int, b: int, g: int, n: nat, m: int, gap: int)
    requires Scaled(r, d, a, b, g) && d < 0 && b > 0
    ensures ProbeGap(n, -d, b, a, g, m, gap) <==>
      var z := NodeRatio(r, m); Found(z, Unchecked) && z.f1 < n && gap == m - z.f1
  {
    GoodNode(r, d, a, b, g, m, n);
    NodeRatioScaled(r, d, a, b, g, m);
    ProbeIteration(NodeRatio(r, m), d + m * a, b, g, n);
  }

  /** The iteration that a probe answers with. */
  lemma ProbeIteration(z: Ratio, q: int, e: int, g: int, n: nat)
    requires g != 0 && e > 0 && z == HasIntegerRatio(q * g, e * g) && Probes(z, q, e)
    ensures Found(z, Unchecked) ==> z.f1 == if g < 0 && q < 0 then -q / e else q / e
  {
    if Found(z, Unchecked) {
      if q < 0 {
        ProbeBehind(q, e, g, n);
        if g > 0 {
          ExactQuotient(q, z.f1, e);
        }
      } else {
        ExactQuotient(q, z.f1, e);
      }
    }
  }

  /** What probing an iteration of nodeB, or of node, adds. */
  ghost function ProbedB(r: Refs, n: nat, m: int): set<Dep> {
    var z := BRatio(r, m);
    if Found(z, Unchecked) && z.f1 < n then {DepOf(z.f1, m)} else {}
  }

  ghost function ProbedNode(r: Refs, n: nat, m: int): set<Dep> {
    var z := NodeRatio(r, m);
    if Found(z, Unchecked) && z.f1 < n then {DepOf(m, z.f1)} else {}
  }

  lemma OneEdge(added: set<Dep>, gaps: int -> bool, hit: bool, i: int, j: int, gap: int)
    requires added == (if hit then {DepOf(i, j)} else {}) && gap == j - i
    requires forall s :: gaps(s) <==> hit && s == gap
    ensures EdgesOf(added, gaps)
  {
    assert DepOf(i, j) == DepOf(0, gap);
    assert hit ==> gaps(gap);
  }

  lemma TwoEdges(first: set<Dep>, g1: int -> bool, second: set<Dep>, g2: int -> bool, both: bool, gaps: int -> bool)
    requires EdgesOf(first, g1) && EdgesOf(second, g2)
    requires forall gap :: gaps(gap) <==> g1(gap) || (both && g2(gap))
    ensures EdgesOf(if both then first + second else first, gaps)
  {
  }

  lemma SameEdges(added: set<Dep>, g1: int -> bool, gaps: int -> bool)
    requires EdgesOf(added, g1) && forall gap :: gaps(gap) <==> g1(gap)
    ensures EdgesOf(added, gaps)
  {
  }

  lemma ProbedBEdge(r: Refs, d: int, a: int, b: int, g: int, n: nat, m: int)
    requires Scaled(r, d, a, b, g) && d > 0 && a > 0
    ensures EdgesOf(ProbedB(r, n, m), gap => ProbeGap(n, d, a, b, g, m, gap))
  {
    var z := BRatio(r, m);
    var gaps := gap => ProbeGap(n, d, a, b, g, m, gap);
    forall gap ensures gaps(gap) <==> Found(z, Unchecked) && z.f1 < n && gap == m - z.f1 {
      ProbeOfB(r, d, a, b, g, n, m, gap);
    }
    OneEdge(ProbedB(r, n, m), gaps, Found(z, Unchecked) && z.f1 < n, if z.Ratio? then z.f1 else m, m,
            if z.Ratio? then m - z.f1 else 0);
  }

  ghost predicate MirrorProbe(n: nat, x: nat, lo: int, hi: int, g: int, m: int, gap: int)
    requires lo > 0
  {
    ProbeGap(n, x, lo, hi, g, m, -gap)
  }

  lemma ProbedNodeEdge(r: Refs, d: int, a: int, b: int, g: int, n: nat, m: int)
    requires Scaled(r, d, a, b, g) && d < 0 && b > 0
    ensures EdgesOf(ProbedNode(r, n, m), gap => MirrorProbe(n, -d, b, a, g, m, gap))
  {
    var z := NodeRatio(r, m);
    var gaps := gap => MirrorProbe(n, -d, b, a, g, m, gap);
    forall gap ensures gaps(gap) <==> Found(z, Unchecked) && z.f1 < n && gap == z.f1 - m {
      ProbeOfNode(r, d, a, b, g, n, m, -gap);
    }
    OneEdge(ProbedNode(r, n, m), gaps, Found(z, Unchecked) && z.f1 < n, m, if z.Ratio? then z.f1 else m,
            if z.Ratio? then z.f1 - m else 0);
  }

  lemma ForwardEdges(r: Refs, d: int, a: int, b: int, g: int, n: nat, added: set<Dep>)
    requires Scaled(r, d, a, b, g) && d > 0 && 0 < a < b
    requires var l, c := Floor(d, b - a), Ceil(d, b - a);
      added == if l >= n then ProbedB(r, n, n - 1)
        else if l != c && c < n then ProbedB(r, n, l) + ProbedB(r, n, c) else ProbedB(r, n, l)
    ensures EdgesOf(added, gap => GapAdded(n, d, a, b, g, gap))
  {
    var l, c := Floor(d, b - a), Ceil(d, b - a);
    var gaps := gap => GapAdded(n, d, a, b, g, gap);
    if l >= n {
      ProbedBEdge(r, d, a, b, g, n, n - 1);
      SameEdges(added, gap => ProbeGap(n, d, a, b, g, n - 1, gap), gaps);
    } else {
      ProbedBEdge(r, d, a, b, g, n, l);
      ProbedBEdge(r, d, a, b, g, n, c);
      TwoEdges(ProbedB(r, n, l), gap => ProbeGap(n, d, a, b, g, l, gap), ProbedB(r, n, c),
               gap => ProbeGap(n, d, a, b, g, c, gap), l != c && c < n, gaps);
    }
  }

  lemma BackwardEdges(r: Refs, d: int, a: int, b: int, g: int, n: nat, added: set<Dep>)
    requires Scaled(r, d, a, b, g) && d < 0 && 0 < b < a
    requires var l, c := Floor(-d, a - b), Ceil(-d, a - b);
      added == if l >= n then ProbedNode(r, n, n - 1)
        else if l != c && c < n then ProbedNode(r, n, l) + ProbedNode(r, n, c) else ProbedNode(r, n, l)
    ensures EdgesOf(added, gap => MirrorAdded(n, -d, b, a, g, gap))
  {
    var l, c := Floor(-d, a - b), Ceil(-d, a - b);
    var gaps := gap => MirrorAdded(n, -d, b, a, g, gap);
    if l >= n {
      ProbedNodeEdge(r, d, a, b, g, n, n - 1);
      SameEdges(added, gap => MirrorProbe(n, -d, b, a, g, n - 1, gap), gaps);
    } else {
      ProbedNodeEdge(r, d, a, b, g, n, l);
      ProbedNodeEdge(r, d, a, b, g, n, c);
      TwoEdges(ProbedNode(r, n, l), gap => MirrorProbe(n, -d, b, a, g, l, gap), ProbedNode(r, n, c),
               gap => MirrorProbe(n, -d, b, a, g, c, gap), l != c && c < n, gaps);
    }
  }

  lemma ForwardCovered(r: Refs, d: int, a: int, b: int, g: int, n: nat, added: set<Dep>)
    requires Scaled(r, d, a, b, g) && d > 0 && 0 < a < b && Coprime(a, b)
    requires EdgesOf(added, gap => GapAdded(n, d, a, b, g, gap))
    ensures Covered(r, n, added) <==> ShrinkCovers(n, d, a, b, g, true)
  {
    ShrinkCovered(n, d, a, b, g, true);
    forall i, j | 0 <= i < n && 0 <= j < n
      ensures Meets(r, i, j) <==> MeetAt(d, a, b, i, j)
      ensures EdgeFor(added, i, j) <==> GapCovers(n, d, a, b, g, j - i, true)
    {
      MeetsScaled(r, d, a, b, g, i, j);
      EdgeCovers(added, gap => GapAdded(n, d, a, b, g, gap), i, j, j - i);
    }
  }

  lemma BackwardCovered(r: Refs, d: int, a: int, b: int, g: int, n: nat, added: set<Dep>)
    requires Scaled(r, d, a, b, g) && d < 0 && 0 < b < a && Coprime(b, a)
    requires EdgesOf(added, gap => MirrorAdded(n, -d, b, a, g, gap))
    ensures Covered(r, n, added) <==> ShrinkCovers(n, -d, b, a, g, false)
  {
    var x: nat := -d;
    ShrinkCovered(n, x, b, a, g, false);
    forall j, i | Covered(r, n, added) && 0 <= j < n && 0 <= i < n && MeetAt(x, b, a, j, i)
      ensures GapCovers(n, x, b, a, g, i - j, false)
    {
      MeetsScaled(r, d, a, b, g, i, j);
      BackwardEdge(d, a, b, g, n, added, i, j);
    }
    forall i, j | AllCovered(n, x, b, a, g, false) && 0 <= i < n && 0 <= j < n && Meets(r, i, j)
      ensures EdgeFor(added, i, j)
    {
      MeetsScaled(r, d, a, b, g, i, j);
      assert MeetAt(x, b, a, j, i);
      BackwardEdge(d, a, b, g, n, added, i, j);
    }
  }

  lemma BackwardEdge(d: int, a: int, b: int, g: int, n: nat, added: set<Dep>, i: int, j: int)
    requires d < 0 && 0 < b < a && EdgesOf(added, gap => MirrorAdded(n, -d, b, a, g, gap))
    ensures EdgeFor(added, i, j) <==> GapCovers(n, -d, b, a, g, i - j, false)
  {
    EdgeCovers(added, gap => MirrorAdded(n, -d, b, a, g, gap), i, j, j - i);
    MirroredGaps(n, -d, b, a, g, j - i, i - j);
  }

  lemma MirroredGaps(n: nat, x: nat, lo: int, hi: int, g: int, s: int, t: int)
    requires hi > lo > 0 && t == -s
    ensures (exists gap :: MirrorAdded(n, x, lo, hi, g, gap) && Closer(gap, s, true)) <==>
            GapCovers(n, x, lo, hi, g, t, false)
  {
    if gap :| MirrorAdded(n, x, lo, hi, g, gap) && Closer(gap, s, true) {
      assert GapAdded(n, x, lo, hi, g, -gap) && Closer(-gap, t, false);
    }
    if gap :| GapAdded(n, x, lo, hi, g, gap) && Closer(gap, t, false) {
      assert MirrorAdded(n, x, lo, hi, g, -gap) && Closer(-gap, s, true);
    }
  }

  /** The gaps as node sees them when nodeB is the leader. */
  ghost predicate MirrorAdded(n: nat, x: nat, lo: int, hi: int, g: int, gap: int)
    requires hi > lo > 0
  {
    GapAdded(n, x, lo, hi, g, -gap)
  }

  predicate Facing(d: int, a: int, b: int) {
    (d > 0 && a < 0 && b > 0) || (d < 0 && a > 0 && b < 0)
  }

  lemma FirstProbe(r: Refs, d: int, a: int, b: int, g: int, n: nat)
    requires Scaled(r, d, a, b, g) && Facing(d, a, b) && Ceil(Abs(d), Abs(b - a)) < n
    ensures var z := NodeRatio(r, Floor(Abs(d), Abs(b - a)));
      Passes(z, Asserted)
      && (Found(z, Asserted) && z.f1 < n ==> Witnessed(r, n, DepOf(Floor(Abs(d), Abs(b - a)), z.f1)))
  {
    var l := Floor(Abs(d), Abs(b - a));
    assert Abs(b - a) == Abs(b) + Abs(a);
    FloorCeil(Abs(d), Abs(b - a));
    TowardsBefore(Abs(d), Abs(a), Abs(b));
    assert l * -a == -(l * a);
    GoodNode(r, d, a, b, g, l, n);
  }

  lemma SecondProbe(r: Refs, d: int, a: int, b: int, g: int, n: nat)
    requires Scaled(r, d, a, b, g) && g > 0 && Facing(d, a, b) && Ceil(Abs(d), Abs(b - a)) < n
    ensures var dist := Ceil(Abs(d), Abs(b - a)); var z := NodeRatio(r, dist);
      && (Passes(z, Guarded) <==> !(d < 0 && d + dist * a > 0 && Divides(b, d + dist * a)))
      && (Passes(z, Guarded) && Found(z, Guarded) && z.f1 < n ==> Witnessed(r, n, DepOf(dist, z.f1)))
  {
    var dist := Ceil(Abs(d), Abs(b - a));
    var q := d + dist * a;
    GoodNode(r, d, a, b, g, dist, n);
    NodeRatioScaled(r, d, a, b, g, dist);
    ScaledRatio(q, b, g);
    SignOfProduct(b, g);
    var z := NodeRatio(r, dist);
    if Found(z, Unchecked) {
      SignOfProduct(q, g);
      SignOfProduct(z.f1 * z.f2, b);
    }
  }

  lemma FarApart(r: Refs, d: int, a: int, b: int, g: int, n: nat)
    requires Scaled(r, d, a, b, g) && Facing(d, a, b) && n <= Ceil(Abs(d), Abs(b - a))
    ensures NoneMeet(r, n)
  {
    assert Abs(b - a) == Abs(b) + Abs(a);
    forall i, j | 0 <= i < n && 0 <= j < n ensures !Meets(r, i, j) {
      MeetsScaled(r, d, a, b, g, i, j);
      TowardsMeetLate(Abs(d), Abs(a), Abs(b), n, i, j);
      assert i * -a == -(i * a) && j * -b == -(j * b);
    }
  }

  /** All pairs of iterations that meet are apart at least as far as the edges, in the same direction. */
  ghost predicate Least(r: Refs, n: nat, added: set<Dep>) {
    forall i, j, e | 0 <= i < n && 0 <= j < n && Meets(r, i, j) && e in added ::
      e.forward == (j > i) && e.distance <= Abs(i - j)
  }

  lemma RatioAtStart(r: Refs)
    ensures NodeRatio(r, 0) == HasIntegerRatio(r.f - r.o, r.t)
    ensures BRatio(r, 0) == HasIntegerRatio(-(r.f - r.o), r.s)
  {
  }

  lemma ExactIsInTime(d: nat, b: nat, k: int, n: nat)
    requires b > 0 && d == k * b && Ceil(d, b) < n
    ensures k < n
  {
    FloorCeil(d, b);
    assert (Ceil(d, b) + 1) * b == Ceil(d, b) * b + b;
    MulLtBack(k, Ceil(d, b) + 1, b);
  }

  lemma LeastForward(r: Refs, d: int, a: int, b: int, g: int, n: nat, k: int)
    requires Scaled(r, d, a, b, g) && d > 0 && a > b > 0 && d == k * b
    ensures Least(r, n, {Dep(true, k, 1)})
  {
    MulLtBack(0, k, b);
    forall i, j | 0 <= i < n && 0 <= j < n && Meets(r, i, j) ensures j > i && k <= j - i {
      MeetsScaled(r, d, a, b, g, i, j);
      GrowingIsLeast(d, a, b, k, i, j);
    }
  }

  lemma LeastBackward(r: Refs, d: int, a: int, b: int, g: int, n: nat, k: int)
    requires Scaled(r, d, a, b, g) && d < 0 && 0 < a < b && -d == k * a
    ensures Least(r, n, {Dep(false, k, 1)})
  {
    MulLtBack(0, k, a);
    forall i, j | 0 <= i < n && 0 <= j < n && Meets(r, i, j) ensures i > j && k <= i - j {
      MeetsScaled(r, d, a, b, g, i, j);
      GrowingIsLeast(-d, b, a, k, j, i);
    }
  }

  // ----- When they move towards each other -----

  lemma FaceProbe(r: Refs, d: int, a: int, b: int, g: int, n: nat, i: int, gap: int)
    requires Scaled(r, d, a, b, g) && Facing(d, a, b)
    ensures FaceGap(n, Abs(d), Abs(a), Abs(b), i, gap) <==>
      var z := NodeRatio(r, i); Good(z) && z.f1 < n && gap == z.f1 - i
  {
    GoodNode(r, d, a, b, g, i, n);
    var z, q := NodeRatio(r, i), d + i * a;
    assert i * -a == -(i * a);
    if b < 0 {
      DividesNegated(b, q);
      DividesBy(b, -q);
    }
    if Good(z) {
      SignOfProduct(z.f1, b);
      assert z.f1 * -b == -(z.f1 * b);
      ExactQuotient(Abs(q), z.f1, Abs(b));
    }
  }

  lemma DividesBy(a: int, d: int)
    ensures Divides(-a, d) <==> Divides(a, d)
  {
    if Divides(-a, d) {
      var k: int :| d == k * -a;
      assert d == -k * a;
    }
    if Divides(a, d) {
      var k: int :| d == k * a;
      assert d == -k * -a;
    }
  }

  ghost function ProbedFacing(r: Refs, n: nat, i: int): set<Dep> {
    var z := NodeRatio(r, i);
    if Good(z) && z.f1 < n then {DepOf(i, z.f1)} else {}
  }

  lemma FacingEdges(r: Refs, d: int, a: int, b: int, g: int, n: nat, added: set<Dep>)
    requires Scaled(r, d, a, b, g) && Facing(d, a, b)
    requires var l, c := Floor(Abs(d), Abs(a) + Abs(b)), Ceil(Abs(d), Abs(a) + Abs(b));
      added == ProbedFacing(r, n, l) + if l != c then ProbedFacing(r, n, c) else {}
    ensures EdgesOf(added, gap => FaceAdded(n, Abs(d), Abs(a), Abs(b), gap))
  {
    var l, c := Floor(Abs(d), Abs(a) + Abs(b)), Ceil(Abs(d), Abs(a) + Abs(b));
    ProbedFacingEdge(r, d, a, b, g, n, l);
    ProbedFacingEdge(r, d, a, b, g, n, c);
  }

  lemma ProbedFacingEdge(r: Refs, d: int, a: int, b: int, g: int, n: nat, i: int)
    requires Scaled(r, d, a, b, g) && Facing(d, a, b)
    ensures EdgesOf(ProbedFacing(r, n, i), gap => FaceGap(n, Abs(d), Abs(a), Abs(b), i, gap))
  {
    var z := NodeRatio(r, i);
    var gaps := gap => FaceGap(n, Abs(d), Abs(a), Abs(b), i, gap);
    forall gap ensures gaps(gap) <==> Good(z) && z.f1 < n && gap == z.f1 - i {
      FaceProbe(r, d, a, b, g, n, i, gap);
    }
    OneEdge(ProbedFacing(r, n, i), gaps, Good(z) && z.f1 < n, i, if z.Ratio? then z.f1 else i,
            if z.Ratio? then z.f1 - i else 0);
  }

  lemma TowardsCovered(r: Refs, d: int, a: int, b: int, g: int, n: nat, added: set<Dep>)
    requires Scaled(r, d, a, b, g) && Facing(d, a, b) && Ceil(Abs(d), Abs(a) + Abs(b)) < n
    requires EdgesOf(added, gap => FaceAdded(n, Abs(d), Abs(a), Abs(b), gap))
    ensures Covered(r, n, added) <==> FacingCovers(n, Abs(d), Abs(a), Abs(b))
  {
    var x, p, q := Abs(d), Abs(a), Abs(b);
    FacingCovered(n, x, p, q);
    forall i, j | Covered(r, n, added) && 0 <= i < n && 0 <= j < n && FaceAt(x, p, q, i, j)
      ensures FaceCovered(n, x, p, q, i, j)
    {
      FacingPair(r, d, a, b, g, n, x, p, q, added, i, j);
    }
    forall i, j | 0 <= i < n && 0 <= j < n && Meets(r, i, j) && FaceCovered(n, x, p, q, i, j)
      ensures EdgeFor(added, i, j)
    {
      FacingPair(r, d, a, b, g, n, x, p, q, added, i, j);
    }
    forall i, j | 0 <= i < n && 0 <= j < n && Meets(r, i, j) ensures FaceAt(x, p, q, i, j) {
      FacingPair(r, d, a, b, g, n, x, p, q, added, i, j);
    }
  }

  lemma TowardsSearched(r: Refs, d: int, a: int, b: int, g: int, n: nat, added: set<Dep>, dist: nat, ldist: nat)
    requires Scaled(r, d, a, b, g) && Facing(d, a, b) && dist < n
    requires dist == Ceil(Abs(d), Abs(a) + Abs(b)) && ldist == Floor(Abs(d), Abs(a) + Abs(b))
    requires added == ProbedFacing(r, n, ldist) + if ldist != dist then ProbedFacing(r, n, dist) else {}
    ensures Covered(r, n, added) <==> FacingCovers(n, Abs(d), Abs(a), Abs(b))
  {
    FacingEdges(r, d, a, b, g, n, added);
    TowardsCovered(r, d, a, b, g, n, added);
  }

  lemma FacingPair(r: Refs, d: int, a: int, b: int, g: int, n: nat, x: nat, p: nat, q: nat, added: set<Dep>,
                   i: int, j: int)
    requires Scaled(r, d, a, b, g) && Facing(d, a, b) && x == Abs(d) && p == Abs(a) && q == Abs(b)
    requires EdgesOf(added, gap => FaceAdded(n, x, p, q, gap))
    ensures Meets(r, i, j) <==> FaceAt(x, p, q, i, j)
    ensures EdgeFor(added, i, j) <==> FaceCovered(n, x, p, q, i, j)
  {
    MeetsScaled(r, d, a, b, g, i, j);
    assert i * -a == -(i * a) && j * -b == -(j * b);
    EdgeCovers(added, gap => FaceAdded(n, x, p, q, gap), i, j, j - i);
  }

  /** When nothing meets, every condition for coverage holds. */
  lemma NothingToCover(r: Refs, d: int, a: int, b: int, g: int, n: nat)
    requires Scaled(r, d, a, b, g) && NoneMeet(r, n)
    ensures Facing(d, a, b) ==> FacingCovers(n, Abs(d), Abs(a), Abs(b))
    ensures d > 0 && 0 < a < b ==> ShrinkCovers(n, d, a, b, g, true)
  {
    forall i, j | 0 <= i < n && 0 <= j < n
      ensures Facing(d, a, b) ==> !FaceAt(Abs(d), Abs(a), Abs(b), i, j)
      ensures !MeetAt(d, a, b, i, j)
    {
      MeetsScaled(r, d, a, b, g, i, j);
      assert i * -a == -(i * a) && j * -b == -(j * b);
    }
  }

  lemma NothingBehind(r: Refs, d: int, a: int, b: int, g: int, n: nat)
    requires Scaled(r, d, a, b, g) && NoneMeet(r, n) && d < 0 && 0 < b < a
    ensures ShrinkCovers(n, -d, b, a, g, false)
  {
    var x: nat := -d;
    forall j, i | 0 <= j < n && 0 <= i < n ensures !MeetAt(x, b, a, j, i) {
      MeetsScaled(r, d, a, b, g, i, j);
    }
    assert SideEmpty(n, x, b, a, false, true) && SideEmpty(n, x, b, a, false, false);
  }

  lemma ExactlyCovered(r: Refs, n: nat, added: set<Dep>)
    requires forall e :: e in added <==> Witnessed(r, n, e)
    ensures Covered(r, n, added)
  {
    forall i, j | 0 <= i < n && 0 <= j < n && Meets(r, i, j) ensures EdgeFor(added, i, j) {
      Witness(r, n, i, j);
      assert DepOf(i, j) in added;
    }
  }

  /** Growing distances are covered when the start meets exactly, or when nothing meets. */
  lemma GrowingCovered(r: Refs, n: nat, added: set<Dep>)
    requires Least(r, n, added)
    ensures Covered(r, n, added) <==> added != {} || NoneMeet(r, n)
  {
    if e :| e in added {
      forall i, j | 0 <= i < n && 0 <= j < n && Meets(r, i, j) ensures EdgeFor(added, i, j) {
        assert e.forward == (j > i) && e.distance <= Abs(i - j);
      }
    }
  }

  /** The probe from the start, when the leader is the faster. */
  ghost predicate StartProbe(r: Refs, n: nat, z: Ratio, forward: bool, exact: bool) {
    && (Found(z, Asserted) <==> exact)
    && (Found(z, Asserted) ==> Good(z) && z.f1 < n)
    && (Found(z, Asserted) ==> Witnessed(r, n, Dep(forward, z.f1, 1)))
    && (Found(z, Asserted) ==> Least(r, n, {Dep(forward, z.f1, 1)}))
  }

  lemma GrowingForwardProbe(r: Refs, d: int, a: int, b: int, g: int, n: nat)
    requires Scaled(r, d, a, b, g) && d > 0 && a > b > 0 && Ceil(d, b) < n
    ensures StartProbe(r, n, HasIntegerRatio(r.f - r.o, r.t), true, Divides(b, d))
  {
    var z := NodeRatio(r, 0);
    RatioAtStart(r);
    GoodNode(r, d, a, b, g, 0, n);
    if Found(z, Asserted) {
      ExactIsInTime(d, b, z.f1, n);
      assert DepOf(0, z.f1) == Dep(true, z.f1, 1);
      LeastForward(r, d, a, b, g, n, z.f1);
    }
  }

  lemma GrowingBackwardProbe(r: Refs, d: int, a: int, b: int, g: int, n: nat)
    requires Scaled(r, d, a, b, g) && d < 0 && 0 < a < b && Ceil(-d, a) < n
    ensures StartProbe(r, n, HasIntegerRatio(-(r.f - r.o), r.s), false, Divides(a, d))
  {
    var z := BRatio(r, 0);
    RatioAtStart(r);
    GoodB(r, d, a, b, g, 0, n);
    DividesNegated(a, d);
    if Found(z, Asserted) {
      ExactIsInTime(-d, a, z.f1, n);
      assert DepOf(z.f1, 0) == Dep(false, z.f1, 1);
      LeastBackward(r, d, a, b, g, n, z.f1);
    }
  }

  lemma DividesNegated(a: int, d: int)
    ensures Divides(a, -d) <==> Divides(a, d)
  {
    if Divides(a, -d) {
      var k: int :| -d == k * a;
      assert d == -k * a;
    }
    if Divides(a, d) {
      var k: int :| d == k * a;
      assert -d == -k * a;
    }
  }

  /** Some iterations in time meet with the follower s iterations later, where the follower starts x places behind and
      takes steps of hi and the leader steps of lo. */
  ghost predicate Coincides(n: nat, x: nat, lo: int, hi: int, s: int)
    requires hi > lo
  {
    Divides(hi - lo, x - s * hi) && var y := (x - s * hi) / (hi - lo); 0 <= y < n && 0 <= y + s < n
  }

  /** The crossing comes, rounded down, before the follower has passed the start of the leader, at a whole number of
      steps: the probe that is not checked takes an iteration before the first for a hit. Negative strides hide the
      sign, so that the hit is as many iterations after the first, and wrong unless others are as far apart. */
  ghost predicate Misfires(n: nat, x: nat, lo: int, hi: int, g: int)
    requires hi > lo > 0
  {
    var l := Floor(x, hi - lo);
    var k := (x - l * hi) / lo;
    l < n && l * hi < x && Divides(lo, l * hi - x) && (g > 0 || (k < n && !Coincides(n, x, lo, hi, l - k)))
  }

  lemma CoincidesByMeeting(n: nat, x: nat, lo: int, hi: int, s: int, y: int)
    requires hi > lo && 0 <= y < n && 0 <= y + s < n && x + y * lo == (y + s) * hi
    ensures Coincides(n, x, lo, hi, s)
  {
    assert x - s * hi == y * (hi - lo);
    ExactQuotient(x - s * hi, y, hi - lo);
  }

  lemma CoincidenceMeets(n: nat, x: nat, lo: int, hi: int, s: int) returns (y: int)
    requires hi > lo && Coincides(n, x, lo, hi, s)
    ensures 0 <= y < n && 0 <= y + s < n && x + y * lo == (y + s) * hi
  {
    y := (x - s * hi) / (hi - lo);
    var k: int :| x - s * hi == k * (hi - lo);
    ExactQuotient(x - s * hi, k, hi - lo);
    assert (y + s) * hi == y * hi + s * hi;
  }

  /** An edge forward by s is real exactly when iterations that far apart meet. */
  lemma ForwardCoincides(r: Refs, d: int, a: int, b: int, g: int, n: nat, k: int, l: int)
    requires Scaled(r, d, a, b, g) && d > 0 && 0 < a < b
    ensures Witnessed(r, n, DepOf(k, l)) <==> Coincides(n, d, a, b, l - k)
  {
    if Witnessed(r, n, DepOf(k, l)) {
      var i, j :| 0 <= i < n && 0 <= j < n && Meets(r, i, j) && DepOf(k, l) == DepOf(i, j);
      MeetsScaled(r, d, a, b, g, i, j);
      CoincidesByMeeting(n, d, a, b, l - k, i);
    }
    if Coincides(n, d, a, b, l - k) {
      var i := CoincidenceMeets(n, d, a, b, l - k);
      MeetsScaled(r, d, a, b, g, i, i + (l - k));
      Witness(r, n, i, i + (l - k));
    }
  }

  lemma BackwardCoincides(r: Refs, d: int, a: int, b: int, g: int, n: nat, l: int, k: int)
    requires Scaled(r, d, a, b, g) && d < 0 && 0 < b < a
    ensures Witnessed(r, n, DepOf(l, k)) <==> Coincides(n, -d, b, a, l - k)
  {
    if Witnessed(r, n, DepOf(l, k)) {
      var i, j :| 0 <= i < n && 0 <= j < n && Meets(r, i, j) && DepOf(l, k) == DepOf(i, j);
      MeetsScaled(r, d, a, b, g, i, j);
      CoincidesByMeeting(n, -d, b, a, l - k, j);
    }
    if Coincides(n, -d, b, a, l - k) {
      var j := CoincidenceMeets(n, -d, b, a, l - k);
      MeetsScaled(r, d, a, b, g, j + (l - k), j);
      Witness(r, n, j + (l - k), j);
    }
  }

  /** What a probe from behind the start finds. */
  lemma ProbeBehind(q: int, e: int, g: int, n: nat)
    requires g != 0 && e > 0 && q < 0
    ensures var z := HasIntegerRatio(q * g, e * g);
      && (Found(z, Unchecked) <==> Divides(e, q))
      && (Found(z, Unchecked) ==> if g > 0 then q == z.f1 * e && z.f1 < 0 else -q == z.f1 * e && z.f1 == -q / e)
  {
    ScaledRatio(q, e, g);
    SignOfProduct(e, g);
    SignOfProduct(q, g);
    var z := HasIntegerRatio(q * g, e * g);
    if Found(z, Unchecked) {
      assert g > 0 ==> z.f2 == 1 && q == z.f1 * e;
      assert g < 0 ==> z.f2 == -1 && -q == z.f1 * e;
      if g < 0 {
        ExactQuotient(-q, z.f1, e);
      } else {
        SignOfProduct(z.f1, e);
      }
    }
  }

  /** An edge that follows from an iteration before the first is longer than any real distance. */
  lemma BogusIsTooLong(d: nat, a: nat, b: nat, l: nat, m: int, i: nat, j: nat)
    requires 0 < a < b && d > 0 && d + i * a == j * b && m < 0 && l * b - d == m * a
    ensures j - i != l - m
  {
    ShrinkingIsBounded(d, a, b, i, j);
    var k: nat := -m;
    assert m * a == -(k * a);
    assert (l + k) * b == l * b + k * a + k * (b - a);
    MulLe(1, k, b - a);
  }

  lemma UncheckedForward(r: Refs, d: int, a: int, b: int, g: int, n: nat)
    requires Scaled(r, d, a, b, g) && d > 0 && 0 < a < b && Floor(d, b - a) < n
    ensures var l := Floor(d, b - a); var z := BRatio(r, l);
      Found(z, Unchecked) && z.f1 < n ==> (Witnessed(r, n, DepOf(z.f1, l)) <==> !Misfires(n, d, a, b, g))
    ensures Misfires(n, d, a, b, g) ==>
      var z := BRatio(r, Floor(d, b - a)); Found(z, Unchecked) && z.f1 < n
  {
    var l := Floor(d, b - a);
    var z := BRatio(r, l);
    GoodB(r, d, a, b, g, l, n);
    BRatioScaled(r, d, a, b, g, l);
    if l * b < d {
      ProbeBehind(l * b - d, a, g, n);
      ForwardCoincides(r, d, a, b, g, n, z.f1, l);
      if Found(z, Unchecked) && g > 0 {
        forall i, j | 0 <= i < n && 0 <= j < n && Meets(r, i, j) ensures DepOf(i, j) != DepOf(z.f1, l) {
          MeetsScaled(r, d, a, b, g, i, j);
          BogusIsTooLong(d, a, b, l, z.f1, i, j);
        }
      }
    }
  }

  lemma UncheckedBackward(r: Refs, d: int, a: int, b: int, g: int, n: nat)
    requires Scaled(r, d, a, b, g) && d < 0 && 0 < b < a && Floor(-d, a - b) < n
    ensures var l := Floor(-d, a - b); var z := NodeRatio(r, l);
      Found(z, Unchecked) && z.f1 < n ==> (Witnessed(r, n, DepOf(l, z.f1)) <==> !Misfires(n, -d, b, a, g))
    ensures Misfires(n, -d, b, a, g) ==>
      var z := NodeRatio(r, Floor(-d, a - b)); Found(z, Unchecked) && z.f1 < n
  {
    var l := Floor(-d, a - b);
    var z := NodeRatio(r, l);
    GoodNode(r, d, a, b, g, l, n);
    NodeRatioScaled(r, d, a, b, g, l);
    if l * a < -d {
      ProbeBehind(d + l * a, b, g, n);
      BackwardCoincides(r, d, a, b, g, n, l, z.f1);
      if Found(z, Unchecked) && g > 0 {
        forall i, j | 0 <= i < n && 0 <= j < n && Meets(r, i, j) ensures DepOf(i, j) != DepOf(l, z.f1) {
          MeetsScaled(r, d, a, b, g, i, j);
          BogusIsTooLong(-d, b, a, l, z.f1, j, i);
        }
      }
    }
  }

  /** The assertion of the second probe fails: node starts behind, and at the iteration after the crossing nodeB would
      have to be a whole number of steps before its first. */
  ghost predicate TowardsTrips(n: nat, d: int, a: int, b: int)
    requires b != a
  {
    var dist := Ceil(Abs(d), Abs(b - a));
    d < 0 && dist < n && Floor(Abs(d), Abs(b - a)) != dist && d + dist * a > 0 && Divides(b, d + dist * a)
  }

  lemma CheckedForward(r: Refs, d: int, a: int, b: int, g: int, n: nat)
    requires Scaled(r, d, a, b, g) && d > 0 && 0 < a < b && Ceil(d, b - a) < n
    ensures var c := Ceil(d, b - a); var z := BRatio(r, c);
      Passes(z, Asserted) && (Found(z, Asserted) && z.f1 < n ==> Witnessed(r, n, DepOf(z.f1, c)))
  {
    ShrinkingPassed(d, a, b);
    GoodB(r, d, a, b, g, Ceil(d, b - a), n);
  }

  lemma CheckedBackward(r: Refs, d: int, a: int, b: int, g: int, n: nat)
    requires Scaled(r, d, a, b, g) && d < 0 && 0 < b < a && Ceil(-d, a - b) < n
    ensures var c := Ceil(-d, a - b); var z := NodeRatio(r, c);
      Passes(z, Asserted) && (Found(z, Asserted) && z.f1 < n ==> Witnessed(r, n, DepOf(c, z.f1)))
  {
    ShrinkingPassed(-d, b, a);
    GoodNode(r, d, a, b, g, Ceil(-d, a - b), n);
  }

  /** In its last iteration the follower has passed the start of the leader. */
  lemma LastIsPassed(d: nat, b: nat, n: nat)
    requires b > 0 && Ceil(d, b) < n
    ensures (n - 1) * b - d >= 0
  {
    FloorCeil(d, b);
    MulLe(Ceil(d, b), n - 1, b);
  }

  lemma LastForward(r: Refs, d: int, a: int, b: int, g: int, n: nat)
    requires Scaled(r, d, a, b, g) && d > 0 && 0 < a < b && Ceil(d, b) < n <= Floor(d, b - a)
    ensures var z := BRatio(r, n - 1);
      Passes(z, Asserted) && (Found(z, Asserted) ==>
        z.f1 < n && Witnessed(r, n, Dep(true, n - 1 - z.f1, 1)) && DepOf(z.f1, n - 1) == Dep(true, n - 1 - z.f1, 1))
  {
    var z := BRatio(r, n - 1);
    LastIsPassed(d, b, n);
    GoodB(r, d, a, b, g, n - 1, n);
    if Found(z, Asserted) {
      ShrinkingLast(d, a, b, n - 1, z.f1);
      assert DepOf(z.f1, n - 1) == Dep(true, n - 1 - z.f1, 1);
    }
  }

  lemma LastBackward(r: Refs, d: int, a: int, b: int, g: int, n: nat)
    requires Scaled(r, d, a, b, g) && d < 0 && 0 < b < a && Ceil(-d, a) < n <= Floor(-d, a - b)
    ensures var z := NodeRatio(r, n - 1);
      Passes(z, Asserted) && (Found(z, Asserted) ==>
        z.f1 < n && Witnessed(r, n, Dep(false, n - 1 - z.f1, 1)) && DepOf(n - 1, z.f1) == Dep(false, n - 1 - z.f1, 1))
  {
    var z := NodeRatio(r, n - 1);
    LastIsPassed(-d, a, n);
    GoodNode(r, d, a, b, g, n - 1, n);
    if Found(z, Asserted) {
      ShrinkingLast(-d, b, a, n - 1, z.f1);
      assert DepOf(n - 1, z.f1) == Dep(false, n - 1 - z.f1, 1);
    }
  }

  lemma TooLate(r: Refs, d: int, a: int, b: int, g: int, n: nat)
    requires Scaled(r, d, a, b, g) && d != 0 && a > 0 && b > 0
    requires n <= if d > 0 then Ceil(d, b) else Ceil(-d, a)
    ensures NoneMeet(r, n)
  {
    forall i, j | 0 <= i < n && 0 <= j < n ensures !Meets(r, i, j) {
      MeetsScaled(r, d, a, b, g, i, j);
      if d > 0 {
        CatchUpLate(d, a, b, n, i, j);
      } else {
        CatchUpLate(-d, b, a, n, j, i);
      }
    }
  }

  /** The leader is the faster. */
  predicate Growing(d: int, a: int, b: int) {
    (d > 0 && a > b > 0) || (d < 0 && 0 < a < b)
  }

  /** The follower is the faster, and the unchecked probe misfires. */
  ghost predicate ShrinkMisfires(n: nat, d: int, a: int, b: int, g: int) {
    (d > 0 && 0 < a < b && Ceil(d, b) < n && Misfires(n, d, a, b, g))
    || (d < 0 && 0 < b < a && Ceil(-d, a) < n && Misfires(n, -d, b, a, g))
  }

  /** When every pair that meets is covered, for different strides of the same sign. */
  ghost predicate SameSignCovers(r: Refs, n: nat, d: int, a: int, b: int, g: int)
    requires a > 0 && b > 0 && a != b
  {
    if Growing(d, a, b) then Divides(if d > 0 then b else a, d) || NoneMeet(r, n)
    else if a < b then d <= 0 || ShrinkCovers(n, d, a, b, g, true)
    else d >= 0 || ShrinkCovers(n, -d, b, a, g, false)
  }

  lemma CoprimeSwaps(a: int, b: int)
    requires Coprime(a, b)
    ensures Coprime(b, a)
  {
    var x, y := CoprimeBezout(a, b);
    var v, w := if a < 0 then -x else x, if b < 0 then -y else y;
    assert x * a == v * Abs(a) && y * b == w * Abs(b);
    UnitCombination(w, Abs(b), v, Abs(a));
  }

  /** The strides and the distance of the starts as multiples of the unit of the strides. */
  lemma Lowest(r: Refs)
    requires r.s != 0 && r.t != 0
    ensures var z, g := HasIntegerRatio(r.s, r.t), Unit(r.s, r.t);
      && z.Ratio? && r.s == z.f1 * g && r.t == z.f2 * g && z.f1 != 0 && z.f2 != 0 && (z.f1 > 0 || z.f2 > 0)
      && (z.f1 < 0 ==> r.t / z.f2 == g) && r.s / z.f1 == g
      && (g < 0 ==> z.f1 > 0 && z.f2 > 0)
      && (r.s == r.t <==> z.f1 == z.f2) && (r.s == r.t ==> z.f1 == 1)
      && z.f1 == r.s / g && z.f2 == r.t / g && Coprime(z.f1, z.f2)
  {
    RatioOf(r.s, r.t);
    var z, g := HasIntegerRatio(r.s, r.t), Unit(r.s, r.t);
    ExactQuotient(r.s, g, z.f1);
    ExactQuotient(r.t, g, z.f2);
    SignOfProduct(z.f1, g);
    SignOfProduct(z.f2, g);
    if r.s == r.t {
      assert Gcd(Abs(r.s), Abs(r.s)) == Gcd(Abs(r.s), 0) == Abs(r.s);
      assert g == r.s;
      ExactQuotient(r.s, 1, g);
    }
  }

  /** The distance of the starts as a multiple of the unit, with the sign moved to the first factor. */
  lemma LowestDistance(r: Refs, g: int)
    requires r.f != r.o && g != 0
    ensures var z := HasIntegerRatio(r.f - r.o, g);
      && z.Ratio? && (z.f2 == 1 || z.f2 == -1 <==> Divides(g, r.f - r.o))
      && (z.f2 == 1 || z.f2 == -1 ==> var d := if z.f2 == -1 then -z.f1 else z.f1;
        r.f - r.o == d * g && d != 0 && (r.f - r.o) / g == d)
  {
    UnitFactor(r.f - r.o, g);
    RatioOf(r.f - r.o, g);
    var z := HasIntegerRatio(r.f - r.o, g);
    if z.f2 == 1 || z.f2 == -1 {
      var d := if z.f2 == -1 then -z.f1 else z.f1;
      assert z.f1 * z.f2 == d;
      ExactQuotient(r.f - r.o, d, g);
    }
  }

  /** Starts that are no multiple of the unit apart keep the references apart. */
  lemma OffTheUnit(r: Refs, g: int, n: nat)
    requires r.s != 0 && r.t != 0 && g == Unit(r.s, r.t) && !Divides(g, r.f - r.o)
    ensures NoneMeet(r, n)
  {
    RatioOf(r.s, r.t);
    var a, b := HasIntegerRatio(r.s, r.t).f1, HasIntegerRatio(r.s, r.t).f2;
    forall i, j | 0 <= i < n && 0 <= j < n ensures !Meets(r, i, j) {
      Factored(j, b, -i, a, g);
      assert -i * (a * g) == -(i * (a * g));
    }
  }

  lemma MovingApart(r: Refs, d: int, a: int, b: int, g: int, n: nat)
    requires Scaled(r, d, a, b, g) && ((d > 0 && a > 0 && b < 0) || (d < 0 && a < 0 && b > 0))
    ensures NoneMeet(r, n)
  {
    forall i, j | 0 <= i < n && 0 <= j < n ensures !Meets(r, i, j) {
      MeetsScaled(r, d, a, b, g, i, j);
      ApartNeverMeet(d, a, b, i, j);
    }
  }

  /** With equal strides every meeting is the distance of the starts apart. */
  lemma EqualStridesMeet(r: Refs, d: int, g: int, n: nat)
    requires Scaled(r, d, 1, 1, g) && d != 0
    ensures forall e :: Witnessed(r, n, e) <==>
      Abs(d) < n && e == if d > 0 then Dep(true, d, 1) else Dep(false, -d, 1)
  {
    forall e | Witnessed(r, n, e)
      ensures Abs(d) < n && e == if d > 0 then Dep(true, d, 1) else Dep(false, -d, 1)
    {
      var i, j :| 0 <= i < n && 0 <= j < n && Meets(r, i, j) && e == DepOf(i, j);
      MeetsScaled(r, d, 1, 1, g, i, j);
    }
    if Abs(d) < n {
      var i, j := if d > 0 then 0 else -d, if d > 0 then d else 0;
      MeetsScaled(r, d, 1, 1, g, i, j);
      Witness(r, n, i, j);
    }
  }

  /** nodeB touches a place in a later iteration than node, with any number of iterations. */
  ghost predicate MeetLater(r: Refs) {
    exists i, j :: 0 <= i < j && Meets(r, i, j)
  }

  /** It does so in the very next of n iterations. */
  ghost predicate MeetNext(r: Refs, n: nat) {
    exists i, j :: 0 <= i < n && j < n && j == i + 1 && Meets(r, i, j)
  }

  /** One edge within the iteration, and one to the next if and only if nodeB ever comes later. */
  ghost predicate EqualBaseEdges(r: Refs, added: set<Dep>) {
    forall e :: e in added <==> e == Dep(false, 0, 0) || (e == Dep(true, 1, 1) && MeetLater(r))
  }

  lemma LaterMeets(r: Refs, a: int, b: int, g: int)
    requires Scaled(r, 0, a, b, g) && a != 0 && b != 0 && (a > 0 || b > 0)
    ensures MeetLater(r) <==> a > b > 0
  {
    if i, j :| 0 <= i < j && Meets(r, i, j) {
      EqualBasesMeet(r, a, b, g, i, j);
    }
    if a > b > 0 {
      MeetsScaled(r, 0, a, b, g, b, a);
      assert Meets(r, b, a);
    }
  }

  lemma EqualBasesMeet(r: Refs, a: int, b: int, g: int, i: nat, j: nat)
    requires Scaled(r, 0, a, b, g) && a != 0 && b != 0 && Meets(r, i, j)
    ensures a == b ==> i == j
    ensures (a > 0) != (b > 0) ==> i == 0 && j == 0
    ensures a > 0 && b > 0 && j > i ==> a > b
  {
    MeetsScaled(r, 0, a, b, g, i, j);
    if a == b {
      SameMultiple(i, j, a);
    } else if (a > 0) != (b > 0) {
      OppositeMultiples(i, j, a, b);
    } else if a > 0 && b > 0 && j > i {
      SlowerIsLater(i, j, a, b);
    }
  }

  lemma SameMultiple(i: int, j: int, a: int)
    requires i * a == j * a && a != 0
    ensures i == j
  {
    NoSmallMultiple(i - j, a);
    assert (i - j) * a == 0;
  }

  lemma OppositeMultiples(i: nat, j: nat, a: int, b: int)
    requires i * a == j * b && a != 0 && b != 0 && (a > 0) != (b > 0)
    ensures i == 0 && j == 0
  {
    NoSmallMultiple(i, a);
    NoSmallMultiple(j, b);
    if i != 0 {
      SignOfProduct(i, a);
      SignOfProduct(j, b);
    }
  }

  lemma SlowerIsLater(i: nat, j: nat, a: nat, b: nat)
    requires i * a == j * b && b > 0 && j > i
    ensures a > b
  {
    MulLe(i + 1, j, b);
    assert (i + 1) * b == i * b + b;
    MulLtBack(b, a, i);
  }

  /** The list of edges has grown by some of them, none of which it holds twice. */
  ghost predicate Grown(was: seq<Dep>, now: seq<Dep>, added: set<Dep>) {
    && was <= now && (Unique(was) ==> Unique(now))
    && forall e :: e in now <==> e in was || e in added
  }

  ghost predicate Unique(l: seq<Dep>) {
    forall i, j | 0 <= i < j < |l| :: l[i] != l[j]
  }

  datatype Outcome = Searched | Apart | Aborted

  class DGBuilder {
    const avgNumIters: nat
    /** The memory dependences between node and nodeB. */
    var deps: seq<Dep>

    constructor (n: nat)
      ensures avgNumIters == n && deps == []
    {
      avgNumIters := n;
      deps := [];
    }

    /** Adds an edge unless there is one like it. */
    method AddUniqueDependency(forward: bool, distance: int, level: int) returns (ghost added: set<Dep>)
      modifies this`deps
      ensures added == {Dep(forward, distance, level)} && Grown(old(deps), deps, added)
    {
      added := {Dep(forward, distance, level)};
      for i := 0 to |deps|
        invariant deps == old(deps) && Dep(forward, distance, level) !in deps[..i]
      {
        if deps[i].forward == forward && deps[i].distance == distance && deps[i].level == level {
          return;
        }
      }
      deps := deps + [Dep(forward, distance, level)];
    }

    method AddMeeting(i: int, j: int) returns (ghost added: set<Dep>)
      modifies this`deps
      ensures added == {DepOf(i, j)} && Grown(old(deps), deps, added)
    {
      if i == j {
        added := AddUniqueDependency(false, 0, 0);
      } else if j < i {
        added := AddUniqueDependency(false, i - j, 1);
      } else {
        added := AddUniqueDependency(true, j - i, 1);
      }
    }

    /** Looks for the iteration of nodeB that touches what node touches in iteration i. */
    method ProbeNode(r: Refs, i: int, check: Check)
      returns (ok: bool, ghost added: set<Dep>)
      modifies this`deps
      ensures Grown(old(deps), deps, added)
      ensures var z := NodeRatio(r, i);
        && (ok <==> Passes(z, check))
        && added == if ok && Found(z, check) && z.f1 < avgNumIters then {DepOf(i, z.f1)} else {}
    {
      var z := HasIntegerRatio(r.f - r.o + r.s * i, r.t);
      ok := true;
      added := {};
      if z.Ratio? && (z.f2 == 1 || z.f2 == -1) && (check.Guarded? ==> z.f1 > 0) {
        if !check.Unchecked? && !(z.f2 == 1 && z.f1 > 0) {
          return false, {};
        }
        if z.f1 < avgNumIters {
          added := AddMeeting(i, z.f1);
        }
      }
    }

    /** Looks for the iteration of node that touches what nodeB touches in iteration j. */
    method ProbeB(r: Refs, j: int, check: Check)
      returns (ok: bool, ghost added: set<Dep>)
      modifies this`deps
      ensures Grown(old(deps), deps, added)
      ensures var z := BRatio(r, j);
        && (ok <==> Passes(z, check))
        && added == if ok && Found(z, check) && z.f1 < avgNumIters then {DepOf(z.f1, j)} else {}
    {
      var z := HasIntegerRatio(r.t * j - (r.f - r.o), r.s);
      ok := true;
      added := {};
      if z.Ratio? && (z.f2 == 1 || z.f2 == -1) && (check.Guarded? ==> z.f1 > 0) {
        if !check.Unchecked? && !(z.f2 == 1 && z.f1 > 0) {
          return false, {};
        }
        if z.f1 < avgNumIters {
          added := AddMeeting(z.f1, j);
        }
      }
    }

    /** Strides of opposite signs, moving towards each other. */
    method Towards(r: Refs, d: int, a: int, b: int, ghost g: int) returns (outcome: Outcome, ghost added: set<Dep>)
      requires Scaled(r, d, a, b, g) && g > 0 && Facing(d, a, b)
      modifies this`deps
      ensures Grown(old(deps), deps, added)
      ensures outcome == Aborted <==> TowardsTrips(avgNumIters, d, a, b)
      ensures outcome == Apart ==> added == {} && NoneMeet(r, avgNumIters)
      ensures forall e | e in added :: Witnessed(r, avgNumIters, e)
      ensures outcome != Aborted ==>
                (Covered(r, avgNumIters, added) <==> FacingCovers(avgNumIters, Abs(d), Abs(a), Abs(b)))
    {
      assert Abs(b - a) == Abs(a) + Abs(b);
      var dist, ldist := Ceil(Abs(d), Abs(b - a)), Floor(Abs(d), Abs(b - a));
      added := {};
      if dist < avgNumIters {
        FirstProbe(r, d, a, b, g, avgNumIters);
        var ok;
        ok, added := ProbeNode(r, ldist, Asserted);
        if ldist != dist {
          SecondProbe(r, d, a, b, g, avgNumIters);
          ghost var more;
          ok, more := ProbeNode(r, dist, Guarded);
          added := added + more;
          if !ok {
            return Aborted, added;
          }
        }
        outcome := Searched;
        TowardsSearched(r, d, a, b, g, avgNumIters, added, dist, ldist);
      } else {
        FarApart(r, d, a, b, g, avgNumIters);
        NothingToCover(r, d, a, b, g, avgNumIters);
        outcome := Apart;
      }
    }

    /** The leader nodeB is the faster follower's target from the start: the distance grows. */
    method GrowingForward(r: Refs, ghost d: int, ghost a: int, ghost b: int, ghost g: int)
      returns (outcome: Outcome, ghost added: set<Dep>)
      requires Scaled(r, d, a, b, g) && d > 0 && a > b > 0 && Ceil(d, b) < avgNumIters
      modifies this`deps
      ensures Grown(old(deps), deps, added) && outcome == Searched
      ensures forall e | e in added :: Witnessed(r, avgNumIters, e)
      ensures Least(r, avgNumIters, added) && (added != {} <==> Divides(b, d))
      ensures Covered(r, avgNumIters, added) <==> Divides(b, d) || NoneMeet(r, avgNumIters)
    {
      GrowingForwardProbe(r, d, a, b, g, avgNumIters);
      var z := HasIntegerRatio(r.f - r.o, r.t);
      added := {};
      if z.Ratio? && (z.f2 == 1 || z.f2 == -1) {
        if !(z.f2 == 1 && z.f1 > 0) || !(z.f1 < avgNumIters) {
          return Aborted, added;
        }
        added := AddUniqueDependency(true, z.f1, 1);
      }
      outcome := Searched;
      GrowingCovered(r, avgNumIters, added);
    }

    method GrowingBackward(r: Refs, ghost d: int, ghost a: int, ghost b: int, ghost g: int)
      returns (outcome: Outcome, ghost added: set<Dep>)
      requires Scaled(r, d, a, b, g) && d < 0 && 0 < a < b && Ceil(-d, a) < avgNumIters
      modifies this`deps
      ensures Grown(old(deps), deps, added) && outcome == Searched
      ensures forall e | e in added :: Witnessed(r, avgNumIters, e)
      ensures Least(r, avgNumIters, added) && (added != {} <==> Divides(a, d))
      ensures Covered(r, avgNumIters, added) <==> Divides(a, d) || NoneMeet(r, avgNumIters)
    {
      GrowingBackwardProbe(r, d, a, b, g, avgNumIters);
      var z := HasIntegerRatio(-(r.f - r.o), r.s);
      added := {};
      if z.Ratio? && (z.f2 == 1 || z.f2 == -1) {
        if !(z.f2 == 1 && z.f1 > 0) {
          return Aborted, added;
        }
        added := AddUniqueDependency(false, z.f1, 1);
      }
      outcome := Searched;
      GrowingCovered(r, avgNumIters, added);
    }

    /** The follower nodeB is the faster: the distance shrinks to the crossing and may change direction there. */
    method ShrinkingForward(r: Refs, d: int, a: int, b: int, ghost g: int)
      returns (outcome: Outcome, ghost added: set<Dep>)
      requires Scaled(r, d, a, b, g) && d > 0 && 0 < a < b && Coprime(a, b) && Ceil(d, b) < avgNumIters
      modifies this`deps
      ensures Grown(old(deps), deps, added) && outcome == Searched
      ensures (forall e | e in added :: Witnessed(r, avgNumIters, e)) <==> !Misfires(avgNumIters, d, a, b, g)
      ensures Covered(r, avgNumIters, added) <==> ShrinkCovers(avgNumIters, d, a, b, g, true)
    {
      var n := avgNumIters;
      var dist, ldist := Ceil(d, b - a), Floor(d, b - a);
      added := {};
      outcome := Searched;
      if ldist < n {
        UncheckedForward(r, d, a, b, g, n);
        var ok;
        ok, added := ProbeB(r, ldist, Unchecked);
        if ldist != dist && dist < n {
          CheckedForward(r, d, a, b, g, n);
          ghost var more;
          ok, more := ProbeB(r, dist, Asserted);
          added := added + more;
          if !ok {
            outcome := Aborted;
          }
        }
      } else {
        LastForward(r, d, a, b, g, n);
        var z := HasIntegerRatio(r.t * (n - 1) - (r.f - r.o), r.s);
        if z.Ratio? && (z.f2 == 1 || z.f2 == -1) {
          if !(z.f2 == 1 && z.f1 > 0) || !(z.f1 < n) {
            return Aborted, added;
          }
          added := AddUniqueDependency(true, n - z.f1 - 1, 1);
        }
      }
      ForwardEdges(r, d, a, b, g, n, added);
      ForwardCovered(r, d, a, b, g, n, added);
    }

    method ShrinkingBackward(r: Refs, d: int, a: int, b: int, ghost g: int)
      returns (outcome: Outcome, ghost added: set<Dep>)
      requires Scaled(r, d, a, b, g) && d < 0 && 0 < b < a && Coprime(b, a) && Ceil(-d, a) < avgNumIters
      modifies this`deps
      ensures Grown(old(deps), deps, added) && outcome == Searched
      ensures (forall e | e in added :: Witnessed(r, avgNumIters, e)) <==> !Misfires(avgNumIters, -d, b, a, g)
      ensures Covered(r, avgNumIters, added) <==> ShrinkCovers(avgNumIters, -d, b, a, g, false)
    {
      var n := avgNumIters;
      var dist, ldist := Ceil(-d, a - b), Floor(-d, a - b);
      added := {};
      outcome := Searched;
      if ldist < n {
        UncheckedBackward(r, d, a, b, g, n);
        var ok;
        ok, added := ProbeNode(r, ldist, Unchecked);
        if ldist != dist && dist < n {
          CheckedBackward(r, d, a, b, g, n);
          ghost var more;
          ok, more := ProbeNode(r, dist, Asserted);
          added := added + more;
          if !ok {
            outcome := Aborted;
          }
        }
      } else {
        LastBackward(r, d, a, b, g, n);
        var z := HasIntegerRatio(r.f - r.o + r.s * (n - 1), r.t);
        if z.Ratio? && (z.f2 == 1 || z.f2 == -1) {
          if !(z.f2 == 1 && z.f1 > 0) || !(z.f1 < n) {
            return Aborted, added;
          }
          added := AddUniqueDependency(false, n - 1 - z.f1, 1);
        }
      }
      BackwardEdges(r, d, a, b, g, n, added);
      BackwardCovered(r, d, a, b, g, n, added);
    }

    /** Different strides of the same sign. */
    method SameSign(r: Refs, d: int, a: int, b: int, ghost g: int) returns (outcome: Outcome, ghost added: set<Dep>)
      requires Scaled(r, d, a, b, g) && d != 0 && a > 0 && b > 0 && a != b && Coprime(a, b)
      modifies this`deps
      ensures Grown(old(deps), deps, added) && outcome != Aborted
      ensures outcome == Apart ==> added == {} && NoneMeet(r, avgNumIters)
      ensures (forall e | e in added :: Witnessed(r, avgNumIters, e)) <==> !ShrinkMisfires(avgNumIters, d, a, b, g)
      ensures Growing(d, a, b) && outcome == Searched ==>
        Least(r, avgNumIters, added) && (added != {} <==> Divides(if d > 0 then b else a, d))
      ensures Covered(r, avgNumIters, added) <==> SameSignCovers(r, avgNumIters, d, a, b, g)
    {
      var dist := if d > 0 then Ceil(d, b) else Ceil(-d, a);
      if dist >= avgNumIters {
        TooLate(r, d, a, b, g, avgNumIters);
        NothingToCover(r, d, a, b, g, avgNumIters);
        if d < 0 && 0 < b < a {
          NothingBehind(r, d, a, b, g, avgNumIters);
        }
        return Apart, {};
      }
      if d > 0 && a > b {
        outcome, added := GrowingForward(r, d, a, b, g);
      } else if d < 0 && a < b {
        outcome, added := GrowingBackward(r, d, a, b, g);
      } else if d > 0 && a < b {
        outcome, added := ShrinkingForward(r, d, a, b, g);
      } else {
        CoprimeSwaps(a, b);
        outcome, added := ShrinkingBackward(r, d, a, b, g);
      }
    }

    /** Equal starts: ordered by an edge within the iteration and, when node moves faster, one to the next. */
    method EqualBases(r: Refs, a: int, b: int, ghost g: int) returns (outcome: Outcome, ghost added: set<Dep>)
      requires Scaled(r, 0, a, b, g) && a != 0 && b != 0 && (a > 0 || b > 0)
      modifies this`deps
      ensures Grown(old(deps), deps, added) && outcome == Searched
      ensures Covered(r, avgNumIters, added)
      ensures EqualBaseEdges(r, added)
    {
      LaterMeets(r, a, b, g);
      outcome := Searched;
      if a == b {
        added := AddUniqueDependency(false, 0, 0);
      } else if (a > 0 && b < 0) || (a < 0 && b > 0) {
        added := AddUniqueDependency(false, 0, 0);
      } else {
        if !(a > 0 && b > 0) {
          return Aborted, {};
        }
        added := AddUniqueDependency(false, 0, 0);
        if a > b {
          ghost var more := AddUniqueDependency(true, 1, 1);
          added := added + more;
        }
      }
      forall i, j | 0 <= i < avgNumIters && 0 <= j < avgNumIters && Meets(r, i, j)
        ensures exists e | e in added :: e.forward == (j > i) && e.distance <= Abs(i - j)
      {
        EqualBasesMeet(r, a, b, g, i, j);
        assert Dep(if j > i then true else false, if j > i then 1 else 0, if j > i then 1 else 0) in added;
      }
    }

    /** Equal strides, different starts. */
    method EqualStrides(r: Refs, d: int, a: int, ghost g: int) returns (outcome: Outcome, ghost added: set<Dep>)
      requires Scaled(r, d, a, a, g) && a == 1 && d != 0
      modifies this`deps
      ensures Grown(old(deps), deps, added) && outcome == Searched
      ensures forall e :: e in added <==> Witnessed(r, avgNumIters, e)
    {
      EqualStridesMeet(r, d, g, avgNumIters);
      outcome := Searched;
      added := {};
      if Abs(d) % Abs(a) == 0 {
        var dist := d / a;
        if dist > 0 {
          if dist < avgNumIters {
            added := AddUniqueDependency(true, dist, 1);
          }
        } else {
          if !(dist < 0) {
            return Aborted, {};
          }
          if -dist < avgNumIters {
            added := AddUniqueDependency(false, -dist, 1);
          }
        }
      }
    }

    /** Different starts. */
    method DifferentBases(r: Refs, a: int, b: int) returns (outcome: Outcome, ghost added: set<Dep>)
      requires Proper(r) && HasIntegerRatio(r.s, r.t) == Ratio(a, b)
      modifies this`deps
      ensures Grown(old(deps), deps, added)
      ensures outcome == Apart ==> added == {} && NoneMeet(r, avgNumIters)
      ensures a == b ==> forall e :: e in added <==> Witnessed(r, avgNumIters, e)
      ensures outcome == Aborted <==> Trips(r, avgNumIters)
      ensures (forall e | e in added :: Witnessed(r, avgNumIters, e)) <==> !MisfiresOn(r, avgNumIters)
      ensures GrowsOn(r) && outcome == Searched ==> Least(r, avgNumIters, added) && (added != {} <==> StartMeets(r))
      ensures outcome != Aborted ==> (Covered(r, avgNumIters, added) <==> CoversOn(r, avgNumIters))
    {
      Lowest(r);
      ghost var g := Unit(r.s, r.t);
      var gcdStride := if a < 0 then r.t / b else r.s / a;
      assert gcdStride == g;
      LowestDistance(r, g);
      var z := HasIntegerRatio(r.f - r.o, gcdStride);
      if z.Ratio? && (z.f2 == 1 || z.f2 == -1) {
        var d := if z.f2 == -1 then -z.f1 else z.f1;
        assert LowestTerms(r) == Terms(d, a, b) && Scaled(r, d, a, b, g);
        if a == b {
          outcome, added := EqualStrides(r, d, a, g);
          ExactlyCovered(r, avgNumIters, added);
        } else if !((d > 0 && a >= 0 && b <= 0) || (d < 0 && a <= 0 && b >= 0)) {
          if (a > 0 && b < 0) || (a < 0 && b > 0) {
            outcome, added := Towards(r, d, a, b, g);
          } else {
            outcome, added := SameSign(r, d, a, b, g);
          }
        } else {
          MovingApart(r, d, a, b, g, avgNumIters);
          outcome, added := Apart, {};
        }
      } else {
        OffTheUnit(r, g, avgNumIters);
        outcome, added := Apart, {};
      }
    }

    /** Two array references, neither of them with a zero stride, in a loop of more than one iteration. */
    method ArrayDependences(r: Refs) returns (outcome: Outcome, ghost added: set<Dep>)
      requires r.s != 0 && r.t != 0 && avgNumIters > 1
      modifies this`deps
      ensures Grown(old(deps), deps, added)
      ensures outcome == Apart ==> added == {} && NoneMeet(r, avgNumIters)
      ensures r.s == r.t ==> forall e :: e in added <==> Witnessed(r, avgNumIters, e)
      ensures r.f == r.o ==> outcome == Searched && Covered(r, avgNumIters, added) && EqualBaseEdges(r, added)
      ensures r.f == r.o && (r.s > 0) != (r.t > 0) ==> forall e :: e in added <==> Witnessed(r, avgNumIters, e)
      ensures r.f == r.o ==> ((forall e | e in added :: Witnessed(r, avgNumIters, e)) <==>
                              (MeetLater(r) ==> MeetNext(r, avgNumIters)))
      ensures r.f != r.o ==> (outcome == Aborted <==> Trips(r, avgNumIters))
      ensures r.f != r.o ==> ((forall e | e in added :: Witnessed(r, avgNumIters, e)) <==> !MisfiresOn(r, avgNumIters))
      ensures r.f != r.o && GrowsOn(r) && outcome == Searched ==>
        Least(r, avgNumIters, added) && (added != {} <==> StartMeets(r))
      ensures r.f != r.o && outcome != Aborted ==> (Covered(r, avgNumIters, added) <==> CoversOn(r, avgNumIters))
    {
      Lowest(r);
      var z := HasIntegerRatio(r.s, r.t);
      if r.f - r.o == 0 {
        ghost var g := Unit(r.s, r.t);
        outcome, added := EqualBases(r, z.f1, z.f2, g);
        EqualBasesExact(r, z.f1, z.f2, g, avgNumIters, added);
        SignsOfFactors(r, z.f1, z.f2, g);
      } else {
        outcome, added := DifferentBases(r, z.f1, z.f2);
      }
    }
  }

  /** Which of the edges for equal starts are real: the one within the iteration always is, by the first iteration,
      and the one to the next is when some iteration meets the next one. */
  lemma EqualBasesExact(r: Refs, a: int, b: int, g: int, n: nat, added: set<Dep>)
    requires Scaled(r, 0, a, b, g) && a != 0 && b != 0 && (a > 0 || b > 0) && n > 0 && EqualBaseEdges(r, added)
    ensures a == b || (a > 0) != (b > 0) ==> forall e :: e in added <==> Witnessed(r, n, e)
    ensures (forall e | e in added :: Witnessed(r, n, e)) <==> (MeetLater(r) ==> MeetNext(r, n))
  {
    LaterMeets(r, a, b, g);
    MeetsScaled(r, 0, a, b, g, 0, 0);
    Witness(r, n, 0, 0);
    NextWitness(r, n);
    if a == b || (a > 0) != (b > 0) {
      forall e | Witnessed(r, n, e) ensures e == Dep(false, 0, 0) {
        var i, j :| 0 <= i < n && 0 <= j < n && Meets(r, i, j) && e == DepOf(i, j);
        EqualBasesMeet(r, a, b, g, i, j);
      }
    }
  }

  lemma NextWitness(r: Refs, n: nat)
    ensures Witnessed(r, n, Dep(true, 1, 1)) <==> MeetNext(r, n)
  {
    if i, j :| 0 <= i < n && 0 <= j < n && Meets(r, i, j) && Dep(true, 1, 1) == DepOf(i, j) {
      assert j == i + 1;
    }
    if i, j :| 0 <= i < n && j < n && j == i + 1 && Meets(r, i, j) {
      Witness(r, n, i, j);
    }
  }

  lemma SignsOfFactors(r: Refs, a: int, b: int, g: int)
    requires Scaled(r, 0, a, b, g) && a != 0 && b != 0
    ensures (r.s > 0) != (r.t > 0) ==> (a > 0) != (b > 0)
  {
    if (a > 0) == (b > 0) {
      assert (a * g > 0) == (b * g > 0);
    }
  }

  /** The strides, and the distance of the starts, as multiples of the unit of the strides. */
  datatype Terms = OffUnit | Terms(d: int, a: int, b: int)

  function LowestTerms(r: Refs): Terms
    requires r.s != 0 && r.t != 0
  {
    var z := HasIntegerRatio(r.s, r.t);
    var zd := HasIntegerRatio(r.f - r.o, Unit(r.s, r.t));
    if z.Ratio? && zd.Ratio? && (zd.f2 == 1 || zd.f2 == -1)
    then Terms(if zd.f2 == -1 then -zd.f1 else zd.f1, z.f1, z.f2) else OffUnit
  }

  predicate Proper(r: Refs) {
    r.s != 0 && r.t != 0 && r.f != r.o
  }

  ghost predicate Trips(r: Refs, n: nat)
    requires Proper(r)
  {
    var k := LowestTerms(r);
    k.Terms? && Facing(k.d, k.a, k.b) && TowardsTrips(n, k.d, k.a, k.b)
  }

  ghost predicate MisfiresOn(r: Refs, n: nat)
    requires Proper(r)
  {
    var k := LowestTerms(r);
    k.Terms? && ShrinkMisfires(n, k.d, k.a, k.b, Unit(r.s, r.t))
  }

  predicate GrowsOn(r: Refs)
    requires Proper(r)
  {
    var k := LowestTerms(r);
    k.Terms? && Growing(k.d, k.a, k.b)
  }

  /** The start of the leader is a whole number of steps of the follower away. */
  ghost predicate StartMeets(r: Refs)
    requires Proper(r) && GrowsOn(r)
  {
    var k := LowestTerms(r);
    Divides(if k.d > 0 then k.b else k.a, k.d)
  }

  /** When every pair of iterations that meets is covered by an edge, branch by branch. */
  ghost predicate CoversOn(r: Refs, n: nat)
    requires Proper(r)
  {
    var k := LowestTerms(r);
    k.Terms? && k.a != k.b ==>
      && (Facing(k.d, k.a, k.b) ==> FacingCovers(n, Abs(k.d), Abs(k.a), Abs(k.b)))
      && (k.a > 0 && k.b > 0 ==> SameSignCovers(r, n, k.d, k.a, k.b, Unit(r.s, r.t)))
  }

  /** The early exit: equal strides, different starts, and a distance that is in no ratio to the stride. */
  predicate EarlyReturn(r: Refs) {
    r.s - r.t == 0 && r.f - r.o != 0 && (r.s == 0 || HasIntegerRatio(r.f - r.o, r.s) == None)
  }

  /** It is taken for zero strides only: any two other constants are in an integer ratio, multiples or not. */
  lemma EarlyReturnIsRight(r: Refs, n: nat)
    ensures EarlyReturn(r) <==> r.s == 0 && r.t == 0 && r.f != r.o
    ensures EarlyReturn(r) ==> NoneMeet(r, n)
  {
  }

  /** An assertion that fails: node starts one place behind with stride 2, nodeB moves towards it with stride -1. */
  lemma TripsExample()
    ensures var r := Refs(-1, 2, 0, -1); Proper(r) && Trips(r, 2)
  {
    var r := Refs(-1, 2, 0, -1);
    assert Gcd(2, 1) == Gcd(1, 0) == 1;
    assert Gcd(1, 1) == Gcd(1, 0) == 1;
    assert LowestTerms(r) == Terms(-1, 2, -1);
    assert 1 == (-1) * -1;
    assert Divides(-1, 1);
  }

  /** An edge between references that never meet, from an iteration before the first. */
  lemma MisfireExample()
    ensures var r := Refs(2, 1, 0, 4); Proper(r) && MisfiresOn(r, 2) && NoneMeet(r, 2)
  {
    var r := Refs(2, 1, 0, 4);
    assert Gcd(1, 4) == Gcd(4, 1) == Gcd(1, 0) == 1;
    assert Gcd(2, 1) == Gcd(1, 0) == 1;
    assert LowestTerms(r) == Terms(2, 1, 4);
    assert -2 == (-2) * 1;
    assert Divides(1, 0 * 4 - 2);
  }

  /** An edge is missing where growing distances are not met at the start: iterations 1 and 2 meet. */
  lemma MissedExample()
    ensures var r := Refs(1, 3, 0, 2);
      && Proper(r) && !Trips(r, 3) && Meets(r, 1, 2)
      && GrowsOn(r) && !StartMeets(r) && !CoversOn(r, 3)
  {
    var r := Refs(1, 3, 0, 2);
    assert Gcd(3, 2) == Gcd(2, 1) == Gcd(1, 0) == 1;
    assert Gcd(1, 1) == Gcd(1, 0) == 1;
    assert LowestTerms(r) == Terms(1, 3, 2);
    assert !SameSignCovers(r, 3, 1, 3, 2, 1) by {
      assert Meets(r, 1, 2);
    }
  }

  /** The search goes through and adds no edge at all. */
  method MissedRun(builder: DGBuilder) returns (outcome: Outcome, ghost added: set<Dep>)
    requires builder.avgNumIters == 3
    modifies builder`deps
    ensures outcome == Searched && added == {} && Grown(old(builder.deps), builder.deps, {})
    ensures Meets(Refs(1, 3, 0, 2), 1, 2) && !Covered(Refs(1, 3, 0, 2), 3, added)
  {
    var r := Refs(1, 3, 0, 2);
    MissedExample();
    assert 0 <= 1 < 3 && 0 <= 2 < 3 && Meets(r, 1, 2);
    outcome, added := builder.ArrayDependences(r);
  }

  /** Another is missing where the first iteration of nodeB is met: a difference of zero is in no ratio to a stride. */
  lemma MissedFirstExample()
    ensures var r := Refs(1, -1, 0, 1); Proper(r) && !Trips(r, 2) && Meets(r, 1, 0) && !CoversOn(r, 2)
  {
    var r := Refs(1, -1, 0, 1);
    assert Gcd(1, 1) == Gcd(1, 0) == 1;
    assert Unit(-1, 1) == 1 && HasIntegerRatio(-1, 1) == Ratio(-1, 1) && HasIntegerRatio(1, 1) == Ratio(1, 1);
    assert LowestTerms(r) == Terms(1, -1, 1);
    assert Floor(1, 2) == 0 && Ceil(1, 2) == 1;
    FirstIsMissed(2, 1, 1, 1);
  }

  /** A meeting in the first iteration of nodeB, right after the crossing, is missed. */
  lemma FirstIsMissed(n: nat, x: nat, p: int, q: int)
    requires p > 0 && q > 0 && x == Ceil(x, p + q) * p && Floor(x, p + q) != Ceil(x, p + q) < n
    ensures !FacingCovers(n, x, p, q)
  {
    var c := Ceil(x, p + q);
    assert 0 <= c < n && 0 <= 0 < n && FaceAt(x, p, q, c, 0);
    assert !FaceEmpty(n, x, p, q, false);
  }
}
