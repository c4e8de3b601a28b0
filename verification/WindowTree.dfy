/** Traces of memory accesses, their split into samples, and their footprints. */
module Traces {

  datatype Access = Access(addr: nat, kind: nat, extraFrameLds: nat, sampleID: nat)

  /** The metric that counts extra frame loads; the kinds of instructions are others. */
  const CONSTANT: nat := 0

  function Concat<T>(l: seq<seq<T>>): seq<T> {
    if l == [] then [] else l[0] + Concat(l[1..])
  }

  lemma {:induction false} ConcatSum<T>(l: seq<seq<T>>, m: seq<seq<T>>)
    ensures Concat(l + m) == Concat(l) + Concat(m)
  {
    if l == [] {
      assert l + m == m;
    } else {
      assert (l + m)[1..] == l[1..] + m;
      ConcatSum(l[1..], m);
    }
  }

  lemma ConcatOne<T>(x: seq<T>)
    ensures Concat([x]) == x
  {
    assert [x][1..] == [];
  }

  /** The maximal runs of equal sample ids. */
  function Samples(s: seq<Access>): (r: seq<seq<Access>>)
    ensures s != [] ==> r != []
  {
    if s == [] then [] else
      var rest, x := s[..|s| - 1], s[|s| - 1];
      var r := Samples(rest);
      if rest == [] || rest[|rest| - 1].sampleID != x.sampleID then r + [[x]]
      else r[..|r| - 1] + [r[|r| - 1] + [x]]
  }

  ghost predicate Uniform(s: seq<Access>) {
    s != [] && forall k | 0 <= k < |s| :: s[k].sampleID == s[0].sampleID
  }

  /** The samples lose nothing, are uniform, and cannot be joined. */
  lemma {:induction false} SamplesAreRuns(s: seq<Access>)
    ensures var r := Samples(s);
      && Concat(r) == s
      && (forall k | 0 <= k < |r| :: Uniform(r[k]))
      && (forall k | 0 < k < |r| :: r[k - 1][0].sampleID != r[k][0].sampleID)
      && (s != [] ==> r[|r| - 1][0].sampleID == s[|s| - 1].sampleID)
  {
    if s != [] {
      var rest, x := s[..|s| - 1], s[|s| - 1];
      assert s == rest + [x];
      var r := Samples(rest);
      SamplesAreRuns(rest);
      if rest == [] || rest[|rest| - 1].sampleID != x.sampleID {
        ConcatSum(r, [[x]]);
        ConcatOne([x]);
      } else {
        assert r == r[..|r| - 1] + [r[|r| - 1]];
        LastRunGrows(r[..|r| - 1], r[|r| - 1], x);
      }
    }
  }

  lemma LastRunGrows(front: seq<seq<Access>>, last: seq<Access>, x: Access)
    requires Uniform(last) && last[0].sampleID == x.sampleID
    ensures Concat(front + [last + [x]]) == Concat(front + [last]) + [x]
    ensures Uniform(last + [x]) && (last + [x])[0] == last[0]
  {
    ConcatSum(front, [last]);
    ConcatSum(front, [last + [x]]);
    ConcatOne(last);
    ConcatOne(last + [x]);
  }

  /** The (address, metric) pairs of an access, as often as they are counted. */
  function Counts(a: Access, frames: bool): multiset<(nat, nat)> {
    if frames then multiset{(a.addr, a.kind)} + multiset{}[(a.addr, CONSTANT) := a.extraFrameLds]
    else multiset{(a.addr, a.kind)}
  }

  /** The footprint of a trace, with or without extra frame loads. */
  function Tally(s: seq<Access>, frames: bool): multiset<(nat, nat)> {
    if s == [] then multiset{} else Tally(s[..|s| - 1], frames) + Counts(s[|s| - 1], frames)
  }

  lemma {:induction false} TallySum(s: seq<Access>, t: seq<Access>, frames: bool)
    ensures Tally(s + t, frames) == Tally(s, frames) + Tally(t, frames)
    decreases |t|
  {
    if t == [] {
      assert s + t == s;
    } else {
      assert (s + t)[..|s + t| - 1] == s + t[..|t| - 1];
      TallySum(s, t[..|t| - 1], frames);
    }
  }

  // ----- What a footprint counts -----

  /** The accesses of one kind to an address, by their places in the trace. */
  ghost function Places(s: seq<Access>, a: nat, m: nat): set<nat> {
    set k: nat | k < |s| && s[k].addr == a && s[k].kind == m
  }

  /** The extra frame loads that come with the accesses to an address. */
  function FrameLoads(s: seq<Access>, a: nat): nat {
    if s == [] then 0
    else FrameLoads(s[..|s| - 1], a) + if s[|s| - 1].addr == a then s[|s| - 1].extraFrameLds else 0
  }

  /** How often a metric has to be counted for an address: once for each access of that kind, and for the extra frame
      loads as many times as there are. */
  ghost function Metric(s: seq<Access>, a: nat, m: nat, frames: bool): nat {
    |Places(s, a, m)| + if frames && m == CONSTANT then FrameLoads(s, a) else 0
  }

  lemma MetricMore(s: seq<Access>, x: Access, a: nat, m: nat, frames: bool)
    ensures Metric(s + [x], a, m, frames) == Metric(s, a, m, frames) + Counts(x, frames)[(a, m)]
  {
    var here: set<nat> := if x.addr == a && x.kind == m then {|s|} else {};
    assert Places(s + [x], a, m) == Places(s, a, m) + here && |s| !in Places(s, a, m);
    assert (s + [x])[..|s + [x]| - 1] == s;
  }

  lemma {:induction false} TallyMetric(s: seq<Access>, a: nat, m: nat, frames: bool)
    ensures Tally(s, frames)[(a, m)] == Metric(s, a, m, frames)
  {
    if s == [] {
      assert Places(s, a, m) == {};
    } else {
      assert s == s[..|s| - 1] + [s[|s| - 1]];
      TallyMetric(s[..|s| - 1], a, m, frames);
      MetricMore(s[..|s| - 1], s[|s| - 1], a, m, frames);
    }
  }

  lemma TallyMetrics(s: seq<Access>, frames: bool)
    ensures forall a: nat, m: nat :: Tally(s, frames)[(a, m)] == Metric(s, a, m, frames)
  {
    forall a: nat, m: nat ensures Tally(s, frames)[(a, m)] == Metric(s, a, m, frames) {
      TallyMetric(s, a, m, frames);
    }
  }

  // ----- The keys of a footprint -----

  ghost predicate HasAddress(s: seq<Access>, a: nat) {
    exists k :: 0 <= k < |s| && s[k].addr == a
  }

  /** An address is a key of a footprint when some metric is counted for it. */
  ghost predicate HasKey(fp: multiset<(nat, nat)>, a: nat) {
    exists m: nat :: (a, m) in fp
  }

  /** The keys of a footprint are the addresses of the trace. */
  ghost predicate KeysOf(fp: multiset<(nat, nat)>, s: seq<Access>) {
    forall a: nat :: HasKey(fp, a) <==> HasAddress(s, a)
  }

  lemma KeyOfSum(fp: multiset<(nat, nat)>, fq: multiset<(nat, nat)>, a: nat)
    ensures HasKey(fp + fq, a) <==> HasKey(fp, a) || HasKey(fq, a)
  {
    if HasKey(fp + fq, a) {
      var m: nat :| (a, m) in fp + fq;
      assert (a, m) in fp || (a, m) in fq;
    }
    if HasKey(fp, a) {
      var m: nat :| (a, m) in fp;
      assert (a, m) in fp + fq;
    }
    if HasKey(fq, a) {
      var m: nat :| (a, m) in fq;
      assert (a, m) in fp + fq;
    }
  }

  lemma AddressOfSum(s: seq<Access>, t: seq<Access>, a: nat)
    ensures HasAddress(s + t, a) <==> HasAddress(s, a) || HasAddress(t, a)
  {
    if HasAddress(s, a) {
      var k :| 0 <= k < |s| && s[k].addr == a;
      assert (s + t)[k].addr == a;
    }
    if HasAddress(t, a) {
      var k :| 0 <= k < |t| && t[k].addr == a;
      assert (s + t)[|s| + k].addr == a;
    }
    if HasAddress(s + t, a) {
      var k :| 0 <= k < |s + t| && (s + t)[k].addr == a;
      assert if k < |s| then s[k].addr == a else t[k - |s|].addr == a;
    }
  }

  lemma KeysSum(fp: multiset<(nat, nat)>, s: seq<Access>, fq: multiset<(nat, nat)>, t: seq<Access>)
    requires KeysOf(fp, s) && KeysOf(fq, t)
    ensures KeysOf(fp + fq, s + t)
  {
    forall a: nat ensures HasKey(fp + fq, a) <==> HasAddress(s + t, a) {
      KeyOfSum(fp, fq, a);
      AddressOfSum(s, t, a);
    }
  }

  lemma CountsKeys(x: Access, frames: bool)
    ensures KeysOf(Counts(x, frames), [x])
  {
    assert (x.addr, x.kind) in Counts(x, frames);
    assert [x][0].addr == x.addr;
    forall a: nat, m: nat | (a, m) in Counts(x, frames) ensures a == x.addr {
    }
  }

  lemma {:induction false} TallyKeys(s: seq<Access>, frames: bool)
    ensures KeysOf(Tally(s, frames), s)
  {
    if s != [] {
      var x := s[|s| - 1];
      TallyKeys(s[..|s| - 1], frames);
      CountsKeys(x, frames);
      KeysSum(Tally(s[..|s| - 1], frames), s[..|s| - 1], Counts(x, frames), [x]);
      assert s == s[..|s| - 1] + [x];
    }
  }

  /** The footprint of a window over two: the left trace is counted again, unless it is empty the right counts are
      added. */
  function JoinedMap(s: seq<Access>, fq: multiset<(nat, nat)>, t: seq<Access>): multiset<(nat, nat)> {
    if s == [] then Tally(t, false) else Tally(s, false) + fq
  }

  lemma TallyNonEmpty(s: seq<Access>)
    ensures Tally(s, false) == multiset{} <==> s == []
  {
    if s != [] {
      var x := s[|s| - 1];
      assert (x.addr, x.kind) in Counts(x, false);
      assert (x.addr, x.kind) in Tally(s, false);
    }
  }

  /** The counts of a window that takes in another: both traces counted again, without extra frame loads, when nothing
      was counted before, and else the counts added. */
  function Merged(fp: multiset<(nat, nat)>, s: seq<Access>, fq: multiset<(nat, nat)>, t: seq<Access>)
    : multiset<(nat, nat)>
  {
    if fp == multiset{} then Tally(s, false) + Tally(t, false) else fp + fq
  }

  lemma MergedTwice(fp: multiset<(nat, nat)>, s: seq<Access>, fq: multiset<(nat, nat)>, t: seq<Access>)
    ensures Merged(multiset{}, [], fp, s) == Tally(s, false)
    ensures Merged(Tally(s, false), s, fq, t) == JoinedMap(s, fq, t)
  {
    TallyNonEmpty(s);
  }

  predicate NoFrameLoads(s: seq<Access>) {
    forall x | x in s :: x.extraFrameLds == 0
  }

  function ExtraLoads(s: seq<Access>): nat {
    if s == [] then 0 else ExtraLoads(s[..|s| - 1]) + s[|s| - 1].extraFrameLds
  }

  lemma {:induction false} TallySize(s: seq<Access>)
    ensures |Tally(s, true)| == |Tally(s, false)| + ExtraLoads(s) && Tally(s, false) <= Tally(s, true)
    ensures ExtraLoads(s) == 0 <==> NoFrameLoads(s)
  {
    if s != [] {
      TallySize(s[..|s| - 1]);
      NoFramesBefore(s[..|s| - 1], s[|s| - 1]);
      assert s == s[..|s| - 1] + [s[|s| - 1]];
    }
  }

  lemma NoFramesBefore(s: seq<Access>, x: Access)
    ensures NoFrameLoads(s + [x]) <==> NoFrameLoads(s) && x.extraFrameLds == 0
  {
    assert forall y :: y in s + [x] <==> y in s || y == x;
  }

  /** Counting extra frame loads makes no difference exactly when there are none. */
  lemma {:induction false} NoFrames(s: seq<Access>)
    ensures Tally(s, true) == Tally(s, false) <==> NoFrameLoads(s)
  {
    if s != [] {
      var t, x := s[..|s| - 1], s[|s| - 1];
      assert s == t + [x];
      NoFrames(t);
      TallySize(s);
      if NoFrameLoads(s) {
        assert x in s && forall y | y in t :: y in s;
      }
    }
  }

  /** Counts that leave out the frame loads of s and may leave out some of t are right about the accesses when nothing
      more is counted for t, and right about all loads when s has no others and all of t are counted. */
  lemma PartlyCounted(s: seq<Access>, fq: multiset<(nat, nat)>, t: seq<Access>)
    requires Tally(t, false) <= fq <= Tally(t, true)
    ensures Tally(s, false) + fq == Tally(s + t, false) <==> fq == Tally(t, false)
    ensures Tally(s, false) + fq == Tally(s + t, true) <==> NoFrameLoads(s) && fq == Tally(t, true)
  {
    TallySum(s, t, false);
    TallySum(s, t, true);
    Cancels(Tally(s, false), fq, Tally(t, false));
    TallySize(s);
    NoFrames(s);
    if Tally(s, false) + fq == Tally(s, true) + Tally(t, true) {
      assert Tally(t, true) == fq + (Tally(t, true) - fq);
    }
    Cancels(Tally(s, false), fq, Tally(t, true));
  }

  lemma Cancels<T>(a: multiset<T>, b: multiset<T>, c: multiset<T>)
    ensures a + b == a + c <==> b == c
  {
    if a + b == a + c {
      assert (a + b) - a == b && (a + c) - a == c;
    }
  }
}

/** Windows over traces, the trees of windows, and the forest that a trace is split into. */
module WindowTrees {
  import opened Traces

  /** A window with what is below it, once its children have handed over their traces. */
  datatype Window = Window(kids: Kids, sampleHead: bool, trace: seq<Access>, fpMap: multiset<(nat, nat)>,
                           windowID: (nat, nat))
  datatype Kids = None | One(l: Window) | Two(l: Window, r: Window)

  const EMPTY: Window := Window(None, false, [], multiset{}, (0, 0))

  /** An access is added to the trace and counted with its extra frame loads. */
  function AddAccess(w: Window, a: Access): (r: Window)
    ensures r.trace == w.trace + [a] && r.fpMap == w.fpMap + Counts(a, true)
    ensures r.kids == w.kids && r.sampleHead == w.sampleHead && r.windowID == w.windowID
  {
    w.(trace := w.trace + [a], fpMap := w.fpMap + Counts(a, true))
  }

  /** Counts a trace, without extra frame loads. */
  method Recount(start: multiset<(nat, nat)>, s: seq<Access>) returns (fp: multiset<(nat, nat)>)
    ensures fp == start + Tally(s, false)
    ensures forall a: nat, m: nat :: fp[(a, m)] == start[(a, m)] + |Places(s, a, m)|
  {
    fp := start;
    for i := 0 to |s|
      invariant fp == start + Tally(s[..i], false)
    {
      assert s[..i + 1][..i] == s[..i];
      fp := fp + multiset{(s[i].addr, s[i].kind)};
    }
    assert s[..|s|] == s;
    TallyMetrics(s, false);
  }

  /** The counts of a window that takes in another. */
  method AddWindow(w: Window, child: Window) returns (fp: multiset<(nat, nat)>)
    ensures fp == Merged(w.fpMap, w.trace, child.fpMap, child.trace)
    ensures forall a: nat, m: nat :: fp[(a, m)] ==
              if w.fpMap == multiset{} then |Places(w.trace, a, m)| + |Places(child.trace, a, m)|
              else w.fpMap[(a, m)] + child.fpMap[(a, m)]
  {
    if w.fpMap == multiset{} {
      fp := Recount(w.fpMap, w.trace);
      fp := Recount(fp, child.trace);
    } else {
      fp := w.fpMap + child.fpMap;
    }
  }

  /** A child keeps its trace and its counts only when it heads a sample. */
  function HandedOver(w: Window): (r: Window)
    ensures r.kids == w.kids && r.sampleHead == w.sampleHead && r.windowID == w.windowID
    ensures if w.sampleHead then r == w else r.trace == [] && r.fpMap == multiset{}
  {
    if w.sampleHead then w else w.(trace := [], fpMap := multiset{})
  }

  function Max(a: nat, b: nat): nat {
    if a < b then b else a
  }

  /** A window over one or two others: the left trace is counted again, unless it is empty the right counts are
      added. */
  function Joined(kids: Kids): (w: Window)
    requires kids != None
    ensures !w.sampleHead
  {
    match kids
    case One(l) => Window(One(HandedOver(l)), false, l.trace, Tally(l.trace, false), (l.windowID.0, l.windowID.1 + 1))
    case Two(l, r) =>
      Window(Two(HandedOver(l), HandedOver(r)), false, l.trace + r.trace, JoinedMap(l.trace, r.fpMap, r.trace),
             (l.windowID.0, Max(l.windowID.1, r.windowID.1) + 1))
  }

  /** Makes a window over two by adding the left and then the right child. */
  method JoinTwo(l: Window, r: Window) returns (w: Window)
    ensures w == Joined(Two(l, r))
  {
    var lvl := l.windowID.1;
    if lvl < r.windowID.1 {
      lvl := r.windowID.1;
    }
    w := EMPTY;
    MergedTwice(l.fpMap, l.trace, r.fpMap, r.trace);
    var fp := AddWindow(w, l);
    w := w.(fpMap := fp, trace := w.trace + l.trace);
    assert w.trace == l.trace;
    fp := AddWindow(w, r);
    w := w.(kids := Two(HandedOver(l), HandedOver(r)), fpMap := fp, trace := w.trace + r.trace,
            windowID := (l.windowID.0, lvl + 1));
  }

  method JoinOne(l: Window) returns (w: Window)
    ensures w == Joined(One(l))
  {
    w := EMPTY;
    MergedTwice(l.fpMap, l.trace, l.fpMap, l.trace);
    var fp := AddWindow(w, l);
    w := w.(kids := One(HandedOver(l)), fpMap := fp, trace := w.trace + l.trace,
            windowID := (l.windowID.0, l.windowID.1 + 1));
    assert w.trace == l.trace;
  }

  /** The next level over some windows: one over every two, and one over the last when their number is odd. */
  function NextLevel(ws: seq<Window>): (r: seq<Window>)
    ensures |ws| <= 2 * |r| <= |ws| + 1
  {
    if |ws| == 0 then [] else if |ws| == 1 then [Joined(One(ws[0]))]
    else [Joined(Two(ws[0], ws[1]))] + NextLevel(ws[2..])
  }

  function Root(ws: seq<Window>): Window
    requires ws != []
    decreases |ws|
  {
    if |ws| == 1 then ws[0] else if |ws| == 2 then Joined(Two(ws[0], ws[1])) else Root(NextLevel(ws))
  }

  lemma LevelStep(ws: seq<Window>, i: nat)
    requires i < |ws|
    ensures i + 1 < |ws| ==> NextLevel(ws[i..]) == [Joined(Two(ws[i], ws[i + 1]))] + NextLevel(ws[i + 2..])
    ensures i + 1 == |ws| ==> NextLevel(ws[i..]) == [Joined(One(ws[i]))] + NextLevel(ws[i + 1..])
  {
    if i + 1 < |ws| {
      assert ws[i..][2..] == ws[i + 2..];
    } else {
      assert ws[i + 1..] == [];
    }
  }

  /** The loop that makes a window over every two. */
  method OneLevel(ws: seq<Window>) returns (nWindows: seq<Window>)
    ensures nWindows == NextLevel(ws)
  {
    nWindows := [];
    var i := 0;
    while i < |ws|
      invariant i <= |ws| && nWindows + NextLevel(ws[i..]) == NextLevel(ws)
    {
      var newWindow;
      LevelStep(ws, i);
      if i + 1 < |ws| {
        newWindow := JoinTwo(ws[i], ws[i + 1]);
        i := i + 2;
      } else {
        newWindow := JoinOne(ws[i]);
        i := i + 1;
      }
      nWindows := nWindows + [newWindow];
    }
    assert ws[|ws|..] == [];
  }

  /** Builds the tree over some windows; there is none over no windows. */
  method BuildTree(ws: seq<Window>) returns (root: seq<Window>)
    ensures if ws == [] then root == [] else root == [Root(ws)]
    decreases |ws|
  {
    if |ws| == 1 {
      return [ws[0]];
    }
    if |ws| < 1 {
      return [];
    }
    if |ws| == 2 {
      var newWindow := JoinTwo(ws[0], ws[1]);
      return [newWindow];
    }
    var nWindows := OneLevel(ws);
    root := BuildTree(nWindows);
  }

  /** The windows d levels down, from left to right. */
  function Below(w: Window, d: nat): seq<Window> {
    if d == 0 then [w] else
      match w.kids
      case None => []
      case One(l) => Below(l, d - 1)
      case Two(l, r) => Below(l, d - 1) + Below(r, d - 1)
  }

  function AllBelow(ws: seq<Window>, d: nat): seq<Window> {
    if ws == [] then [] else Below(ws[0], d) + AllBelow(ws[1..], d)
  }

  function AllHandedOver(ws: seq<Window>): (r: seq<Window>)
    ensures |r| == |ws|
  {
    if ws == [] then [] else [HandedOver(ws[0])] + AllHandedOver(ws[1..])
  }

  /** The number of levels above n windows. */
  function Levels(n: nat): nat {
    if n <= 1 then 0 else 1 + Levels((n + 1) / 2)
  }

  function Pow2(k: nat): (r: nat)
    ensures r > 0
  {
    if k == 0 then 1 else 2 * Pow2(k - 1)
  }

  /** It is the logarithm of n to the base 2, rounded up. */
  lemma {:induction false} LevelsIsLog(n: nat)
    requires n > 0
    ensures n <= Pow2(Levels(n)) && (n > 1 ==> Pow2(Levels(n) - 1) < n)
  {
    if n > 1 {
      var m := (n + 1) / 2;
      LevelsIsLog(m);
      if m > 1 {
        assert Pow2(Levels(n) - 1) == 2 * Pow2(Levels(m) - 1);
      }
    }
  }

  lemma AllBelowTwo(ws: seq<Window>, d: nat)
    requires |ws| > 1
    ensures AllBelow(ws, d) == Below(ws[0], d) + Below(ws[1], d) + AllBelow(ws[2..], d)
  {
    assert ws[1..][1..] == ws[2..];
    assert AllBelow(ws[1..], d) == Below(ws[1], d) + AllBelow(ws[2..], d);
  }

  lemma HandedTwo(ws: seq<Window>)
    requires |ws| > 1
    ensures var h := AllHandedOver(ws);
            h[0] == HandedOver(ws[0]) && h[1] == HandedOver(ws[1]) && h[2..] == AllHandedOver(ws[2..])
  {
    assert ws[1..][1..] == ws[2..];
    assert AllHandedOver(ws[1..]) == [HandedOver(ws[1])] + AllHandedOver(ws[2..]);
  }

  lemma {:induction false} BelowNextLevel(ws: seq<Window>, d: nat)
    ensures AllBelow(NextLevel(ws), d + 1) == AllBelow(AllHandedOver(ws), d)
    decreases |ws|
  {
    if |ws| == 1 {
      assert AllHandedOver(ws) == [HandedOver(ws[0])];
    } else if |ws| > 1 {
      HandedTwo(ws);
      AllBelowTwo(AllHandedOver(ws), d);
      BelowTwo(ws[0], ws[1], d);
      BelowNextLevel(ws[2..], d);
      assert NextLevel(ws)[1..] == NextLevel(ws[2..]);
    }
  }

  lemma {:induction false} HandedBelow(ws: seq<Window>, d: nat)
    ensures AllBelow(AllHandedOver(ws), d + 1) == AllBelow(ws, d + 1)
  {
    if ws != [] {
      HandedBelow(ws[1..], d);
      assert AllHandedOver(ws)[1..] == AllHandedOver(ws[1..]);
    }
  }

  lemma {:induction false} BelowNone(ws: seq<Window>)
    ensures AllBelow(ws, 0) == ws
  {
    if ws != [] {
      BelowNone(ws[1..]);
    }
  }

  lemma LevelsNext(ws: seq<Window>)
    requires |ws| > 2
    ensures |NextLevel(ws)| > 1 && Levels(|ws|) == Levels(|NextLevel(ws)|) + 1
  {
    assert |NextLevel(ws)| == (|ws| + 1) / 2;
  }

  /** What is d levels below some windows is d levels more below their root. */
  lemma {:induction false} RootBelow(ws: seq<Window>, d: nat, k: nat)
    requires |ws| > 1 && d > 0 && k == Levels(|ws|) + d
    ensures Below(Root(ws), k) == AllBelow(ws, d)
    decreases |ws|
  {
    if |ws| == 2 {
      RootOfTwo(ws, d, k);
    } else {
      var next := NextLevel(ws);
      LevelsNext(ws);
      RootBelow(next, d + 1, k);
      BelowNextLevel(ws, d);
      HandedBelow(ws, d - 1);
      assert Root(ws) == Root(next);
    }
  }

  lemma RootOfTwo(ws: seq<Window>, d: nat, k: nat)
    requires |ws| == 2 && d > 0 && k == Levels(|ws|) + d
    ensures Below(Root(ws), k) == AllBelow(ws, d)
  {
    var l, r := ws[0], ws[1];
    BelowTwo(l, r, d);
    assert ws == [l, r];
    assert Root(ws) == Joined(Two(l, r));
  }

  lemma BelowTwo(l: Window, r: Window, d: nat)
    ensures Below(Joined(Two(l, r)), d + 1) == Below(HandedOver(l), d) + Below(HandedOver(r), d)
    ensures d > 0 ==> Below(Joined(Two(l, r)), d + 1) == AllBelow([l, r], d)
    ensures Levels(2) == 1
  {
    assert [l, r][1..] == [r];
    assert [r][1..] == [];
    assert AllBelow([r], d) == Below(r, d) + [];
    assert AllBelow([l, r], d) == Below(l, d) + AllBelow([r], d);
    if d > 0 {
      BelowHanded(l, d);
      BelowHanded(r, d);
    }
  }

  /** Every window is at the same depth below the root, in order, and has handed over. */
  lemma AllAtOneDepth(ws: seq<Window>)
    requires |ws| > 1
    ensures Below(Root(ws), Levels(|ws|)) == AllHandedOver(ws)
  {
    if |ws| == 2 {
      TwoAtOneDepth(ws);
    } else {
      ManyAtOneDepth(ws, 0, Levels(|ws|));
      BelowNone(AllHandedOver(ws));
    }
  }

  lemma TwoAtOneDepth(ws: seq<Window>)
    requires |ws| == 2
    ensures Below(Root(ws), Levels(|ws|)) == AllHandedOver(ws)
  {
    var l, r := ws[0], ws[1];
    BelowTwo(l, r, 0);
    assert Root(ws) == Joined(Two(l, r));
    assert AllHandedOver(ws) == [HandedOver(l)] + [HandedOver(r)];
  }

  lemma ManyAtOneDepth(ws: seq<Window>, d: nat, k: nat)
    requires |ws| > 2 && k == Levels(|ws|) + d
    ensures Below(Root(ws), k) == AllBelow(AllHandedOver(ws), d)
  {
    var next := NextLevel(ws);
    LevelsNext(ws);
    RootBelow(next, d + 1, k);
    BelowNextLevel(ws, d);
    assert Root(ws) == Root(next);
  }

  lemma BelowHanded(w: Window, d: nat)
    requires d > 0
    ensures Below(HandedOver(w), d) == Below(w, d)
  {
  }

  function TracesOf(ws: seq<Window>): (r: seq<seq<Access>>)
    ensures |r| == |ws| && forall k | 0 <= k < |ws| :: r[k] == ws[k].trace
  {
    seq(|ws|, k requires 0 <= k < |ws| => ws[k].trace)
  }

  /** The footprint has the addresses of the trace as keys and, when exact, the counts without frame loads. */
  ghost predicate Counted(exact: bool, w: Window) {
    KeysOf(w.fpMap, w.trace) && (exact ==> w.fpMap == Tally(w.trace, false))
  }

  ghost predicate AllCounted(exact: bool, ws: seq<Window>) {
    forall k | 0 <= k < |ws| :: Counted(exact, ws[k])
  }

  lemma CountedJoin(exact: bool, l: Window, r: Window)
    requires Counted(exact, r)
    ensures Counted(exact, Joined(Two(l, r)))
  {
    TallyKeys(l.trace, false);
    TallyKeys(r.trace, false);
    TallySum(l.trace, r.trace, false);
    KeysSum(Tally(l.trace, false), l.trace, r.fpMap, r.trace);
    if l.trace == [] {
      assert l.trace + r.trace == r.trace;
    }
  }

  lemma TracesTwo(ws: seq<Window>)
    requires |ws| > 1
    ensures TracesOf(ws) == [ws[0].trace] + ([ws[1].trace] + TracesOf(ws[2..]))
  {
  }

  lemma TracesMoreFront(w: Window, next: seq<Window>)
    ensures TracesOf([w] + next) == [w.trace] + TracesOf(next)
  {
  }

  lemma NextShift(ws: seq<Window>, k: nat)
    requires 0 < k && 1 < |ws|
    ensures k < |NextLevel(ws)| <==> k - 1 < |NextLevel(ws[2..])|
    ensures k < |NextLevel(ws)| ==> NextLevel(ws)[k] == NextLevel(ws[2..])[k - 1]
  {
  }

  lemma TracesNext(ws: seq<Window>)
    requires |ws| > 1
    ensures TracesOf(NextLevel(ws)) == [ws[0].trace + ws[1].trace] + TracesOf(NextLevel(ws[2..]))
  {
    TracesMoreFront(Joined(Two(ws[0], ws[1])), NextLevel(ws[2..]));
  }

  lemma {:induction false} NextLevelTraces(ws: seq<Window>)
    ensures Concat(TracesOf(NextLevel(ws))) == Concat(TracesOf(ws))
    decreases |ws|
  {
    if |ws| == 1 {
      assert TracesOf(NextLevel(ws)) == TracesOf(ws);
    } else if |ws| > 1 {
      TracesTwo(ws);
      TracesNext(ws);
      NextLevelTraces(ws[2..]);
      ConcatTwo(ws[0].trace, ws[1].trace, TracesOf(ws[2..]));
      ConcatSum([ws[0].trace + ws[1].trace], TracesOf(NextLevel(ws[2..])));
      ConcatOne(ws[0].trace + ws[1].trace);
    }
  }

  lemma ConcatTwo(x: seq<Access>, y: seq<Access>, l: seq<seq<Access>>)
    ensures Concat([x] + ([y] + l)) == (x + y) + Concat(l)
  {
    ConcatSum([x], [y] + l);
    ConcatSum([y], l);
    ConcatOne(x);
    ConcatOne(y);
  }

  lemma {:induction false} NextLevelCounted(ws: seq<Window>, exact: bool)
    requires AllCounted(exact, ws)
    ensures AllCounted(exact, NextLevel(ws))
    decreases |ws|
  {
    if |ws| == 1 {
      TallyKeys(ws[0].trace, false);
    } else if |ws| > 1 {
      NextLevelCounted(ws[2..], exact);
      CountedJoin(exact, ws[0], ws[1]);
      CountedMoreFront(exact, Joined(Two(ws[0], ws[1])), NextLevel(ws[2..]));
    }
  }

  lemma CountedMoreFront(exact: bool, w: Window, next: seq<Window>)
    requires Counted(exact, w) && AllCounted(exact, next)
    ensures AllCounted(exact, [w] + next)
  {
  }

  /** The root holds the traces of all windows in their order, and a footprint with their addresses as keys; its counts
      are exact when those of the windows are. */
  lemma {:induction false} RootHoldsAll(ws: seq<Window>, exact: bool)
    requires ws != [] && AllCounted(exact, ws)
    ensures Root(ws).trace == Concat(TracesOf(ws)) && Counted(exact, Root(ws))
    decreases |ws|
  {
    if |ws| == 1 {
      assert TracesOf(ws) == [ws[0].trace];
      ConcatOne(ws[0].trace);
    } else if |ws| == 2 {
      CountedJoin(exact, ws[0], ws[1]);
      assert TracesOf(ws) == [ws[0].trace] + ([ws[1].trace] + []);
      ConcatTwo(ws[0].trace, ws[1].trace, []);
    } else {
      NextLevelTraces(ws);
      NextLevelCounted(ws, exact);
      RootHoldsAll(NextLevel(ws), exact);
    }
  }

  /** Every window above the samples has two children, as refilling takes for granted. */
  predicate Fillable(w: Window) {
    w.sampleHead || (w.kids.Two? && Fillable(w.kids.l) && Fillable(w.kids.r))
  }

  /** The traces of the samples below a window. */
  function FillTraceWalkDown(w: Window): seq<Access>
    requires Fillable(w)
  {
    if w.sampleHead then w.trace else FillTraceWalkDown(w.kids.l) + FillTraceWalkDown(w.kids.r)
  }

  /** Gives a window above the samples its trace again. */
  function FillTrace(w: Window): Window
    requires Fillable(w)
  {
    if w.sampleHead then w else w.(trace := w.trace + FillTraceWalkDown(w))
  }

  /** The samples below a window hold together what the window held before it handed over. */
  ghost predicate Faithful(w: Window) {
    Fillable(w) ==> FillTraceWalkDown(w) == w.trace
  }

  lemma HandedFills(w: Window)
    ensures Fillable(HandedOver(w)) <==> Fillable(w)
    ensures Fillable(w) ==> FillTraceWalkDown(HandedOver(w)) == FillTraceWalkDown(w)
  {
  }

  /** Refilling gives a window back the trace that it handed over. */
  lemma FillRestores(w: Window)
    requires Fillable(w) && Faithful(w)
    ensures Fillable(HandedOver(w)) && FillTrace(HandedOver(w)).trace == w.trace
  {
    HandedFills(w);
  }

  /** Whatever is built over faithful windows, such as samples, is faithful. */
  lemma {:induction false} RootIsFaithful(ws: seq<Window>)
    requires ws != [] && forall k | 0 <= k < |ws| :: Faithful(ws[k])
    ensures Faithful(Root(ws))
    decreases |ws|
  {
    if |ws| == 2 {
      JoinIsFaithful(ws[0], ws[1]);
    } else if |ws| > 2 {
      NextLevelFaithful(ws);
      RootIsFaithful(NextLevel(ws));
    }
  }

  lemma JoinIsFaithful(l: Window, r: Window)
    requires Faithful(l) && Faithful(r)
    ensures Faithful(Joined(Two(l, r))) && Faithful(Joined(One(l)))
  {
    HandedFills(l);
    HandedFills(r);
  }

  lemma {:induction false} NextLevelFaithful(ws: seq<Window>)
    requires forall k | 0 <= k < |ws| :: Faithful(ws[k])
    ensures forall k | 0 <= k < |NextLevel(ws)| :: Faithful(NextLevel(ws)[k])
    decreases |ws|
  {
    if |ws| == 1 {
      JoinIsFaithful(ws[0], ws[0]);
    } else if |ws| > 1 {
      JoinIsFaithful(ws[0], ws[1]);
      NextLevelFaithful(ws[2..]);
    }
  }

  /** The windows j levels up. */
  function Level(ws: seq<Window>, j: nat): (r: seq<Window>)
    ensures |r| <= |ws|
    decreases j
  {
    if j == 0 then ws else Level(NextLevel(ws), j - 1)
  }

  /** Somewhere below the root are these windows, side by side and emptied; they held the trace between them, and
      refilling gives each of them back what it held. */
  ghost predicate LevelBelow(root: Window, level: seq<Window>, trace: seq<Access>) {
    && Below(root, Levels(|level|)) == AllHandedOver(level) && Concat(TracesOf(level)) == trace
    && forall w | w in level && Fillable(HandedOver(w)) :: FillTrace(HandedOver(w)).trace == w.trace
  }

  lemma InputsBelow(ws: seq<Window>)
    requires |ws| > 1 && forall k | 0 <= k < |ws| :: Faithful(ws[k])
    ensures LevelBelow(Root(ws), ws, Concat(TracesOf(ws)))
  {
    AllAtOneDepth(ws);
    forall w | w in ws && Fillable(HandedOver(w)) ensures FillTrace(HandedOver(w)).trace == w.trace {
      HandedFills(w);
      FillRestores(w);
    }
  }

  /** The levels below the top share root and trace. */
  lemma {:induction false} LevelKeeps(ws: seq<Window>, j: nat)
    requires |Level(ws, j)| > 1 && forall k | 0 <= k < |ws| :: Faithful(ws[k])
    ensures |ws| > 1 && Root(ws) == Root(Level(ws, j)) && Concat(TracesOf(ws)) == Concat(TracesOf(Level(ws, j)))
    ensures forall k | 0 <= k < |Level(ws, j)| :: Faithful(Level(ws, j)[k])
    decreases j
  {
    if j > 0 {
      var next, i: nat := NextLevel(ws), j - 1;
      assert Level(ws, j) == Level(next, i);
      NextLevelFaithful(ws);
      LevelKeeps(next, i);
      RootAbove(ws);
    }
  }

  lemma RootAbove(ws: seq<Window>)
    requires |NextLevel(ws)| > 1
    ensures |ws| > 2 && Root(ws) == Root(NextLevel(ws))
    ensures Concat(TracesOf(NextLevel(ws))) == Concat(TracesOf(ws))
  {
    NextLevelTraces(ws);
  }

  /** This holds at every depth of the tree. */
  lemma EveryWindowRefills(ws: seq<Window>, j: nat)
    requires |Level(ws, j)| > 1 && forall k | 0 <= k < |ws| :: Faithful(ws[k])
    ensures LevelBelow(Root(ws), Level(ws, j), Concat(TracesOf(ws)))
  {
    LevelKeeps(ws, j);
    InputsBelow(Level(ws, j));
  }

  datatype MaybeWindow = NoWindow | SomeWindow(w: Window)

  /** A window of accesses alone. */
  ghost predicate IsLeaf(w: Window) {
    w.kids == None && !w.sampleHead && w.fpMap == Tally(w.trace, true) && w.trace != []
  }

  lemma LeafGrows(w: Window, a: Access)
    requires IsLeaf(w) || w.(windowID := (0, 0)) == EMPTY
    ensures IsLeaf(AddAccess(w, a))
    ensures forall b: nat, m: nat :: AddAccess(w, a).fpMap[(b, m)] == Metric(w.trace + [a], b, m, true)
  {
    assert (w.trace + [a])[..|w.trace|] == w.trace;
    TallyMetrics(w.trace + [a], true);
  }

  /** The accesses under the last sample so far. */
  function Current(windows: seq<Window>, window: Window): seq<Access> {
    Concat(TracesOf(windows)) + window.trace
  }

  function AllTraces(leaves: seq<seq<Window>>): (r: seq<seq<Access>>)
    ensures |r| == |leaves|
  {
    if leaves == [] then [] else AllTraces(leaves[..|leaves| - 1]) + [Concat(TracesOf(leaves[|leaves| - 1]))]
  }

  /** The windows of a sample: pieces of 8 accesses but for the last. */
  ghost predicate SampleLeaves(ws: seq<Window>) {
    && ws != [] && (forall k | 0 <= k < |ws| :: IsLeaf(ws[k]) && |ws[k].trace| <= 8)
    && forall k | 0 <= k < |ws| - 1 :: |ws[k].trace| == 8
  }

  lemma TracesMore(ws: seq<Window>, w: Window)
    ensures Concat(TracesOf(ws + [w])) == Current(ws, w)
  {
    assert TracesOf(ws + [w]) == TracesOf(ws) + [w.trace];
    ConcatSum(TracesOf(ws), [w.trace]);
    ConcatOne(w.trace);
  }

  /** The state of the loop after the first i accesses. */
  ghost predicate Splitting(trace: seq<Access>, i: nat, windows: seq<Window>, window: Window, size: nat,
                            leaves: seq<seq<Window>>) {
    && 0 < i <= |trace| && SampleLeaves(windows + [window]) && |window.trace| == size + 1
    && (forall k | 0 <= k < |windows| :: windows[k].windowID.0 < window.windowID.0) && window.windowID.0 < i
    && AllTraces(leaves) + [Current(windows, window)] == Samples(trace[..i])
  }

  lemma SamplesMore(trace: seq<Access>, i: nat)
    requires 0 < i < |trace|
    ensures var r := Samples(trace[..i]);
      && r != []
      && Samples(trace[..i + 1]) == if trace[i].sampleID != trace[i - 1].sampleID then r + [[trace[i]]]
        else r[..|r| - 1] + [r[|r| - 1] + [trace[i]]]
  {
    assert trace[..i + 1][..i] == trace[..i];
  }

  /** A new window for an access. */
  function NewWindow(a: Access, lTime: nat): Window {
    AddAccess(EMPTY.(windowID := (lTime, 0)), a)
  }

  /** The last window goes to the others unless it is among them, and the tree over them heads a sample. */
  method CloseSample(windows: seq<Window>, window: Window) returns (node: Window)
    requires windows != [] ==> windows[|windows| - 1].windowID.0 < window.windowID.0
    ensures node == Root(windows + [window]).(sampleHead := true)
  {
    var isWindowAdded := windows != [] && windows[|windows| - 1].windowID == window.windowID;
    var all := windows;
    if !isWindowAdded {
      all := all + [window];
    }
    var root := BuildTree(all);
    node := root[0].(sampleHead := true);
  }

  lemma NewIsLeaf(a: Access, lTime: nat)
    ensures IsLeaf(NewWindow(a, lTime)) && NewWindow(a, lTime).trace == [a]
  {
    LeafGrows(EMPTY.(windowID := (lTime, 0)), a);
  }

  lemma FirstAccess(trace: seq<Access>)
    requires trace != []
    ensures Splitting(trace, 1, [], NewWindow(trace[0], 0), 0, [])
  {
    NewIsLeaf(trace[0], 0);
    assert trace[..1] == [trace[0]] && [trace[0]][..0] == [];
    assert TracesOf([]) == [];
  }

  /** An access with a new sample id closes the sample. */
  lemma StepNewSample(trace: seq<Access>, i: nat, windows: seq<Window>, window: Window, size: nat,
                      leaves: seq<seq<Window>>)
    requires Splitting(trace, i, windows, window, size, leaves) && i < |trace|
    requires trace[i].sampleID != trace[i - 1].sampleID
    ensures Splitting(trace, i + 1, [], NewWindow(trace[i], i), 0, leaves + [windows + [window]])
  {
    NewIsLeaf(trace[i], i);
    SamplesMore(trace, i);
    TracesMore(windows, window);
    var more := leaves + [windows + [window]];
    assert more[..|more| - 1] == leaves;
    assert AllTraces(more) == AllTraces(leaves) + [Current(windows, window)];
    assert TracesOf([]) == [];
    assert Current([], NewWindow(trace[i], i)) == [trace[i]];
  }

  /** A full window goes to the others of the sample. */
  lemma StepNewWindow(trace: seq<Access>, i: nat, windows: seq<Window>, window: Window, leaves: seq<seq<Window>>)
    requires Splitting(trace, i, windows, window, 7, leaves) && i < |trace|
    requires trace[i].sampleID == trace[i - 1].sampleID
    ensures Splitting(trace, i + 1, windows + [window], NewWindow(trace[i], i), 0, leaves)
  {
    NewIsLeaf(trace[i], i);
    SamplesMore(trace, i);
    TracesMore(windows, window);
    LastRun(AllTraces(leaves), Current(windows, window), trace[i]);
    SampleGrows(windows, window, NewWindow(trace[i], i));
    assert Current(windows + [window], NewWindow(trace[i], i)) == Current(windows, window) + [trace[i]];
  }

  lemma LastRun(l: seq<seq<Access>>, last: seq<Access>, a: Access)
    ensures var r := l + [last]; r[..|r| - 1] + [r[|r| - 1] + [a]] == l + [last + [a]]
  {
  }

  lemma SampleGrows(windows: seq<Window>, window: Window, w: Window)
    requires SampleLeaves(windows + [window]) && |window.trace| == 8 && IsLeaf(w) && |w.trace| <= 8
    ensures SampleLeaves(windows + [window] + [w])
  {
    var ws := windows + [window];
    assert forall k | 0 <= k < |ws| :: (ws + [w])[k] == ws[k];
    assert ws[|windows|] == window;
  }

  lemma SampleChanges(windows: seq<Window>, window: Window, w: Window)
    requires SampleLeaves(windows + [window]) && IsLeaf(w) && |w.trace| <= 8
    ensures SampleLeaves(windows + [w]) && IsLeaf(window)
  {
    var ws := windows + [window];
    assert ws[|windows|] == window;
    assert forall k | 0 <= k < |windows| :: (windows + [w])[k] == ws[k];
  }

  /** Any other access goes to the window. */
  lemma StepGrow(trace: seq<Access>, i: nat, windows: seq<Window>, window: Window, size: nat, leaves: seq<seq<Window>>)
    requires Splitting(trace, i, windows, window, size, leaves) && i < |trace| && size != 7
    requires trace[i].sampleID == trace[i - 1].sampleID
    ensures Splitting(trace, i + 1, windows, AddAccess(window, trace[i]), size + 1, leaves)
  {
    var w := AddAccess(window, trace[i]);
    assert (windows + [window])[|windows|] == window;
    LeafGrows(window, trace[i]);
    SampleChanges(windows, window, w);
    SamplesMore(trace, i);
    LastRun(AllTraces(leaves), Current(windows, window), trace[i]);
    assert Current(windows, w) == Current(windows, window) + [trace[i]];
  }

  /** What the forest and the windows it was built from are for a trace. */
  ghost predicate Forest(trace: seq<Access>, forest: seq<Window>, leaves: seq<seq<Window>>) {
    AllTraces(leaves) == Samples(trace) && Trees(forest, leaves)
  }

  /** The trees over the windows of each sample. */
  ghost predicate Trees(forest: seq<Window>, leaves: seq<seq<Window>>) {
    && |forest| == |leaves|
    && forall k | 0 <= k < |leaves| :: SampleLeaves(leaves[k]) && forest[k] == Root(leaves[k]).(sampleHead := true)
  }

  lemma TreesMore(forest: seq<Window>, leaves: seq<seq<Window>>, node: Window, ws: seq<Window>)
    requires Trees(forest, leaves) && SampleLeaves(ws) && node == Root(ws).(sampleHead := true)
    ensures Trees(forest + [node], leaves + [ws])
  {
  }

  /** Splits a trace into windows and builds the tree of each sample. */
  method SplitTrace(trace: seq<Access>) returns (forest: seq<Window>, ghost leaves: seq<seq<Window>>)
    requires trace != []
    ensures Forest(trace, forest, leaves)
    ensures |forest| == |Samples(trace)| && forall k | 0 <= k < |forest| ::
        forest[k].sampleHead && forest[k].trace == Samples(trace)[k] && KeysOf(forest[k].fpMap, Samples(trace)[k])
  {
    forest, leaves := [], [];
    var windows: seq<Window> := [];
    var window := NoWindow;
    var inSampleSize := 0;
    var prevSampleID := trace[0].sampleID;
    for i := 0 to |trace|
      invariant i == 0 ==> window == NoWindow && leaves == [] && forest == [] && windows == [] && inSampleSize == 0
      invariant i == 0 ==> prevSampleID == trace[0].sampleID
      invariant i > 0 ==> window.SomeWindow? && prevSampleID == trace[i - 1].sampleID
      invariant i > 0 ==> Splitting(trace, i, windows, window.w, inSampleSize, leaves)
      invariant Trees(forest, leaves)
    {
      var isNewSample := prevSampleID != trace[i].sampleID;
      if isNewSample {
        StepNewSample(trace, i, windows, window.w, inSampleSize, leaves);
        ghost var ws := windows + [window.w];
        var node := CloseSample(windows, window.w);
        TreesMore(forest, leaves, node, ws);
        forest, leaves := forest + [node], leaves + [ws];
        inSampleSize := 0;
        windows := [];
        window := SomeWindow(NewWindow(trace[i], i));
      } else if window == NoWindow {
        FirstAccess(trace);
        window := SomeWindow(NewWindow(trace[i], i));
      } else if inSampleSize == 7 {
        StepNewWindow(trace, i, windows, window.w, leaves);
        windows := windows + [window.w];
        window := SomeWindow(NewWindow(trace[i], i));
        inSampleSize := 0;
      } else {
        StepGrow(trace, i, windows, window.w, inSampleSize, leaves);
        window := SomeWindow(AddAccess(window.w, trace[i]));
        inSampleSize := inSampleSize + 1;
      }
      prevSampleID := trace[i].sampleID;
    }
    assert trace[..|trace|] == trace;
    ghost var ws := windows + [window.w];
    var node := CloseSample(windows, window.w);
    TracesMore(windows, window.w);
    TreesMore(forest, leaves, node, ws);
    forest, leaves := forest + [node], leaves + [ws];
    assert leaves[..|leaves| - 1] + [ws] == leaves;
    ForestHoldsSamples(trace, forest, leaves);
  }

  lemma ForestHoldsSamples(trace: seq<Access>, forest: seq<Window>, leaves: seq<seq<Window>>)
    requires Forest(trace, forest, leaves)
    ensures |forest| == |Samples(trace)| && forall k | 0 <= k < |forest| ::
        forest[k].sampleHead && forest[k].trace == Samples(trace)[k] && KeysOf(forest[k].fpMap, Samples(trace)[k])
  {
    forall k | 0 <= k < |forest| ensures forest[k].sampleHead && forest[k].trace == Samples(trace)[k]
                                         && KeysOf(forest[k].fpMap, forest[k].trace)
    {
      TreeHoldsSample(trace, forest, leaves, k, false);
    }
  }

  lemma LeafCounted(w: Window, exact: bool)
    requires IsLeaf(w) && (exact ==> NoFrameLoads(w.trace))
    ensures Counted(exact, w)
  {
    TallyKeys(w.trace, true);
    NoFrames(w.trace);
  }

  lemma {:induction false} AllTracesAt(leaves: seq<seq<Window>>, k: nat)
    requires k < |leaves|
    ensures AllTraces(leaves)[k] == Concat(TracesOf(leaves[k]))
  {
    if k < |leaves| - 1 {
      AllTracesAt(leaves[..|leaves| - 1], k);
    }
  }

  lemma {:induction false} ConcatMember(l: seq<seq<Access>>, k: nat, x: Access)
    requires k < |l| && x in l[k]
    ensures x in Concat(l)
  {
    if k > 0 {
      ConcatMember(l[1..], k - 1, x);
    }
  }

  /** The k-th tree of the forest holds the k-th sample, and its footprint has the addresses of the sample as keys and,
      without extra frame loads, the exact counts. */
  lemma TreeHoldsSample(trace: seq<Access>, forest: seq<Window>, leaves: seq<seq<Window>>, k: nat, exact: bool)
    requires Forest(trace, forest, leaves) && k < |forest| && (exact ==> NoFrameLoads(trace))
    ensures |forest| == |Samples(trace)| && forest[k].trace == Samples(trace)[k]
    ensures Counted(exact, forest[k]) && forest[k].sampleHead && Faithful(forest[k])
  {
    AllTracesAt(leaves, k);
    SamplesAreRuns(trace);
    forall j | 0 <= j < |leaves[k]| ensures Counted(exact, leaves[k][j]) {
      forall x | exact && x in leaves[k][j].trace ensures x.extraFrameLds == 0 {
        ConcatMember(TracesOf(leaves[k]), j, x);
        ConcatMember(Samples(trace), k, x);
      }
      LeafCounted(leaves[k][j], exact);
    }
    RootHoldsAll(leaves[k], exact);
  }

  /** The tree over the forest holds the trace; its footprint has the distinct addresses as keys and, without extra
      frame loads, the exact counts. */
  lemma FullTreeHoldsTrace(trace: seq<Access>, forest: seq<Window>, leaves: seq<seq<Window>>, exact: bool)
    requires trace != [] && Forest(trace, forest, leaves) && (exact ==> NoFrameLoads(trace))
    ensures forest != [] && Root(forest).trace == trace && KeysOf(Root(forest).fpMap, trace)
    ensures exact ==> Root(forest).fpMap == Tally(trace, false)
    ensures Faithful(Root(forest))
  {
    SamplesAreRuns(trace);
    forall k | 0 <= k < |forest|
      ensures forest[k].trace == Samples(trace)[k] && Counted(exact, forest[k]) && Faithful(forest[k])
    {
      TreeHoldsSample(trace, forest, leaves, k, exact);
    }
    assert |forest| == |Samples(trace)|;
    assert TracesOf(forest) == Samples(trace);
    RootHoldsAll(forest, exact);
    RootIsFaithful(forest);
  }

  // ----- How often extra frame loads are counted -----

  predicate PowerOfTwo(n: nat) {
    n == 1 || (n > 1 && n % 2 == 0 && PowerOfTwo(n / 2))
  }

  ghost predicate NoneEmpty(ws: seq<Window>) {
    forall w | w in ws :: w.trace != []
  }

  /** The windows that the window at an even place is joined with. */
  function KidsAt(ws: seq<Window>, i: nat): (kids: Kids)
    requires i < |ws|
    ensures kids != None
  {
    if i + 1 < |ws| then Two(ws[i], ws[i + 1]) else One(ws[i])
  }

  lemma {:induction false} NextAt(ws: seq<Window>, k: nat, i: nat)
    requires i == 2 * k < |ws|
    ensures k < |NextLevel(ws)|
    ensures NextLevel(ws)[k] == Joined(KidsAt(ws, i))
    decreases k
  {
    if k > 0 {
      NextAt(ws[2..], k - 1, i - 2);
      NextShift(ws, k);
      KidsShift(ws, i);
    }
  }

  lemma KidsShift(ws: seq<Window>, i: nat)
    requires 2 <= i < |ws|
    ensures KidsAt(ws[2..], i - 2) == KidsAt(ws, i)
  {
  }

  /** What the windows before an even place are joined to. */
  lemma NextPrefix(ws: seq<Window>, m: nat, e: nat)
    requires e == 2 * m <= |ws|
    ensures m <= |NextLevel(ws)| && NextLevel(ws)[..m] == NextLevel(ws[..e])
  {
    assert |NextLevel(ws[..e])| == m;
    forall k: nat | k < m ensures k < |NextLevel(ws)| && NextLevel(ws)[k] == NextLevel(ws[..e])[k] {
      NextAt(ws, k, 2 * k);
      NextAt(ws[..e], k, 2 * k);
    }
  }

  lemma {:induction false} NextNoneEmpty(ws: seq<Window>)
    requires NoneEmpty(ws)
    ensures NoneEmpty(NextLevel(ws))
    decreases |ws|
  {
    if |ws| == 1 {
      assert ws[0] in ws;
    } else if |ws| > 1 {
      assert ws[0] in ws;
      forall w | w in ws[2..] ensures w in ws {
      }
      NextNoneEmpty(ws[2..]);
    }
  }

  /** All traces but the last counted without extra frame loads, and the last perhaps as its window counts it. */
  ghost predicate CountOf(front: seq<Window>, last: Window, kept: bool, fp: multiset<(nat, nat)>) {
    fp == Tally(Concat(TracesOf(front)), false) + if kept then last.fpMap else Tally(last.trace, false)
  }

  /** What the root counts: the last as its window does when that is a right child at every level, which is when the
      number of windows is a power of two. */
  ghost predicate RootCount(ws: seq<Window>, fp: multiset<(nat, nat)>)
    requires ws != []
  {
    CountOf(ws[..|ws| - 1], ws[|ws| - 1], PowerOfTwo(|ws|), fp)
  }

  lemma {:induction false} RootCounts(ws: seq<Window>)
    requires ws != [] && NoneEmpty(ws)
    ensures RootCount(ws, Root(ws).fpMap)
    decreases |ws|
  {
    if |ws| == 1 {
      assert TracesOf(ws[..0]) == [];
    } else if |ws| == 2 {
      assert ws[0] in ws && TracesOf(ws[..1]) == [ws[0].trace];
      ConcatOne(ws[0].trace);
    } else {
      NextNoneEmpty(ws);
      RootCounts(NextLevel(ws));
      var m := |NextLevel(ws)| - 1;
      RootCountStep(ws, |ws|, m, 2 * m, Root(ws).fpMap);
    }
  }

  lemma PowerHalves(n: nat, m: nat)
    requires n > 1
    ensures n == 2 * m ==> PowerOfTwo(n) == PowerOfTwo(m)
    ensures n + 1 == 2 * m ==> !PowerOfTwo(n)
  {
  }

  lemma CountAbove(ws: seq<Window>, m: nat, e: nat, kept: bool, fp: multiset<(nat, nat)>)
    requires m + 1 == |NextLevel(ws)| && e == 2 * m && RootCount(NextLevel(ws), fp) && kept == PowerOfTwo(m + 1)
    ensures e < |ws| && CountOf(NextLevel(ws[..e]), Joined(KidsAt(ws, e)), kept, fp)
  {
    NextPrefix(ws, m, e);
    NextAt(ws, m, e);
  }

  lemma RootCountStep(ws: seq<Window>, n: nat, m: nat, e: nat, fp: multiset<(nat, nat)>)
    requires n == |ws| > 2 && m + 1 == |NextLevel(ws)| && e == 2 * m
    requires NoneEmpty(ws) && RootCount(NextLevel(ws), fp)
    ensures RootCount(ws, fp)
  {
    var kept := PowerOfTwo(m + 1);
    CountAbove(ws, m, e, kept, fp);
    PowerHalves(n, m + 1);
    StepDown(ws, n, e, kept, fp);
  }

  lemma StepDown(ws: seq<Window>, n: nat, e: nat, kept: bool, fp: multiset<(nat, nat)>)
    requires n == |ws| && (n == e + 1 || n == e + 2) && NoneEmpty(ws)
    requires if n == e + 2 then kept == PowerOfTwo(n) else !PowerOfTwo(n)
    requires CountOf(NextLevel(ws[..e]), Joined(KidsAt(ws, e)), kept, fp)
    ensures RootCount(ws, fp)
  {
    if n == e + 2 {
      assert ws[e] in ws;
      StepEven(ws, e, fp);
    } else {
      StepOdd(ws, e, kept, fp);
    }
  }

  lemma StepEven(ws: seq<Window>, e: nat, fp: multiset<(nat, nat)>)
    requires |ws| == e + 2 && ws[e].trace != []
    requires CountOf(NextLevel(ws[..e]), Joined(Two(ws[e], ws[e + 1])), PowerOfTwo(|ws|), fp)
    ensures RootCount(ws, fp)
  {
    CountEven(ws[..e], ws[e], ws[e + 1], PowerOfTwo(|ws|), fp);
    Rejoined(ws, e);
    CountIsRoot(ws, ws[..e] + [ws[e]], ws[e + 1], PowerOfTwo(|ws|), fp);
  }

  lemma StepOdd(ws: seq<Window>, e: nat, kept: bool, fp: multiset<(nat, nat)>)
    requires |ws| == e + 1 && !PowerOfTwo(|ws|) && CountOf(NextLevel(ws[..e]), Joined(One(ws[e])), kept, fp)
    ensures RootCount(ws, fp)
  {
    CountOdd(ws[..e], ws[e], kept, fp);
    Rejoined(ws, e);
    CountIsRoot(ws, ws[..e], ws[e], false, fp);
  }

  lemma Rejoined<T>(s: seq<T>, e: nat)
    ensures |s| == e + 1 ==> s == s[..e] + [s[e]]
    ensures |s| == e + 2 ==> s == s[..e] + [s[e]] + [s[e + 1]]
  {
  }

  lemma CountIsRoot(ws: seq<Window>, front: seq<Window>, last: Window, kept: bool, fp: multiset<(nat, nat)>)
    requires ws == front + [last] && kept == PowerOfTwo(|ws|) && CountOf(front, last, kept, fp)
    ensures RootCount(ws, fp)
  {
    assert ws[..|ws| - 1] == front;
  }

  lemma CountOdd(front: seq<Window>, l: Window, kept: bool, fp: multiset<(nat, nat)>)
    requires CountOf(NextLevel(front), Joined(One(l)), kept, fp)
    ensures CountOf(front, l, false, fp)
  {
    NextLevelTraces(front);
  }

  lemma CountEven(front: seq<Window>, l: Window, r: Window, kept: bool, fp: multiset<(nat, nat)>)
    requires l.trace != [] && CountOf(NextLevel(front), Joined(Two(l, r)), kept, fp)
    ensures CountOf(front + [l], r, kept, fp)
  {
    NextLevelTraces(front);
    CountOfPair(Concat(TracesOf(front)), l, r, Joined(Two(l, r)));
    TracesMore(front, l);
  }

  lemma CountOfPair(s: seq<Access>, l: Window, r: Window, j: Window)
    requires l.trace != [] && j == Joined(Two(l, r))
    ensures Tally(s, false) + j.fpMap == Tally(s + l.trace, false) + r.fpMap
    ensures Tally(s, false) + Tally(j.trace, false) == Tally(s + l.trace, false) + Tally(r.trace, false)
  {
    TallySum(l.trace, r.trace, false);
    TallySum(s, l.trace, false);
  }

  ghost predicate Partly(w: Window) {
    Tally(w.trace, false) <= w.fpMap <= Tally(w.trace, true)
  }

  /** Exactly when the root over some windows counts every access once, and when it counts every load. */
  lemma RootExactness(ws: seq<Window>)
    requires ws != [] && NoneEmpty(ws) && Partly(ws[|ws| - 1])
    ensures var last, before := ws[|ws| - 1], Concat(TracesOf(ws[..|ws| - 1]));
      && Partly(Root(ws)) && Root(ws).trace == before + last.trace
      && (Root(ws).fpMap == Tally(Root(ws).trace, false) <==>
          !PowerOfTwo(|ws|) || last.fpMap == Tally(last.trace, false))
      && (Root(ws).fpMap == Tally(Root(ws).trace, true) <==>
          NoFrameLoads(before) && if PowerOfTwo(|ws|) then last.fpMap == Tally(last.trace, true)
                                  else NoFrameLoads(last.trace))
  {
    var last, before := ws[|ws| - 1], Concat(TracesOf(ws[..|ws| - 1]));
    RootCounts(ws);
    RootTrace(ws);
    var fq := if PowerOfTwo(|ws|) then last.fpMap else Tally(last.trace, false);
    TallySize(last.trace);
    NoFrames(last.trace);
    PartlyCounted(before, fq, last.trace);
    TallySum(before, last.trace, false);
    TallySum(before, last.trace, true);
    TallySize(before);
  }

  lemma {:induction false} RootTrace(ws: seq<Window>)
    requires ws != []
    ensures Root(ws).trace == Concat(TracesOf(ws))
    ensures Root(ws).trace == Concat(TracesOf(ws[..|ws| - 1])) + ws[|ws| - 1].trace
    decreases |ws|
  {
    var last := ws[|ws| - 1].trace;
    assert TracesOf(ws) == TracesOf(ws[..|ws| - 1]) + [last];
    ConcatSum(TracesOf(ws[..|ws| - 1]), [last]);
    ConcatOne(last);
    if |ws| == 1 {
      assert TracesOf(ws) == [last];
    } else if |ws| == 2 {
      assert TracesOf(ws[..1]) == [ws[0].trace];
      ConcatOne(ws[0].trace);
    } else {
      NextLevelTraces(ws);
      RootTrace(NextLevel(ws));
    }
  }

  /** The tree of a sample: its leaves count their extra frame loads. */
  lemma SampleExactness(ws: seq<Window>)
    requires SampleLeaves(ws)
    ensures var last, before := ws[|ws| - 1].trace, Concat(TracesOf(ws[..|ws| - 1]));
      && Partly(Root(ws)) && Root(ws).trace == before + last
      && (Root(ws).fpMap == Tally(Root(ws).trace, false) <==> !PowerOfTwo(|ws|) || NoFrameLoads(last))
      && (Root(ws).fpMap == Tally(Root(ws).trace, true) <==>
          NoFrameLoads(before) && (PowerOfTwo(|ws|) || NoFrameLoads(last)))
  {
    var last := ws[|ws| - 1];
    assert IsLeaf(last);
    TallySize(last.trace);
    NoFrames(last.trace);
    forall w | w in ws ensures w.trace != [] {
      var k :| 0 <= k < |ws| && ws[k] == w;
      assert IsLeaf(ws[k]);
    }
    RootExactness(ws);
  }

  /** The tree over the forest: only the last window of the last sample can bring its extra frame loads up. */
  lemma ForestExactness(trace: seq<Access>, forest: seq<Window>, leaves: seq<seq<Window>>)
    requires trace != [] && Forest(trace, forest, leaves)
    ensures forest != []
    ensures var m, ws := |forest|, leaves[|forest| - 1];
      var before, last := Concat(TracesOf(forest[..m - 1])), ws[|ws| - 1].trace;
      && (Root(forest).fpMap == Tally(trace, false) <==> !PowerOfTwo(m) || !PowerOfTwo(|ws|) || NoFrameLoads(last))
      && (Root(forest).fpMap == Tally(trace, true) <==>
          && NoFrameLoads(before) && NoFrameLoads(Concat(TracesOf(ws[..|ws| - 1])))
          && ((PowerOfTwo(m) && PowerOfTwo(|ws|)) || NoFrameLoads(last)))
  {
    FullTreeHoldsTrace(trace, forest, leaves, false);
    var ws := leaves[|forest| - 1];
    ForestNoneEmpty(trace, forest, leaves);
    SampleExactness(ws);
    RootExactness(forest);
    ConcatFrames(Concat(TracesOf(ws[..|ws| - 1])), ws[|ws| - 1].trace);
  }

  lemma ForestNoneEmpty(trace: seq<Access>, forest: seq<Window>, leaves: seq<seq<Window>>)
    requires Forest(trace, forest, leaves)
    ensures NoneEmpty(forest)
  {
    forall w | w in forest ensures w.trace != [] {
      var k :| 0 <= k < |forest| && forest[k] == w;
      TreeHoldsSample(trace, forest, leaves, k, false);
      SamplesAreRuns(trace);
    }
  }

  lemma ForestPartly(trace: seq<Access>, forest: seq<Window>, leaves: seq<seq<Window>>)
    requires trace != [] && Forest(trace, forest, leaves)
    ensures forest != [] && Partly(Root(forest)) && Root(forest).trace == trace
  {
    FullTreeHoldsTrace(trace, forest, leaves, false);
    ForestNoneEmpty(trace, forest, leaves);
    SampleExactness(leaves[|forest| - 1]);
    RootExactness(forest);
  }

  /** So a leaf counts all loads of its trace. */
  lemma LeafMetric(trace: seq<Access>, forest: seq<Window>, leaves: seq<seq<Window>>, k: nat, j: nat, a: nat, m: nat)
    requires Forest(trace, forest, leaves) && k < |leaves| && j < |leaves[k]|
    ensures leaves[k][j].fpMap[(a, m)] == Metric(leaves[k][j].trace, a, m, true)
  {
    assert SampleLeaves(leaves[k]) && IsLeaf(leaves[k][j]);
    TallyMetric(leaves[k][j].trace, a, m, true);
  }

  lemma PartlyMetric(w: Window, a: nat, m: nat)
    requires Partly(w)
    ensures |Places(w.trace, a, m)| <= w.fpMap[(a, m)] <= Metric(w.trace, a, m, true)
    ensures w.fpMap == Tally(w.trace, false) ==> w.fpMap[(a, m)] == |Places(w.trace, a, m)|
    ensures w.fpMap == Tally(w.trace, true) ==> w.fpMap[(a, m)] == Metric(w.trace, a, m, true)
  {
    TallyMetric(w.trace, a, m, false);
    TallyMetric(w.trace, a, m, true);
  }

  /** And the root counts each kind of access to each address as often as there are such accesses, and of the extra
      frame loads none or all where the counts are exact. */
  lemma ForestMetric(trace: seq<Access>, forest: seq<Window>, leaves: seq<seq<Window>>, a: nat, m: nat)
    requires trace != [] && Forest(trace, forest, leaves)
    ensures forest != []
    ensures m != CONSTANT ==> Root(forest).fpMap[(a, m)] == |Places(trace, a, m)|
    ensures |Places(trace, a, m)| <= Root(forest).fpMap[(a, m)] <= Metric(trace, a, m, true)
    ensures var n, ws := |forest|, leaves[|forest| - 1];
      var before, last := Concat(TracesOf(forest[..n - 1])), ws[|ws| - 1].trace;
      && (!PowerOfTwo(n) || !PowerOfTwo(|ws|) || NoFrameLoads(last) ==>
          Root(forest).fpMap[(a, m)] == |Places(trace, a, m)|)
      && (NoFrameLoads(before) && NoFrameLoads(Concat(TracesOf(ws[..|ws| - 1])))
          && ((PowerOfTwo(n) && PowerOfTwo(|ws|)) || NoFrameLoads(last)) ==>
          Root(forest).fpMap[(a, m)] == Metric(trace, a, m, true))
  {
    ForestExactness(trace, forest, leaves);
    ForestPartly(trace, forest, leaves);
    PartlyMetric(Root(forest), a, m);
  }

  lemma ConcatFrames(s: seq<Access>, t: seq<Access>)
    ensures NoFrameLoads(s + t) <==> NoFrameLoads(s) && NoFrameLoads(t)
  {
    assert forall x :: x in s + t <==> x in s || x in t;
  }

  /** The loads of two joined leaves of one access each. */
  lemma TwoLeaves(x: Access, y: Access)
    ensures var l, r := AddAccess(EMPTY, x), AddAccess(EMPTY, y);
      && (Joined(Two(l, r)).fpMap == Tally([x] + [y], false) <==> y.extraFrameLds == 0)
      && (Joined(Two(l, r)).fpMap == Tally([x] + [y], true) <==> x.extraFrameLds == 0)
  {
    LeafOf(x);
    LeafOf(y);
    LoadsOf(x);
    LoadsOf(y);
    PartlyCounted([x], Tally([y], true), [y]);
  }

  lemma LoadsOf(x: Access)
    ensures NoFrameLoads([x]) <==> x.extraFrameLds == 0
    ensures Tally([x], false) <= Tally([x], true) && (Tally([x], true) == Tally([x], false) <==> NoFrameLoads([x]))
  {
    assert x in [x];
    TallySize([x]);
    NoFrames([x]);
  }

  /** Five extra frame loads are lost from the left of two windows, and counted from the right. */
  lemma FrameLoadsExample()
    ensures var x, y := Access(1, 1, 5, 0), Access(2, 1, 0, 0);
      var l, r := AddAccess(EMPTY, x), AddAccess(EMPTY, y);
      && Joined(Two(l, r)).fpMap == Tally([x] + [y], false) != Tally([x] + [y], true)
      && Joined(Two(r, l)).fpMap == Tally([y] + [x], true) != Tally([y] + [x], false)
  {
    TwoLeaves(Access(1, 1, 5, 0), Access(2, 1, 0, 0));
    TwoLeaves(Access(2, 1, 0, 0), Access(1, 1, 5, 0));
  }

  lemma LeafOf(x: Access)
    ensures var w := AddAccess(EMPTY, x);
      w.trace == [x] && w.fpMap == Tally([x], true) && Partly(w)
  {
    var w := AddAccess(EMPTY, x);
    assert w.trace == [x] && [x][..0] == [];
    assert Tally([x], true) == Tally([], true) + Counts(x, true);
    TallySize([x]);
  }
}
