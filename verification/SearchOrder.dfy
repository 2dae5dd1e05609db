/** Which walk the breadth-first search finds, its edges being walked in a given order: the same one always, made of the
    first edges between their frames; and an order of the edges makes it find any shortest walk. */
module SearchOrder {
  import opened Common
  import opened RigidTransforms
  import opened TransformResolution
  import opened TransformGraph
  import opened TransformConsistency
  import opened ShortestWalks

  // ----- one frame expanded

  lemma {:induction false} ExpandJoins(a: seq<Arc>, b: seq<Arc>, current: string, fr: Frontier)
    requires current in fr.walks
    ensures ExpandFrom(a + b, current, fr) == ExpandFrom(b, current, ExpandFrom(a, current, fr))
    decreases |a|
  {
    if a == [] {
      assert a + b == b;
    } else {
      assert (a + b)[0] == a[0] && (a + b)[1..] == a[1..] + b;
      var next := if a[0].toFrame in fr.walks then fr
                  else Frontier(fr.queue + [a[0].toFrame], fr.walks[a[0].toFrame := fr.walks[current] + [a[0]]]);
      ExpandJoins(a[1..], b, current, next);
    }
  }

  lemma {:induction false} ExpandSkips(arcs: seq<Arc>, current: string, fr: Frontier)
    requires current in fr.walks && forall a :: a in arcs ==> a.toFrame in fr.walks
    ensures ExpandFrom(arcs, current, fr) == fr
    decreases |arcs|
  {
    if arcs != [] {
      assert arcs[0] in arcs;
      ExpandSkips(arcs[1..], current, fr);
    }
  }

  /** The frontier has grown by walks one step longer than that of the frame in hand. */
  ghost predicate Grown(before: Frontier, after: Frontier, current: string)
    requires current in before.walks
  {
    && before.queue <= after.queue
    && (forall v :: v in before.walks ==> v in after.walks && after.walks[v] == before.walks[v])
    && forall v :: v in after.walks && v !in before.walks ==> |after.walks[v]| == |before.walks[current]| + 1
  }

  lemma {:induction false} ExpandGrows(arcs: seq<Arc>, current: string, fr: Frontier)
    requires current in fr.walks
    ensures Grown(fr, ExpandFrom(arcs, current, fr), current)
    decreases |arcs|
  {
    if arcs != [] {
      var a := arcs[0];
      var next := if a.toFrame in fr.walks then fr
                  else Frontier(fr.queue + [a.toFrame], fr.walks[a.toFrame := fr.walks[current] + [a]]);
      ExpandGrows(arcs[1..], current, next);
    }
  }

  lemma AdvanceIs(edges: seq<ResolvedEdge>, fr: Frontier)
    requires fr.queue != [] && fr.queue[0] in fr.walks
    ensures var v := fr.queue[0];
      Advance(edges, fr) == ExpandFrom(ArcsFrom(edges, v), v, Frontier(fr.queue[1..], fr.walks))
  {
    hide ExpandFrom, ArcsFrom;
  }

  lemma AdvanceKeepsWalks(edges: seq<ResolvedEdge>, fr: Frontier)
    ensures forall v :: v in fr.walks ==> v in Advance(edges, fr).walks && Advance(edges, fr).walks[v] == fr.walks[v]
  {
    hide ExpandFrom, ArcsFrom;
    if fr.queue != [] && fr.queue[0] in fr.walks {
      AdvanceIs(edges, fr);
      ExpandGrows(ArcsFrom(edges, fr.queue[0]), fr.queue[0], Frontier(fr.queue[1..], fr.walks));
    }
  }

  // ----- the search keeps its account

  lemma {:induction false} ArcsFromAre(edges: seq<ResolvedEdge>, f: string)
    ensures forall a :: a in ArcsFrom(edges, f) <==> IsArc(ElementsOf(edges), a) && a.step.fromFrame == f
  {
    hide UpArc, DownArc, IsArc, ElementsOf;
    if edges == [] {
      NoArcs(f);
    } else {
      var n := |edges| - 1;
      ArcsFromAre(edges[..n], f);
      OneEdgeMore(edges);
      ArcsOfEdgeAre(edges[n], f);
      ArcsOfMore(ElementsOf(edges[..n]), edges[n]);
    }
  }

  lemma NoArcs(f: string)
    ensures forall a :: !IsArc(ElementsOf([]), a)
  {
    hide UpArc, DownArc;
  }

  lemma OneEdgeMore(edges: seq<ResolvedEdge>)
    requires edges != []
    ensures ElementsOf(edges) == ElementsOf(edges[..|edges| - 1]) + {edges[|edges| - 1]}
  {
    assert edges == edges[..|edges| - 1] + [edges[|edges| - 1]];
  }

  lemma ArcsOfEdgeAre(e: ResolvedEdge, f: string)
    ensures forall a :: a in ArcsOfEdge(e, f) <==> (a == UpArc(e) || a == DownArc(e)) && a.step.fromFrame == f
  {
    hide Inverse;
  }

  // The part of the arcs already walked leads to frames near enough.
  lemma {:induction false} ExpandKeeps(graph: set<ResolvedEdge>, source: string, arcs: seq<Arc>, current: string,
                                       fr: Frontier, done: set<string>, d: nat)
    requires InHand(graph, source, current, fr.queue, fr.walks, done, d) && current in fr.walks
    requires forall a :: a in arcs ==> IsArc(graph, a) && a.step.fromFrame == current
    ensures var after := ExpandFrom(arcs, current, fr);
      && InHand(graph, source, current, after.queue, after.walks, done, d)
      && forall a :: a in arcs ==> a.toFrame in after.walks && |after.walks[a.toFrame]| <= d + 1
    decreases |arcs|
  {
    hide InHand, IsArc;
    if arcs != [] {
      var a := arcs[0];
      assert a in arcs && forall b :: b in arcs <==> b == a || b in arcs[1..];
      var next := if a.toFrame in fr.walks then fr
                  else Frontier(fr.queue + [a.toFrame], fr.walks[a.toFrame := fr.walks[current] + [a]]);
      InHandKnows(graph, source, current, fr.queue, fr.walks, done, d);
      if a.toFrame in fr.walks {
        VisitedIsNear(graph, source, current, fr.queue, fr.walks, done, d, a.toFrame);
      } else {
        Discover(graph, source, current, fr.queue, fr.walks, done, d, a);
      }
      ExpandKeeps(graph, source, arcs[1..], current, next, done, d);
      ExpandGrows(arcs[1..], current, next);
    }
  }

  lemma AdvanceExplores(edges: seq<ResolvedEdge>, source: string, fr: Frontier, done: set<string>, d: nat)
    requires Exploring(ElementsOf(edges), source, fr.queue, fr.walks, done, d) && fr.queue != []
    ensures var v, after := fr.queue[0], Advance(edges, fr);
      && v in fr.walks && v !in done && v in FrameUniverse(ElementsOf(edges), source)
      && Exploring(ElementsOf(edges), source, after.queue, after.walks, done + {v}, |fr.walks[v]|)
  {
    hide Exploring, InHand, ExpandFrom, ArcsFrom, IsArc, FrameUniverse, ElementsOf;
    var graph, v := ElementsOf(edges), fr.queue[0];
    TakeHead(graph, source, fr.queue, fr.walks, done, d);
    AdvanceIs(edges, fr);
    ArcsFromAre(edges, v);
    var d' := |fr.walks[v]|;
    ExpandKeeps(graph, source, ArcsFrom(edges, v), v, Frontier(fr.queue[1..], fr.walks), done, d');
    var after := Advance(edges, fr);
    InHandKnows(graph, source, v, after.queue, after.walks, done, d');
    assert SettledFrame(graph, v, after.walks);
    FinishHand(graph, source, v, after.queue, after.walks, done, d');
  }

  /** At every moment of the search its account is right for some set of frames done. */
  ghost predicate IsExplored(edges: seq<ResolvedEdge>, source: string, fr: Frontier) {
    exists done, d :: Exploring(ElementsOf(edges), source, fr.queue, fr.walks, done, d)
  }

  lemma {:induction false} SearchExplores(edges: seq<ResolvedEdge>, source: string, k: nat)
    ensures IsExplored(edges, source, SearchedFor(edges, source, k))
  {
    hide Exploring, Advance;
    if k == 0 {
      StartExploring(ElementsOf(edges), source);
    } else {
      SearchExplores(edges, source, k - 1);
      var fr := SearchedFor(edges, source, k - 1);
      var done, d :| Exploring(ElementsOf(edges), source, fr.queue, fr.walks, done, d);
      if fr.queue == [] {
        AdvanceOfNothing(edges, fr);
      } else {
        AdvanceExplores(edges, source, fr, done, d);
      }
    }
  }

  lemma AdvanceOfNothing(edges: seq<ResolvedEdge>, fr: Frontier)
    requires fr.queue == []
    ensures Advance(edges, fr) == fr
  {
  }

  /** What the search finds is a shortest walk. */
  lemma DiscoveredIsShortest(edges: seq<ResolvedEdge>, source: string, w: seq<Arc>, target: string)
    requires Discovers(edges, source, w, target)
    ensures Shortest(ElementsOf(edges), source, w, target) && NoRepeats(FramesOf(source, w))
  {
    hide Exploring, SearchedFor, Shortest, NoRepeats, FramesOf;
    var k :| DiscoversAt(edges, source, w, target, k);
    var fr := SearchedFor(edges, source, k);
    SearchExplores(edges, source, k);
    var done, d :| Exploring(ElementsOf(edges), source, fr.queue, fr.walks, done, d);
    HeadIsShortest(ElementsOf(edges), source, fr.queue, fr.walks, done, d);
  }

  // From a moment at which the target is not done, the search comes to it.
  lemma {:induction false} SearchFinds(edges: seq<ResolvedEdge>, source: string, target: string, k: nat,
                                       done: set<string>, d: nat)
    requires var fr := SearchedFor(edges, source, k); Exploring(ElementsOf(edges), source, fr.queue, fr.walks, done, d)
    requires Reachable(ElementsOf(edges), source, target) && target !in done
    ensures exists w :: Discovers(edges, source, w, target)
    decreases FrameUniverse(ElementsOf(edges), source) - done
  {
    hide Exploring, Advance, Reachable, FrameUniverse, ElementsOf, Discovers;
    var graph, fr := ElementsOf(edges), SearchedFor(edges, source, k);
    if fr.queue == [] {
      EmptyQueueMeansNoPath(graph, source, fr.walks, done, d, target);
    } else {
      AdvanceExplores(edges, source, fr, done, d);
      var v := fr.queue[0];
      if v == target {
        DiscoveredAt(edges, source, fr.walks[target], target, k);
      } else {
        SearchFinds(edges, source, target, k + 1, done + {v}, |fr.walks[v]|);
      }
    }
  }

  /** Every order finds every frame that can be reached. */
  lemma ReachableIsDiscovered(edges: seq<ResolvedEdge>, source: string, target: string)
    requires Reachable(ElementsOf(edges), source, target)
    ensures exists w :: Discovers(edges, source, w, target)
  {
    hide Exploring, Reachable, Discovers;
    StartExploring(ElementsOf(edges), source);
    SearchFinds(edges, source, target, 0, {}, 0);
  }

  lemma {:induction false} WalksStay(edges: seq<ResolvedEdge>, source: string, k: nat, l: nat, v: string)
    requires k <= l && v in SearchedFor(edges, source, k).walks
    ensures v in SearchedFor(edges, source, l).walks
    ensures SearchedFor(edges, source, l).walks[v] == SearchedFor(edges, source, k).walks[v]
    decreases l
  {
    hide Advance;
    if k < l {
      WalksStay(edges, source, k, l - 1, v);
      AdvanceKeepsWalks(edges, SearchedFor(edges, source, l - 1));
    }
  }

  /** One order finds one walk. */
  lemma DiscoveredOnce(edges: seq<ResolvedEdge>, source: string, u: seq<Arc>, w: seq<Arc>, target: string)
    requires Discovers(edges, source, u, target) && Discovers(edges, source, w, target)
    ensures u == w
  {
    hide SearchedFor;
    var k :| DiscoversAt(edges, source, u, target, k);
    var l :| DiscoversAt(edges, source, w, target, l);
    if k <= l {
      WalksStay(edges, source, k, l, target);
    } else {
      WalksStay(edges, source, l, k, target);
    }
  }

  // ----- the edges of what is found

  /** The edge joins the two frames, in either direction. */
  predicate Joins(e: ResolvedEdge, f: string, g: string) {
    (e.key.childFrame == f && e.key.parentFrame == g) || (e.key.childFrame == g && e.key.parentFrame == f)
  }

  /** The arc's edge is the first, in this order, between its frames. */
  ghost predicate IsFirstEdge(edges: seq<ResolvedEdge>, a: Arc) {
    exists m :: IsFirstEdgeAt(edges, a, m)
  }

  ghost predicate IsFirstEdgeAt(edges: seq<ResolvedEdge>, a: Arc, m: nat) {
    && m < |edges| && edges[m] == a.step.edge
    && forall j :: 0 <= j < m ==> !Joins(edges[j], a.step.fromFrame, a.toFrame)
  }

  /** The arc is the first out of its frame to where it leads. */
  ghost predicate IsFirstArc(edges: seq<ResolvedEdge>, a: Arc) {
    exists i :: IsFirstArcAt(ArcsFrom(edges, a.step.fromFrame), a, i)
  }

  ghost predicate IsFirstArcAt(arcs: seq<Arc>, a: Arc, i: nat) {
    i < |arcs| && arcs[i] == a && forall j :: 0 <= j < i ==> arcs[j].toFrame != a.toFrame
  }

  lemma JoinedHasArc(edges: seq<ResolvedEdge>, e: ResolvedEdge, f: string, g: string)
    requires e in edges && Joins(e, f, g)
    ensures exists a :: a in ArcsFrom(edges, f) && a.toFrame == g
  {
    hide Inverse;
    ArcsFromAre(edges, f);
    var a := if e.key.childFrame == f && e.key.parentFrame == g then UpArc(e) else DownArc(e);
    assert IsArc(ElementsOf(edges), a) && a.step.fromFrame == f && a.toFrame == g;
  }

  lemma ArcOfEdge(e: ResolvedEdge, f: string, a: Arc)
    requires a in ArcsOfEdge(e, f)
    ensures a.step.edge == e && a.step.fromFrame == f && Joins(e, f, a.toFrame)
  {
    hide Inverse;
  }

  lemma {:induction false} FirstArcIsFirstEdge(edges: seq<ResolvedEdge>, a: Arc, i: nat)
    requires IsFirstArcAt(ArcsFrom(edges, a.step.fromFrame), a, i)
    ensures IsFirstEdge(edges, a)
    decreases |edges|
  {
    hide ArcsOfEdge, Joins;
    var f, n := a.step.fromFrame, |edges| - 1;
    var before := ArcsFrom(edges[..n], f);
    assert ArcsFrom(edges, f) == before + ArcsOfEdge(edges[n], f);
    assert forall j :: 0 <= j < |before| ==> ArcsFrom(edges, f)[j] == before[j];
    if i < |before| {
      assert IsFirstArcAt(before, a, i);
      FirstArcIsFirstEdge(edges[..n], a, i);
      var m :| IsFirstEdgeAt(edges[..n], a, m);
      assert IsFirstEdgeAt(edges, a, m);
    } else {
      ArcOfEdge(edges[n], f, a);
      forall j | 0 <= j < n
        ensures !Joins(edges[j], f, a.toFrame)
      {
        if Joins(edges[j], f, a.toFrame) {
          assert edges[..n][j] == edges[j];
          JoinedHasArc(edges[..n], edges[j], f, a.toFrame);
        }
      }
      assert IsFirstEdgeAt(edges, a, n);
    }
  }

  ghost predicate AllFirst(edges: seq<ResolvedEdge>, w: seq<Arc>) {
    forall i :: 0 <= i < |w| ==> IsFirstEdge(edges, w[i])
  }

  ghost predicate WalksFirst(edges: seq<ResolvedEdge>, walks: Walks) {
    forall v :: v in walks ==> AllFirst(edges, walks[v])
  }

  // The arcs from position `n` on; those before lead to visited frames.
  lemma {:induction false} ExpandFirst(edges: seq<ResolvedEdge>, arcs: seq<Arc>, n: nat, current: string, fr: Frontier)
    requires current in fr.walks && n <= |arcs| && arcs == ArcsFrom(edges, current)
    requires WalksFirst(edges, fr.walks) && forall j :: 0 <= j < n ==> arcs[j].toFrame in fr.walks
    ensures WalksFirst(edges, ExpandFrom(arcs[n..], current, fr).walks)
    decreases |arcs| - n
  {
    hide IsFirstEdge, ArcsFrom;
    if n < |arcs| {
      var a := arcs[n];
      assert arcs[n..][0] == a && arcs[n..][1..] == arcs[n + 1..];
      var next := if a.toFrame in fr.walks then fr
                  else Frontier(fr.queue + [a.toFrame], fr.walks[a.toFrame := fr.walks[current] + [a]]);
      if a.toFrame !in fr.walks {
        ArcsFromAre(edges, current);
        assert a in arcs && IsFirstArcAt(arcs, a, n);
        FirstArcIsFirstEdge(edges, a, n);
        assert AllFirst(edges, fr.walks[current]);
      }
      ExpandFirst(edges, arcs, n + 1, current, next);
    }
  }

  lemma {:induction false} SearchIsFirst(edges: seq<ResolvedEdge>, source: string, k: nat)
    ensures WalksFirst(edges, SearchedFor(edges, source, k).walks)
  {
    if k > 0 {
      hide IsFirstEdge, ArcsFrom, ExpandFrom, AllFirst;
      SearchIsFirst(edges, source, k - 1);
      var fr := SearchedFor(edges, source, k - 1);
      if fr.queue != [] && fr.queue[0] in fr.walks {
        AdvanceIs(edges, fr);
        var arcs := ArcsFrom(edges, fr.queue[0]);
        assert arcs[0..] == arcs;
        ExpandFirst(edges, arcs, 0, fr.queue[0], Frontier(fr.queue[1..], fr.walks));
      }
    }
  }

  /** What the search finds uses, between any two frames, the first edge of the order that joins them. */
  lemma DiscoveredIsFirst(edges: seq<ResolvedEdge>, source: string, w: seq<Arc>, target: string)
    requires Discovers(edges, source, w, target)
    ensures AllFirst(edges, w)
  {
    hide SearchedFor, AllFirst;
    var k :| DiscoversAt(edges, source, w, target, k);
    SearchIsFirst(edges, source, k);
  }

  lemma FirstEdgeIsOne(edges: seq<ResolvedEdge>, a: Arc, b: Arc)
    requires IsFirstEdge(edges, a) && IsFirstEdge(edges, b)
    requires Joins(a.step.edge, a.step.fromFrame, a.toFrame) && Joins(b.step.edge, b.step.fromFrame, b.toFrame)
    requires (a.step.fromFrame == b.step.fromFrame && a.toFrame == b.toFrame)
             || (a.step.fromFrame == b.toFrame && a.toFrame == b.step.fromFrame)
    ensures a.step.edge == b.step.edge
  {
    var m :| IsFirstEdgeAt(edges, a, m);
    var n :| IsFirstEdgeAt(edges, b, n);
  }

  // ----- leading the search along a walk

  /** At every frame of the walk its arc is the first that does not lead back to the frame before. */
  ghost predicate Leads(edges: seq<ResolvedEdge>, u: seq<Arc>) {
    forall i :: 0 <= i < |u| ==> LeadsOn(edges, u, i)
  }

  ghost predicate LeadsOn(edges: seq<ResolvedEdge>, u: seq<Arc>, i: nat)
    requires i < |u|
  {
    exists p :: LeadsAt(edges, u, i, p)
  }

  ghost predicate LeadsAt(edges: seq<ResolvedEdge>, u: seq<Arc>, i: nat, p: nat)
    requires i < |u|
  {
    var arcs := ArcsFrom(edges, u[i].step.fromFrame);
    p < |arcs| && arcs[p] == u[i] && LeadBack(arcs, p, BackFrom(u, i))
  }

  /** The frame before, if there is one. */
  function BackFrom(u: seq<Arc>, i: nat): Option<string>
    requires i < |u|
  {
    if i > 0 then Some(u[i - 1].step.fromFrame) else None
  }

  predicate LeadBack(arcs: seq<Arc>, p: nat, back: Option<string>) {
    p <= |arcs| && forall r :: 0 <= r < p ==> Some(arcs[r].toFrame) == back
  }

  /** Frame `j` of the walk waits at place `p`, behind nearer frames only, and the search has followed the walk. */
  ghost predicate Coming(fr: Frontier, source: string, u: seq<Arc>, j: nat, p: nat)
    requires j <= |u|
  {
    && p < |fr.queue| && fr.queue[p] == FramesOf(source, u)[j]
    && (forall r :: 0 <= r < p ==> fr.queue[r] in fr.walks && |fr.walks[fr.queue[r]]| < j)
    && (forall i :: 0 <= i <= j ==> FramesOf(source, u)[i] in fr.walks && fr.walks[FramesOf(source, u)[i]] == u[..i])
    && forall v :: v in fr.walks ==> |fr.walks[v]| <= j
  }

  // A nearer frame is taken off the queue first.
  lemma ComesCloser(edges: seq<ResolvedEdge>, source: string, u: seq<Arc>, j: nat, p: nat, fr: Frontier)
    requires j <= |u| && Coming(fr, source, u, j, p) && p > 0
    ensures Coming(Advance(edges, fr), source, u, j, p - 1)
  {
    hide ExpandFrom, ArcsFrom, FramesOf;
    var v := fr.queue[0];
    AdvanceIs(edges, fr);
    var rest := Frontier(fr.queue[1..], fr.walks);
    ExpandGrows(ArcsFrom(edges, v), v, rest);
    var after := Advance(edges, fr);
    assert forall r :: 0 <= r < |rest.queue| ==> after.queue[r] == fr.queue[r + 1];
  }

  lemma {:induction false} ComesToHead(edges: seq<ResolvedEdge>, source: string, u: seq<Arc>, j: nat, p: nat, k: nat)
    requires j <= |u| && Coming(SearchedFor(edges, source, k), source, u, j, p)
    ensures exists l: nat :: Coming(SearchedFor(edges, source, l), source, u, j, 0)
    decreases p
  {
    hide Coming, Advance;
    if p > 0 {
      ComesCloser(edges, source, u, j, p, SearchedFor(edges, source, k));
      ComesToHead(edges, source, u, j, p - 1, k + 1);
    }
  }

  lemma VisitedHasWalk(edges: seq<ResolvedEdge>, source: string, k: nat, v: string)
    requires v in SearchedFor(edges, source, k).walks
    ensures IsWalk(ElementsOf(edges), source, SearchedFor(edges, source, k).walks[v], v)
  {
    hide SearchedFor, IsWalk, NoRepeats, FrameUniverse, FramesOf;
    SearchExplores(edges, source, k);
  }

  // No walk to the next frame is as short as those found so far.
  lemma NextIsNotVisited(edges: seq<ResolvedEdge>, source: string, u: seq<Arc>, target: string, j: nat, k: nat)
    requires Shortest(ElementsOf(edges), source, u, target) && j < |u|
    requires forall v :: v in SearchedFor(edges, source, k).walks ==> |SearchedFor(edges, source, k).walks[v]| <= j
    ensures FramesOf(source, u)[j + 1] !in SearchedFor(edges, source, k).walks
  {
    hide SearchedFor, IsWalk;
    PartIsShortest(ElementsOf(edges), source, u, target, 0, j + 1);
    if FramesOf(source, u)[j + 1] in SearchedFor(edges, source, k).walks {
      VisitedHasWalk(edges, source, k, FramesOf(source, u)[j + 1]);
    }
  }

  lemma QueuedIsVisited(edges: seq<ResolvedEdge>, source: string, k: nat)
    ensures var fr := SearchedFor(edges, source, k); forall v :: v in fr.queue ==> v in fr.walks
  {
    hide SearchedFor, Walked, Settled, FrameUniverse;
    SearchExplores(edges, source, k);
  }

  /** Frame `j` of the walk waits somewhere. */
  ghost predicate IsComing(fr: Frontier, source: string, u: seq<Arc>, j: nat)
    requires j <= |u|
  {
    exists p :: Coming(fr, source, u, j, p)
  }

  lemma ComingKnows(fr: Frontier, source: string, u: seq<Arc>, j: nat, p: nat)
    requires j <= |u| && Coming(fr, source, u, j, p)
    ensures forall v :: v in fr.walks ==> |fr.walks[v]| <= j
  {
    hide FramesOf;
  }

  // The frame at the head is left along the walk.
  lemma HeadMovesOn(edges: seq<ResolvedEdge>, source: string, u: seq<Arc>, target: string, j: nat, k: nat)
    requires Shortest(ElementsOf(edges), source, u, target) && Leads(edges, u) && j < |u|
    requires Coming(SearchedFor(edges, source, k), source, u, j, 0)
    ensures IsComing(SearchedFor(edges, source, k + 1), source, u, j + 1)
  {
    hide SearchedFor, Shortest, LeadsAt, Coming, FramesOf, Advance;
    var fr := SearchedFor(edges, source, k);
    ComingKnows(fr, source, u, j, 0);
    NextIsNotVisited(edges, source, u, target, j, k);
    assert LeadsOn(edges, u, j);
    var p :| LeadsAt(edges, u, j, p);
    WalkFrames(ElementsOf(edges), source, u, target, j);
    hide Leads;
    QueuedIsVisited(edges, source, k);
    var q := AlongTheArc(edges, source, u, j, p, fr);
    NextSearch(edges, source, k);
  }

  lemma NextSearch(edges: seq<ResolvedEdge>, source: string, k: nat)
    ensures SearchedFor(edges, source, k + 1) == Advance(edges, SearchedFor(edges, source, k))
  {
    hide Advance;
  }

  lemma WalkFrames(edges: set<ResolvedEdge>, source: string, u: seq<Arc>, target: string, j: nat)
    requires Shortest(edges, source, u, target) && j < |u|
    ensures u[j].step.fromFrame == FramesOf(source, u)[j] && u[j].toFrame == FramesOf(source, u)[j + 1]
    ensures j > 0 ==> u[j - 1].step.fromFrame == FramesOf(source, u)[j - 1]
  {
    assert j > 0 ==> u[j - 1].toFrame == u[j].step.fromFrame;
    assert j > 1 ==> u[j - 2].toFrame == u[j - 1].step.fromFrame;
  }

  lemma AlongTheArc(edges: seq<ResolvedEdge>, source: string, u: seq<Arc>, j: nat, p: nat, fr: Frontier)
    returns (q: nat)
    requires j < |u| && Coming(fr, source, u, j, 0) && LeadsAt(edges, u, j, p)
    requires u[j].step.fromFrame == FramesOf(source, u)[j] && u[j].toFrame == FramesOf(source, u)[j + 1]
    requires j > 0 ==> u[j - 1].step.fromFrame == FramesOf(source, u)[j - 1]
    requires FramesOf(source, u)[j + 1] !in fr.walks && forall v :: v in fr.queue ==> v in fr.walks
    ensures Coming(Advance(edges, fr), source, u, j + 1, q)
  {
    hide ExpandFrom, ArcsFrom, FramesOf, Grown;
    var v := fr.queue[0];
    var rest := Frontier(fr.queue[1..], fr.walks);
    AdvanceIs(edges, fr);
    var arcs := ArcsFrom(edges, v);
    var found := Frontier(rest.queue + [u[j].toFrame], fr.walks[u[j].toFrame := fr.walks[v] + [u[j]]]);
    SplitAt(arcs, p);
    ExpandJoins(arcs[..p], arcs[p..], v, rest);
    ExpandSkips(arcs[..p], v, rest);
    OneExpanded(arcs[p..], v, rest);
    ExpandGrows(arcs[p + 1..], v, found);
    q := |rest.queue|;
    Arrived(source, u, j, fr, found, Advance(edges, fr));
  }

  // The next frame stands behind those that waited.
  lemma Arrived(source: string, u: seq<Arc>, j: nat, fr: Frontier, found: Frontier, after: Frontier)
    requires j < |u| && Coming(fr, source, u, j, 0) && u[j].toFrame == FramesOf(source, u)[j + 1]
    requires FramesOf(source, u)[j + 1] !in fr.walks
    requires found == Frontier(fr.queue[1..] + [u[j].toFrame],
                               fr.walks[u[j].toFrame := fr.walks[fr.queue[0]] + [u[j]]])
    requires Grown(found, after, fr.queue[0])
    requires forall v :: v in fr.queue ==> v in fr.walks
    ensures Coming(after, source, u, j + 1, |fr.queue| - 1)
  {
    hide FramesOf;
    var p := |fr.queue| - 1;
    assert u[..j] + [u[j]] == u[..j + 1];
    assert after.queue[p] == found.queue[p] == u[j].toFrame;
    forall r | 0 <= r < p
      ensures after.queue[r] == fr.queue[r + 1]
    {
      assert after.queue[r] == found.queue[r];
    }
  }

  lemma SplitAt(arcs: seq<Arc>, p: nat)
    requires p < |arcs|
    ensures arcs == arcs[..p] + arcs[p..] && arcs[p..][0] == arcs[p] && arcs[p..][1..] == arcs[p + 1..]
  {
  }

  lemma OneExpanded(arcs: seq<Arc>, current: string, fr: Frontier)
    requires current in fr.walks && arcs != [] && arcs[0].toFrame !in fr.walks
    ensures var a := arcs[0];
      ExpandFrom(arcs, current, fr) ==
      ExpandFrom(arcs[1..], current, Frontier(fr.queue + [a.toFrame], fr.walks[a.toFrame := fr.walks[current] + [a]]))
  {
  }

  lemma {:induction false} FollowsTo(edges: seq<ResolvedEdge>, source: string, u: seq<Arc>, target: string, j: nat)
    requires Shortest(ElementsOf(edges), source, u, target) && Leads(edges, u) && j <= |u|
    ensures exists k: nat :: Coming(SearchedFor(edges, source, k), source, u, j, 0)
  {
    hide Shortest, Leads, Coming, SearchedFor, FramesOf, Advance;
    if j == 0 {
      StartIsComing(edges, source, u);
    } else {
      FollowsTo(edges, source, u, target, j - 1);
      var k: nat :| Coming(SearchedFor(edges, source, k), source, u, j - 1, 0);
      HeadMovesOn(edges, source, u, target, j - 1, k);
      var fr := SearchedFor(edges, source, k + 1);
      var p :| Coming(fr, source, u, j, p);
      ComesToHead(edges, source, u, j, p, k + 1);
    }
  }

  lemma StartIsComing(edges: seq<ResolvedEdge>, source: string, u: seq<Arc>)
    ensures Coming(SearchedFor(edges, source, 0), source, u, 0, 0)
  {
    assert FramesOf(source, u)[0] == source && u[..0] == [];
  }

  /** A shortest walk the order leads along is the one the search finds. */
  lemma LeadIsDiscovered(edges: seq<ResolvedEdge>, source: string, u: seq<Arc>, target: string)
    requires Shortest(ElementsOf(edges), source, u, target) && Leads(edges, u)
    ensures Discovers(edges, source, u, target)
  {
    FollowsTo(edges, source, u, target, |u|);
    EndOf(ElementsOf(edges), source, u, target);
    hide Shortest, Leads, SearchedFor, FramesOf;
    var k: nat :| Coming(SearchedFor(edges, source, k), source, u, |u|, 0);
    assert u[..|u|] == u;
    DiscoveredAt(edges, source, u, target, k);
  }

  lemma EndOf(edges: set<ResolvedEdge>, source: string, u: seq<Arc>, target: string)
    requires Shortest(edges, source, u, target)
    ensures FramesOf(source, u)[|u|] == target
  {
  }

  // ----- orders

  /** The edges in some order, each once. */
  ghost predicate Orders(order: seq<ResolvedEdge>, edges: set<ResolvedEdge>) {
    ElementsOf(order) == edges && forall i, j :: 0 <= i < j < |order| ==> order[i] != order[j]
  }

  predicate HasTwoFrames(e: ResolvedEdge) {
    e.key.parentFrame != e.key.childFrame
  }

  predicate TouchesFrame(e: ResolvedEdge, f: string) {
    e.key.parentFrame == f || e.key.childFrame == f
  }

  /** Some edges first, the others behind them. */
  lemma OrderBehind(first: seq<ResolvedEdge>, edges: set<ResolvedEdge>) returns (order: seq<ResolvedEdge>)
    requires ElementsOf(first) <= edges && forall i, j :: 0 <= i < j < |first| ==> first[i] != first[j]
    ensures Orders(order, edges) && first <= order
    decreases edges - ElementsOf(first)
  {
    if edges - ElementsOf(first) == {} {
      assert ElementsOf(first) == edges;
      order := first;
    } else {
      var e :| e in edges - ElementsOf(first);
      assert ElementsOf(first + [e]) == ElementsOf(first) + {e};
      order := OrderBehind(first + [e], edges);
    }
  }

  lemma {:induction false} ArcsFromPrefix(edges: seq<ResolvedEdge>, m: nat, f: string)
    requires m <= |edges|
    ensures ArcsFrom(edges[..m], f) <= ArcsFrom(edges, f)
    decreases |edges|
  {
    hide ArcsOfEdge;
    if m == |edges| {
      assert edges[..m] == edges;
    } else {
      var n := |edges| - 1;
      ArcsFromPrefix(edges[..n], m, f);
      assert edges[..n][..m] == edges[..m];
    }
  }

  lemma BackOnly(e: ResolvedEdge, f: string, back: string, a: Arc)
    requires a in ArcsOfEdge(e, f) && HasTwoFrames(e) && Joins(e, f, back)
    ensures a.toFrame == back
  {
    hide Inverse;
  }

  lemma ArcOfListed(edges: seq<ResolvedEdge>, f: string, a: Arc)
    requires a in ArcsFrom(edges, f)
    ensures exists j :: 0 <= j < |edges| && edges[j] == a.step.edge && a in ArcsOfEdge(edges[j], f)
  {
    hide ArcsFrom, ArcsOfEdge, UpArc, DownArc;
    ArcsFromAre(edges, f);
    assert a.step.edge in edges;
    var j :| 0 <= j < |edges| && edges[j] == a.step.edge;
    ArcsOfEdgeAre(edges[j], f);
  }

  /** The order leads on at an arc when, of the edges before its own, only those back touch its frame. */
  lemma LeadByPlace(order: seq<ResolvedEdge>, u: seq<Arc>, i: nat, m: nat)
    requires i < |u| && m < |order| && order[m] == u[i].step.edge
    requires u[i] in ArcsOfEdge(order[m], u[i].step.fromFrame) && forall e :: e in order ==> HasTwoFrames(e)
    requires forall j :: 0 <= j < m && TouchesFrame(order[j], u[i].step.fromFrame) ==>
        i > 0 && Joins(order[j], u[i].step.fromFrame, u[i - 1].step.fromFrame)
    ensures LeadsOn(order, u, i)
  {
    hide ArcsFrom, HasTwoFrames, Joins;
    var f := u[i].step.fromFrame;
    var before := ArcsFrom(order[..m], f);
    var p := |before|;
    ArcsFromPrefix(order, m + 1, f);
    ArcsFromNext(order, m, f);
    OneArcEach(order[m], f, u[i]);
    var arcs := ArcsFrom(order, f);
    assert before + [u[i]] <= arcs;
    assert forall r :: 0 <= r <= p ==> arcs[r] == (before + [u[i]])[r];
    forall r | 0 <= r < p
      ensures Some(arcs[r].toFrame) == BackFrom(u, i)
    {
      var a := before[r];
      ArcOfListed(order[..m], f, a);
      var j :| 0 <= j < m && order[..m][j] == a.step.edge && a in ArcsOfEdge(order[..m][j], f);
      ArcTouches(order[j], f, a);
      BackOnly(order[j], f, u[i - 1].step.fromFrame, a);
    }
    PlaceLeads(order, u, i, p, arcs);
  }

  lemma PlaceLeads(order: seq<ResolvedEdge>, u: seq<Arc>, i: nat, p: nat, arcs: seq<Arc>)
    requires i < |u| && arcs == ArcsFrom(order, u[i].step.fromFrame)
    requires p < |arcs| && arcs[p] == u[i] && LeadBack(arcs, p, BackFrom(u, i))
    ensures LeadsOn(order, u, i)
  {
    hide ArcsFrom, LeadBack, BackFrom;
    assert LeadsAt(order, u, i, p);
  }

  lemma ArcsFromNext(edges: seq<ResolvedEdge>, m: nat, f: string)
    requires m < |edges|
    ensures ArcsFrom(edges[..m + 1], f) == ArcsFrom(edges[..m], f) + ArcsOfEdge(edges[m], f)
  {
    hide ArcsOfEdge;
    assert edges[..m + 1][..m] == edges[..m];
  }

  lemma OneArcEach(e: ResolvedEdge, f: string, a: Arc)
    requires HasTwoFrames(e) && a in ArcsOfEdge(e, f)
    ensures ArcsOfEdge(e, f) == [a]
  {
    hide Inverse;
  }

  lemma ArcTouches(e: ResolvedEdge, f: string, a: Arc)
    requires a in ArcsOfEdge(e, f)
    ensures TouchesFrame(e, f)
  {
    hide Inverse;
  }

  // ----- an order for a walk

  function EdgesAlong(w: seq<Arc>): (edges: seq<ResolvedEdge>)
    ensures |edges| == |w|
  {
    seq(|w|, i requires 0 <= i < |w| => w[i].step.edge)
  }

  /** The walk with its frames: each arc leads from one to the next over its edge. */
  ghost predicate Runs(edges: set<ResolvedEdge>, w: seq<Arc>, frames: seq<string>) {
    && |frames| == |w| + 1 && NoRepeats(frames)
    && forall i :: 0 <= i < |w| ==> RunsAt(edges, w, frames, i)
  }

  ghost predicate RunsAt(edges: set<ResolvedEdge>, w: seq<Arc>, frames: seq<string>, i: nat)
    requires |frames| == |w| + 1 && i < |w|
  {
    && w[i].step.edge in edges && w[i] in ArcsOfEdge(w[i].step.edge, frames[i])
    && w[i].step.fromFrame == frames[i] && w[i].toFrame == frames[i + 1]
    && Joins(w[i].step.edge, frames[i], frames[i + 1])
  }

  lemma ShortestRuns(edges: set<ResolvedEdge>, a: string, w: seq<Arc>, b: string)
    requires Shortest(edges, a, w, b)
    ensures Runs(edges, w, FramesOf(a, w)) && FramesOf(a, w)[0] == a && FramesOf(a, w)[|w|] == b
  {
    ShortestHasNoRepeats(edges, a, w, b);
    var f := FramesOf(a, w);
    forall i | 0 <= i < |w|
      ensures RunsAt(edges, w, f, i)
    {
      assert IsArc(edges, w[i]);
      WalkFrames(edges, a, w, b, i);
      ArcsOfEdgeAre(w[i].step.edge, f[i]);
      ArcJoins(edges, w[i]);
    }
    hide NoRepeats;
  }

  lemma ArcJoins(edges: set<ResolvedEdge>, a: Arc)
    requires IsArc(edges, a)
    ensures Joins(a.step.edge, a.step.fromFrame, a.toFrame)
  {
    hide Inverse;
  }

  // Of the edges of a walk only the one before touches a frame the walk leaves.
  lemma OnlyBackTouches(edges: set<ResolvedEdge>, w: seq<Arc>, frames: seq<string>, i: nat, j: nat)
    requires Runs(edges, w, frames) && j < i < |w| && TouchesFrame(w[j].step.edge, frames[i])
    ensures j == i - 1 && Joins(w[j].step.edge, frames[i], frames[i - 1])
  {
    assert RunsAt(edges, w, frames, j);
  }

  lemma EdgesDiffer(edges: set<ResolvedEdge>, w: seq<Arc>, frames: seq<string>, i: nat, j: nat)
    requires Runs(edges, w, frames) && i < j < |w|
    ensures w[i].step.edge != w[j].step.edge
  {
    assert RunsAt(edges, w, frames, i) && RunsAt(edges, w, frames, j);
  }

  /** Every shortest walk is the one some order of the edges finds. */
  lemma ShortestIsAttained(edges: set<ResolvedEdge>, a: string, u: seq<Arc>, b: string)
    returns (order: seq<ResolvedEdge>)
    requires Shortest(edges, a, u, b) && forall e :: e in edges ==> HasTwoFrames(e)
    ensures Orders(order, edges) && Discovers(order, a, u, b)
  {
    hide Shortest, HasTwoFrames, FramesOf, Joins, ArcsOfEdge, Discovers, TouchesFrame;
    var f := FramesOf(a, u);
    ShortestRuns(edges, a, u, b);
    var first := EdgesAlong(u);
    forall i, j | 0 <= i < j < |first|
      ensures first[i] != first[j]
    {
      EdgesDiffer(edges, u, f, i, j);
    }
    forall e | e in first
      ensures e in edges
    {
      var i :| 0 <= i < |first| && first[i] == e;
      assert RunsAt(edges, u, f, i);
    }
    order := OrderBehind(first, edges);
    forall i | 0 <= i < |u|
      ensures LeadsOn(order, u, i)
    {
      assert RunsAt(edges, u, f, i) && order[i] == first[i];
      forall j | 0 <= j < i && TouchesFrame(order[j], f[i])
        ensures i > 0 && Joins(order[j], f[i], u[i - 1].step.fromFrame)
      {
        assert order[j] == first[j] && RunsAt(edges, u, f, i - 1);
        OnlyBackTouches(edges, u, f, i, j);
      }
      LeadByPlace(order, u, i, i);
    }
    LeadIsDiscovered(order, a, u, b);
  }

  // ----- one order for two walks

  /** The two walks share no frame but their ends: the inner frames of each are none of the other's. */
  ghost predicate Apart(f: seq<string>, g: seq<string>) {
    && (forall i, j :: 0 < i < |f| - 1 && 0 <= j < |g| ==> f[i] != g[j])
    && (forall i, j :: 0 <= i < |f| && 0 < j < |g| - 1 ==> f[i] != g[j])
  }

  lemma ApartEdge(edges: set<ResolvedEdge>, w: seq<Arc>, g: seq<string>, j: nat, x: string)
    requires Runs(edges, w, g) && j < |w| && forall l :: 0 <= l < |g| ==> g[l] != x
    ensures !TouchesFrame(w[j].step.edge, x)
  {
    assert RunsAt(edges, w, g, j);
  }

  // An inner frame of the one walk is touched by no edge of the other.
  lemma InnerIsUntouched(edges: set<ResolvedEdge>, f: seq<string>, w: seq<Arc>, g: seq<string>, i: nat, j: nat)
    requires Runs(edges, w, g) && Apart(f, g) && 0 < i < |f| - 1 && j < |w|
    ensures !TouchesFrame(w[j].step.edge, f[i])
  {
    hide Runs, TouchesFrame;
    NoneIs(f, g, i);
    RunsLength(edges, w, g);
    ApartEdge(edges, w, g, j, f[i]);
  }

  lemma NoneIs(f: seq<string>, g: seq<string>, i: nat)
    requires Apart(f, g) && 0 < i < |f| - 1
    ensures forall l :: 0 <= l < |g| ==> g[l] != f[i]
  {
  }

  lemma ApartSymmetric(f: seq<string>, g: seq<string>)
    requires Apart(f, g)
    ensures Apart(g, f)
  {
  }

  lemma RunsLength(edges: set<ResolvedEdge>, w: seq<Arc>, g: seq<string>)
    requires Runs(edges, w, g)
    ensures |g| == |w| + 1
  {
  }

  lemma EdgesApart(edges: set<ResolvedEdge>, u: seq<Arc>, f: seq<string>, w: seq<Arc>, g: seq<string>, i: nat, j: nat)
    requires Runs(edges, u, f) && Runs(edges, w, g) && Apart(f, g) && |u| >= 2 && i < |u| && j < |w|
    ensures u[i].step.edge != w[j].step.edge
  {
    assert RunsAt(edges, u, f, i);
    var k := if i == 0 then 1 else i;
    assert TouchesFrame(u[i].step.edge, f[k]);
    InnerIsUntouched(edges, f, w, g, k, j);
  }

  // No edge of the walk but its last touches its end.
  lemma EndIsUntouched(edges: set<ResolvedEdge>, u: seq<Arc>, f: seq<string>, j: nat)
    requires Runs(edges, u, f) && j < |u| - 1
    ensures !TouchesFrame(u[j].step.edge, f[|u|])
  {
    assert RunsAt(edges, u, f, j);
  }

  /** All edges of the one walk but the last, then of the other, then the two last ones. */
  function Interleaved(u: seq<Arc>, w: seq<Arc>): (first: seq<ResolvedEdge>)
    requires |u| == |w| >= 2
    ensures |first| == 2 * |u|
  {
    var d := |u|;
    seq(2 * d, x requires 0 <= x < 2 * d =>
      if x < d - 1 then u[x].step.edge
      else if x < 2 * (d - 1) then w[x - (d - 1)].step.edge
      else if x == 2 * (d - 1) then u[d - 1].step.edge
      else w[d - 1].step.edge)
  }

  lemma InterleavedOnce(edges: set<ResolvedEdge>, u: seq<Arc>, f: seq<string>, w: seq<Arc>, g: seq<string>)
    requires Runs(edges, u, f) && Runs(edges, w, g) && Apart(f, g) && |u| == |w| >= 2
    ensures forall x, y :: 0 <= x < y < 2 * |u| ==> Interleaved(u, w)[x] != Interleaved(u, w)[y]
    ensures ElementsOf(Interleaved(u, w)) <= edges
  {
    hide Runs, Apart;
    var d, first := |u|, Interleaved(u, w);
    forall i, j | 0 <= i < d && 0 <= j < d
      ensures u[i].step.edge != w[j].step.edge && u[i].step.edge in edges && w[j].step.edge in edges
      ensures i != j ==> u[i].step.edge != u[j].step.edge && w[i].step.edge != w[j].step.edge
    {
      EdgesApart(edges, u, f, w, g, i, j);
      RunsEdges(edges, u, f, i);
      RunsEdges(edges, w, g, j);
      if i < j {
        EdgesDiffer(edges, u, f, i, j);
        EdgesDiffer(edges, w, g, i, j);
      } else if j < i {
        EdgesDiffer(edges, u, f, j, i);
        EdgesDiffer(edges, w, g, j, i);
      }
    }
  }

  lemma RunsEdges(edges: set<ResolvedEdge>, w: seq<Arc>, g: seq<string>, i: nat)
    requires Runs(edges, w, g) && i < |w|
    ensures w[i].step.edge in edges && w[i] in ArcsOfEdge(w[i].step.edge, w[i].step.fromFrame)
    ensures |g| == |w| + 1 && w[i].step.fromFrame == g[i]
  {
    assert RunsAt(edges, w, g, i);
  }

  // The order leads along the first walk.
  lemma LeadsFirst(edges: set<ResolvedEdge>, order: seq<ResolvedEdge>, u: seq<Arc>, f: seq<string>, w: seq<Arc>,
                   g: seq<string>, i: nat)
    requires Runs(edges, u, f) && Runs(edges, w, g) && Apart(f, g) && |u| == |w| >= 2 && i < |u|
    requires Interleaved(u, w) <= order && forall e :: e in order ==> HasTwoFrames(e)
    ensures LeadsOn(order, u, i)
  {
    hide Runs, Apart, HasTwoFrames, TouchesFrame, Joins, ArcsOfEdge;
    var d, first := |u|, Interleaved(u, w);
    var m := if i < d - 1 then i else 2 * (d - 1);
    RunsEdges(edges, u, f, i);
    assert order[m] == first[m] == u[i].step.edge;
    forall x | 0 <= x < m && TouchesFrame(order[x], f[i])
      ensures i > 0 && Joins(order[x], f[i], u[i - 1].step.fromFrame)
    {
      assert order[x] == first[x];
      if x < d - 1 {
        OnlyBackTouches(edges, u, f, i, x);
        RunsEdges(edges, u, f, i - 1);
      } else {
        InnerIsUntouched(edges, f, w, g, i, x - (d - 1));
      }
    }
    LeadByPlace(order, u, i, m);
  }

  // And along the second.
  lemma LeadsSecond(edges: set<ResolvedEdge>, order: seq<ResolvedEdge>, u: seq<Arc>, f: seq<string>, w: seq<Arc>,
                    g: seq<string>, i: nat)
    requires Runs(edges, u, f) && Runs(edges, w, g) && Apart(f, g) && |u| == |w| >= 2 && i < |w|
    requires f[|u|] == g[0]
    requires Interleaved(u, w) <= order && forall e :: e in order ==> HasTwoFrames(e)
    ensures LeadsOn(order, w, i)
  {
    hide Runs, Apart, HasTwoFrames, TouchesFrame, Joins, ArcsOfEdge;
    var d, first := |u|, Interleaved(u, w);
    var m := if i < d - 1 then d - 1 + i else 2 * d - 1;
    RunsEdges(edges, w, g, i);
    RunsEdges(edges, u, f, 0);
    ApartSymmetric(f, g);
    assert order[m] == first[m] == w[i].step.edge;
    forall x | 0 <= x < m && TouchesFrame(order[x], g[i])
      ensures i > 0 && Joins(order[x], g[i], w[i - 1].step.fromFrame)
    {
      assert order[x] == first[x];
      if x < d - 1 {
        if i == 0 {
          EndIsUntouched(edges, u, f, x);
        } else {
          InnerIsUntouched(edges, g, u, f, i, x);
        }
      } else if x < 2 * (d - 1) {
        OnlyBackTouches(edges, w, g, i, x - (d - 1));
        RunsEdges(edges, w, g, i - 1);
      } else {
        InnerIsUntouched(edges, g, u, f, i, d - 1);
      }
    }
    LeadByPlace(order, w, i, m);
  }

  /** Two shortest walks there and back that share no frame but their ends are found under one order of the edges. */
  lemma BothAreAttained(edges: set<ResolvedEdge>, a: string, u: seq<Arc>, b: string, w: seq<Arc>)
    returns (order: seq<ResolvedEdge>)
    requires Shortest(edges, a, u, b) && Shortest(edges, b, w, a) && |u| == |w| >= 2
    requires Apart(FramesOf(a, u), FramesOf(b, w)) && forall e :: e in edges ==> HasTwoFrames(e)
    ensures Orders(order, edges) && Discovers(order, a, u, b) && Discovers(order, b, w, a)
  {
    hide Shortest, HasTwoFrames, FramesOf, Discovers, Apart, Runs, LeadsOn;
    var f, g := FramesOf(a, u), FramesOf(b, w);
    ShortestRuns(edges, a, u, b);
    ShortestRuns(edges, b, w, a);
    InterleavedOnce(edges, u, f, w, g);
    order := OrderBehind(Interleaved(u, w), edges);
    forall i | 0 <= i < |u|
      ensures LeadsOn(order, u, i) && LeadsOn(order, w, i)
    {
      LeadsFirst(edges, order, u, f, w, g, i);
      LeadsSecond(edges, order, u, f, w, g, i);
    }
    LeadIsDiscovered(order, a, u, b);
    LeadIsDiscovered(order, b, w, a);
  }
}
