/** When the answers of the transform query agree with each other.  The search answers with a shortest walk, and which
    one depends on the order in which the store walks its edges; these are the exact conditions under which that
    choice never shows, for one order and for any two. */
module TransformAgreement {
  import opened Common
  import opened RigidTransforms
  import opened TransformHistory
  import opened TransformResolution
  import opened TransformGraph
  import opened TransformConsistency
  import opened TransformQuery
  import opened ShortestWalks
  import opened SearchOrder

  // ----- every shortest walk is an answer

  lemma ShortestReaches(edges: set<ResolvedEdge>, a: string, w: seq<Arc>, b: string)
    requires Shortest(edges, a, w, b)
    ensures Reachable(edges, a, b)
  {
    hide IsWalk;
  }

  lemma DiscoveredIn(order: seq<ResolvedEdge>, edges: set<ResolvedEdge>, a: string, w: seq<Arc>, b: string)
    requires Orders(order, edges) && Discovers(order, a, w, b)
    ensures Shortest(edges, a, w, b) && NoRepeats(FramesOf(a, w))
  {
    hide Discovers, Shortest, NoRepeats, FramesOf;
    DiscoveredIsShortest(order, a, w, b);
  }

  // What the search finds is answered.
  lemma DiscoveredAnswers(order: seq<ResolvedEdge>, retained: Retained, a: string, w: seq<Arc>, b: string, q: EdgeQuery,
                          slerp: Slerp)
    requires Orders(order, ResolvedEdges(retained, q, slerp)) && Discovers(order, a, w, b)
    ensures ResolvesIn(order, retained, a, b, q, slerp, Answer(a, b, q.atUs, Along(w), StepsOf(w)))
  {
    hide Discovers, Shortest, NoRepeats, FramesOf, Orders, ResolvedEdges, ConflictingEdges, Along, StepsOf, Reachable;
    var edges := ResolvedEdges(retained, q, slerp);
    DiscoveredIn(order, edges, a, w, b);
    ShortestReaches(edges, a, w, b);
    assert IsAnswerAlong(Answer(a, b, q.atUs, Along(w), StepsOf(w)), a, b, q.atUs, w);
  }

  lemma AnswerIsDiscovered(order: seq<ResolvedEdge>, retained: Retained, a: string, b: string, q: EdgeQuery,
                           slerp: Slerp, x: TransformAnswer)
    returns (w: seq<Arc>)
    requires ResolvesIn(order, retained, a, b, q, slerp, x) && x.Answer?
    ensures Discovers(order, a, w, b) && x.transform == Along(w)
    ensures Orders(order, ResolvedEdges(retained, q, slerp)) && Shortest(ResolvedEdges(retained, q, slerp), a, w, b)
  {
    hide Discovers, Resolves, Orders, ResolvedEdges, Along, StepsOf, Shortest;
    w :| Discovers(order, a, w, b) && IsAnswerAlong(x, a, b, q.atUs, w);
    DiscoveredIn(order, ResolvedEdges(retained, q, slerp), a, w, b);
  }

  ghost predicate AreFrames(retained: Retained) {
    forall k :: k in retained ==> k.parentFrame != k.childFrame
  }

  /** The answers of a query over all orders of the store's edges are exactly the products of the shortest walks.  The
      Fabric takes only edges between two different frames. */
  lemma AnswersAreShortest(retained: Retained, a: string, b: string, q: EdgeQuery, slerp: Slerp, t: Rigid)
    requires AreFrames(retained)
    ensures (exists order, x :: ResolvesIn(order, retained, a, b, q, slerp, x) && x.Answer? && x.transform == t)
            <==> exists w :: Shortest(ResolvedEdges(retained, q, slerp), a, w, b) && Along(w) == t
  {
    hide ResolvedEdges, Along, Shortest, ResolvesIn, HasTwoFrames, AreFrames, Orders, Discovers;
    var edges := ResolvedEdges(retained, q, slerp);
    if order, x :| ResolvesIn(order, retained, a, b, q, slerp, x) && x.Answer? && x.transform == t {
      var w := AnswerIsDiscovered(order, retained, a, b, q, slerp, x);
    }
    if w :| Shortest(edges, a, w, b) && Along(w) == t {
      var order, x := ShortestIsAnswered(retained, a, w, b, q, slerp);
    }
  }

  lemma ShortestIsAnswered(retained: Retained, a: string, w: seq<Arc>, b: string, q: EdgeQuery, slerp: Slerp)
    returns (order: seq<ResolvedEdge>, x: TransformAnswer)
    requires AreFrames(retained) && Shortest(ResolvedEdges(retained, q, slerp), a, w, b)
    ensures ResolvesIn(order, retained, a, b, q, slerp, x) && x.Answer? && x.transform == Along(w)
  {
    hide ResolvedEdges, Along, Shortest, ResolvesIn, HasTwoFrames, AreFrames, Orders, Discovers, StepsOf;
    ResolvedHaveTwoFrames(retained, q, slerp);
    order := ShortestIsAttained(ResolvedEdges(retained, q, slerp), a, w, b);
    DiscoveredAnswers(order, retained, a, w, b, q, slerp);
    x := Answer(a, b, q.atUs, Along(w), StepsOf(w));
  }

  lemma ResolvedHaveTwoFrames(retained: Retained, q: EdgeQuery, slerp: Slerp)
    requires AreFrames(retained)
    ensures forall e :: e in ResolvedEdges(retained, q, slerp) ==> HasTwoFrames(e)
  {
    forall k | k in retained && IsResolved(k, retained[k], q, slerp)
      ensures ScanEdge(k, retained[k], q, slerp).edge.value.key == k
    {
      ScanKeepsKey(k, retained[k], q, slerp);
    }
    hide ScanEdge;
  }

  // ----- opposite queries

  /** Any two shortest walks between the same frames have the same product. */
  ghost predicate ShortestAgree(edges: set<ResolvedEdge>) {
    forall a, b, u, v :: Shortest(edges, a, u, b) && Shortest(edges, a, v, b) ==> Along(u) == Along(v)
  }

  ghost predicate OppositesCancel(edges: set<ResolvedEdge>) {
    forall a, b, u, v :: Shortest(edges, a, u, b) && Shortest(edges, b, v, a) ==>
      Compose(Along(v), Along(u)) == IDENTITY
  }

  lemma OppositesCancelIff(edges: set<ResolvedEdge>)
    ensures OppositesCancel(edges) <==> ShortestAgree(edges)
  {
    hide Shortest, Along, Compose, Inverse, ReverseWalk;
    if ShortestAgree(edges) {
      forall a, b, u, v | Shortest(edges, a, u, b) && Shortest(edges, b, v, a)
        ensures Compose(Along(v), Along(u)) == IDENTITY
      {
        Reversed(edges, b, v, a);
        assert Along(ReverseWalk(v)) == Along(u);
        InverseInverse(Along(v));
        ComposeInverse(Along(u));
      }
    }
    if OppositesCancel(edges) {
      forall a, b, u, v | Shortest(edges, a, u, b) && Shortest(edges, a, v, b)
        ensures Along(u) == Along(v)
      {
        Reversed(edges, a, v, b);
        assert Compose(Along(ReverseWalk(v)), Along(u)) == IDENTITY;
        InverseUnique(Along(ReverseWalk(v)), Along(u));
        InverseInverse(Along(u));
        InverseInverse(Along(v));
      }
    }
  }

  lemma Reversed(edges: set<ResolvedEdge>, a: string, w: seq<Arc>, b: string)
    requires Shortest(edges, a, w, b)
    ensures Shortest(edges, b, ReverseWalk(w), a) && Along(ReverseWalk(w)) == Inverse(Along(w))
  {
    ReverseIsShortest(edges, a, w, b);
    AlongReverse(edges, a, w, b);
    hide IsWalk, Along, Inverse, ReverseWalk;
  }

  /** All answers of opposite queries compose to the identity, in whatever orders the store walks its edges for the
      one and for the other. */
  ghost predicate OppositeAnswersCancel(retained: Retained, q: EdgeQuery, slerp: Slerp) {
    forall order, other, a, b, x, y ::
      (ResolvesIn(order, retained, a, b, q, slerp, x) && ResolvesIn(other, retained, b, a, q, slerp, y)
       && x.Answer? && y.Answer?) ==>
      Compose(y.transform, x.transform) == IDENTITY
  }

  /** Opposite queries undo each other under any two orders exactly when, between any two frames, all shortest walks
      agree. */
  lemma OppositeQueriesCancelIff(retained: Retained, q: EdgeQuery, slerp: Slerp)
    requires AreFrames(retained)
    ensures OppositeAnswersCancel(retained, q, slerp) <==> ShortestAgree(ResolvedEdges(retained, q, slerp))
  {
    hide ResolvedEdges, ResolvesIn, Shortest, Along, Compose, ShortestAgree, Discovers, AreFrames, Orders;
    var edges := ResolvedEdges(retained, q, slerp);
    OppositesCancelIff(edges);
    if OppositesCancel(edges) {
      forall order, other, a, b, x, y |
        ResolvesIn(order, retained, a, b, q, slerp, x) && ResolvesIn(other, retained, b, a, q, slerp, y)
        && x.Answer? && y.Answer?
        ensures Compose(y.transform, x.transform) == IDENTITY
      {
        var u := AnswerIsDiscovered(order, retained, a, b, q, slerp, x);
        var v := AnswerIsDiscovered(other, retained, b, a, q, slerp, y);
      }
    }
    if OppositeAnswersCancel(retained, q, slerp) {
      forall a, b, u, v | Shortest(edges, a, u, b) && Shortest(edges, b, v, a)
        ensures Compose(Along(v), Along(u)) == IDENTITY
      {
        var order, x := ShortestIsAnswered(retained, a, u, b, q, slerp);
        var other, y := ShortestIsAnswered(retained, b, v, a, q, slerp);
      }
    }
  }

  // ----- opposite queries of one order

  /** The two arcs lie between the same two frames. */
  predicate SameFrames(x: Arc, y: Arc) {
    || (x.step.fromFrame == y.step.fromFrame && x.toFrame == y.toFrame)
    || (x.step.fromFrame == y.toFrame && x.toFrame == y.step.fromFrame)
  }

  /** Where both walks pass between the same two frames, they use the same edge. */
  ghost predicate Compatible(u: seq<Arc>, v: seq<Arc>) {
    forall i, j :: 0 <= i < |u| && 0 <= j < |v| && SameFrames(u[i], v[j]) ==> u[i].step.edge == v[j].step.edge
  }

  ghost predicate CompatibleAgree(edges: set<ResolvedEdge>) {
    forall a, b, u, v :: Shortest(edges, a, u, b) && Shortest(edges, a, v, b) && Compatible(u, v) ==>
        Along(u) == Along(v)
  }

  /** In every order, what is found there and back undo each other. */
  ghost predicate EveryOrderCancels(edges: set<ResolvedEdge>) {
    forall order, a, b, u, w ::
      Orders(order, edges) && Discovers(order, a, u, b) && Discovers(order, b, w, a) ==>
      Compose(Along(w), Along(u)) == IDENTITY
  }

  // There and back over first edges only.
  lemma FoundIsCompatible(order: seq<ResolvedEdge>, edges: set<ResolvedEdge>, a: string, u: seq<Arc>, b: string,
                          w: seq<Arc>)
    requires Orders(order, edges) && Discovers(order, a, u, b) && Discovers(order, b, w, a)
    ensures Compatible(u, ReverseWalk(w))
  {
    hide Discovers, IsFirstEdge, Orders, Shortest, Joins;
    DiscoveredIn(order, edges, a, u, b);
    DiscoveredIn(order, edges, b, w, a);
    DiscoveredIsFirst(order, a, u, b);
    DiscoveredIsFirst(order, b, w, a);
    var r := ReverseWalk(w);
    forall i, j | 0 <= i < |u| && 0 <= j < |r| && SameFrames(u[i], r[j])
      ensures u[i].step.edge == r[j].step.edge
    {
      var k := |w| - 1 - j;
      ShortestArc(edges, a, u, b, i);
      ShortestArc(edges, b, w, a, k);
      ReversedArc(edges, w[k]);
      FirstEdgeIsOne(order, u[i], w[k]);
    }
  }

  lemma ShortestArc(edges: set<ResolvedEdge>, a: string, u: seq<Arc>, b: string, i: nat)
    requires Shortest(edges, a, u, b) && i < |u|
    ensures IsArc(edges, u[i]) && Joins(u[i].step.edge, u[i].step.fromFrame, u[i].toFrame)
  {
    ArcJoins(edges, u[i]);
    hide Joins;
  }

  lemma ReversedArc(edges: set<ResolvedEdge>, a: Arc)
    requires IsArc(edges, a)
    ensures var r := ReverseArc(a);
      r.step.edge == a.step.edge && r.step.fromFrame == a.toFrame && r.toFrame == a.step.fromFrame
  {
    hide Inverse;
  }

  lemma OrderCancels(order: seq<ResolvedEdge>, edges: set<ResolvedEdge>, a: string, u: seq<Arc>, b: string, w: seq<Arc>)
    requires CompatibleAgree(edges) && Orders(order, edges) && Discovers(order, a, u, b) && Discovers(order, b, w, a)
    ensures Compose(Along(w), Along(u)) == IDENTITY
  {
    hide Discovers, Orders, Shortest, Compatible, Along, Compose, Inverse, ReverseWalk;
    FoundIsCompatible(order, edges, a, u, b, w);
    DiscoveredIn(order, edges, a, u, b);
    DiscoveredIn(order, edges, b, w, a);
    Reversed(edges, b, w, a);
    assert Along(u) == Along(ReverseWalk(w));
    ComposeInverse(Along(w));
  }

  // A frame both walks visit stands at the same place in both.
  lemma SamePlace(edges: set<ResolvedEdge>, a: string, u: seq<Arc>, v: seq<Arc>, b: string, i: nat, j: nat)
    requires Shortest(edges, a, u, b) && Shortest(edges, a, v, b) && i <= |u| && j <= |v|
    requires FramesOf(a, u)[i] == FramesOf(a, v)[j]
    ensures i == j
  {
    hide IsWalk;
    PartIsShortest(edges, a, u, b, 0, i);
    PartIsShortest(edges, a, v, b, 0, j);
  }

  lemma SameLength(edges: set<ResolvedEdge>, a: string, u: seq<Arc>, v: seq<Arc>, b: string)
    requires Shortest(edges, a, u, b) && Shortest(edges, a, v, b)
    ensures |u| == |v|
  {
    hide IsWalk;
  }

  lemma FramesReversed(edges: set<ResolvedEdge>, a: string, v: seq<Arc>, b: string)
    requires Shortest(edges, a, v, b)
    ensures |FramesOf(b, ReverseWalk(v))| == |v| + 1
    ensures forall j :: 0 <= j <= |v| ==> FramesOf(b, ReverseWalk(v))[j] == FramesOf(a, v)[|v| - j]
  {
    hide Shortest, FramesOf, ReverseWalk;
    ReversedLength(v);
    EndOf(edges, a, v, b);
    forall j | 0 < j <= |v|
      ensures FramesOf(b, ReverseWalk(v))[j] == FramesOf(a, v)[|v| - j]
    {
      FrameReversed(edges, a, v, b, j);
    }
  }

  lemma FrameReversed(edges: set<ResolvedEdge>, a: string, v: seq<Arc>, b: string, j: nat)
    requires Shortest(edges, a, v, b) && 0 < j <= |v|
    ensures |ReverseWalk(v)| == |v| && FramesOf(b, ReverseWalk(v))[j] == FramesOf(a, v)[|v| - j]
  {
    hide Shortest, ReverseArc, ReverseWalk, Joins, IsArc;
    ShortestArc(edges, a, v, b, |v| - j);
    ReversedArc(edges, v[|v| - j]);
    WalkFrames(edges, a, v, b, |v| - j);
    ReversedAt(v, j);
  }

  lemma ReversedAt(v: seq<Arc>, j: nat)
    requires 0 < j <= |v|
    ensures |ReverseWalk(v)| == |v| && ReverseWalk(v)[j - 1] == ReverseArc(v[|v| - j])
  {
    hide ReverseArc;
  }

  // Walks that meet nowhere inside are apart from each other's reverse.
  lemma NotMeetingIsApart(edges: set<ResolvedEdge>, a: string, u: seq<Arc>, v: seq<Arc>, b: string)
    requires Shortest(edges, a, u, b) && Shortest(edges, a, v, b)
    requires forall i :: 0 < i < |u| ==> i > |v| || FramesOf(a, u)[i] != FramesOf(a, v)[i]
    ensures Apart(FramesOf(a, u), FramesOf(b, ReverseWalk(v)))
  {
    hide Shortest, FramesOf, ReverseWalk;
    var f, g, h := FramesOf(a, u), FramesOf(a, v), FramesOf(b, ReverseWalk(v));
    SameLength(edges, a, u, v, b);
    FramesReversed(edges, a, v, b);
    forall i, j | 0 <= i <= |u| && 0 <= j <= |v| && (0 < i < |u| || 0 < j < |v|)
      ensures f[i] != h[j]
    {
      if f[i] == g[|v| - j] {
        SamePlace(edges, a, u, v, b, i, |v| - j);
      }
    }
  }

  lemma OneArcWalks(edges: set<ResolvedEdge>, a: string, u: seq<Arc>, v: seq<Arc>, b: string)
    requires Shortest(edges, a, u, b) && Shortest(edges, a, v, b) && |u| == |v| == 1 && Compatible(u, v)
    requires forall e :: e in edges ==> HasTwoFrames(e)
    ensures u == v
  {
    hide Inverse;
    assert IsArc(edges, u[0]) && IsArc(edges, v[0]);
    assert SameFrames(u[0], v[0]);
    assert u == [u[0]] && v == [v[0]];
  }

  lemma PartsCompatible(u: seq<Arc>, v: seq<Arc>, i: nat)
    requires Compatible(u, v) && i <= |u| && i <= |v|
    ensures Compatible(u[..i], v[..i]) && Compatible(u[i..], v[i..])
  {
    hide SameFrames;
  }

  lemma AlongParts(u: seq<Arc>, i: nat)
    requires i <= |u|
    ensures Along(u) == Compose(Along(u[i..]), Along(u[..i]))
  {
    assert u == u[..i] + u[i..];
    AlongJoin(u[..i], u[i..]);
    hide Compose;
  }

  lemma {:induction false} CompatibleMustAgree(edges: set<ResolvedEdge>, a: string, u: seq<Arc>, v: seq<Arc>, b: string)
    requires EveryOrderCancels(edges) && forall e :: e in edges ==> HasTwoFrames(e)
    requires Shortest(edges, a, u, b) && Shortest(edges, a, v, b) && Compatible(u, v)
    ensures Along(u) == Along(v)
    decreases |u|
  {
    hide Shortest, Compatible, HasTwoFrames, EveryOrderCancels, Along, Compose, FramesOf;
    var d := |u|;
    SameLength(edges, a, u, v, b);
    if d == 0 {
      assert u == v;
    } else if d == 1 {
      OneArcWalks(edges, a, u, v, b);
    } else if i :| 0 < i < d && FramesOf(a, u)[i] == FramesOf(a, v)[i] {
      PartsCompatible(u, v, i);
      PartsOfShortest(edges, a, u, b, i);
      PartsOfShortest(edges, a, v, b, i);
      CompatibleMustAgree(edges, a, u[..i], v[..i], FramesOf(a, u)[i]);
      CompatibleMustAgree(edges, FramesOf(a, u)[i], u[i..], v[i..], b);
      AlongParts(u, i);
      AlongParts(v, i);
    } else {
      ApartMustAgree(edges, a, u, v, b);
    }
  }

  lemma PartsOfShortest(edges: set<ResolvedEdge>, a: string, u: seq<Arc>, b: string, i: nat)
    requires Shortest(edges, a, u, b) && i <= |u|
    ensures Shortest(edges, a, u[..i], FramesOf(a, u)[i]) && Shortest(edges, FramesOf(a, u)[i], u[i..], b)
  {
    PartIsShortest(edges, a, u, b, 0, i);
    PartIsShortest(edges, a, u, b, i, |u|);
    EndOf(edges, a, u, b);
    hide Shortest;
    assert u[0..i] == u[..i] && u[i..|u|] == u[i..];
  }

  // Two walks that meet nowhere inside are found, there and back, under one order.
  lemma ApartMustAgree(edges: set<ResolvedEdge>, a: string, u: seq<Arc>, v: seq<Arc>, b: string)
    requires EveryOrderCancels(edges) && forall e :: e in edges ==> HasTwoFrames(e)
    requires Shortest(edges, a, u, b) && Shortest(edges, a, v, b) && |u| == |v| >= 2
    requires forall i :: 0 < i < |u| ==> FramesOf(a, u)[i] != FramesOf(a, v)[i]
    ensures Along(u) == Along(v)
  {
    hide Shortest, HasTwoFrames, Along, Compose, FramesOf, ReverseWalk, Inverse, Apart, Discovers, Orders;
    var w := ReverseWalk(v);
    NotMeetingIsApart(edges, a, u, v, b);
    Reversed(edges, a, v, b);
    ReversedLength(v);
    var order := BothAreAttained(edges, a, u, b, w);
    assert Compose(Along(w), Along(u)) == IDENTITY;
    InverseUnique(Along(w), Along(u));
    InverseInverse(Along(v));
  }

  lemma ReversedLength(v: seq<Arc>)
    ensures |ReverseWalk(v)| == |v|
  {
  }

  lemma EveryOrderCancelsIff(edges: set<ResolvedEdge>)
    requires forall e :: e in edges ==> HasTwoFrames(e)
    ensures EveryOrderCancels(edges) <==> CompatibleAgree(edges)
  {
    hide Shortest, HasTwoFrames, Along, Compose, Discovers, Orders, Compatible;
    if CompatibleAgree(edges) {
      forall order, a, b, u, w | Orders(order, edges) && Discovers(order, a, u, b) && Discovers(order, b, w, a)
        ensures Compose(Along(w), Along(u)) == IDENTITY
      {
        OrderCancels(order, edges, a, u, b, w);
      }
    }
    if EveryOrderCancels(edges) {
      forall a, b, u, v | Shortest(edges, a, u, b) && Shortest(edges, a, v, b) && Compatible(u, v)
        ensures Along(u) == Along(v)
      {
        CompatibleMustAgree(edges, a, u, v, b);
      }
    }
  }

  /** All answers of opposite queries compose to the identity when the store does not change its order in between. */
  ghost predicate OppositeAnswersOfOneOrderCancel(retained: Retained, q: EdgeQuery, slerp: Slerp) {
    forall order, a, b, x, y ::
      (ResolvesIn(order, retained, a, b, q, slerp, x) && ResolvesIn(order, retained, b, a, q, slerp, y)
       && x.Answer? && y.Answer?) ==>
      Compose(y.transform, x.transform) == IDENTITY
  }

  /** With one order for both, opposite queries always undo each other exactly when all shortest walks agree that use
      the same edge wherever they pass between the same two frames: a second edge between two frames does no harm by
      itself, since one order always takes the same of the two. */
  lemma OppositeQueriesOfOneOrderIff(retained: Retained, q: EdgeQuery, slerp: Slerp)
    requires AreFrames(retained)
    ensures OppositeAnswersOfOneOrderCancel(retained, q, slerp) <==> CompatibleAgree(ResolvedEdges(retained, q, slerp))
  {
    hide ResolvedEdges, ResolvesIn, Along, Compose, CompatibleAgree, Discovers, AreFrames, Orders, HasTwoFrames,
         StepsOf;
    var edges := ResolvedEdges(retained, q, slerp);
    ResolvedHaveTwoFrames(retained, q, slerp);
    EveryOrderCancelsIff(edges);
    if EveryOrderCancels(edges) {
      forall order, a, b, x, y |
        ResolvesIn(order, retained, a, b, q, slerp, x) && ResolvesIn(order, retained, b, a, q, slerp, y)
        && x.Answer? && y.Answer?
        ensures Compose(y.transform, x.transform) == IDENTITY
      {
        var u := AnswerIsDiscovered(order, retained, a, b, q, slerp, x);
        var v := AnswerIsDiscovered(order, retained, b, a, q, slerp, y);
      }
    }
    if OppositeAnswersOfOneOrderCancel(retained, q, slerp) {
      forall order, a, b, u, w | Orders(order, edges) && Discovers(order, a, u, b) && Discovers(order, b, w, a)
        ensures Compose(Along(w), Along(u)) == IDENTITY
      {
        DiscoveredAnswers(order, retained, a, u, b, q, slerp);
        DiscoveredAnswers(order, retained, b, w, a, q, slerp);
      }
    }
  }

  // ----- chained queries

  ghost predicate ShortestChain(edges: set<ResolvedEdge>) {
    forall a, b, c, u, v, w ::
      Shortest(edges, a, u, b) && Shortest(edges, b, v, c) && Shortest(edges, a, w, c) ==>
      Compose(Along(v), Along(u)) == Along(w)
  }

  lemma ArcIsShortest(edges: set<ResolvedEdge>, arc: Arc)
    requires IsArc(edges, arc) && HasTwoFrames(arc.step.edge)
    ensures Shortest(edges, arc.step.fromFrame, [arc], arc.toFrame)
  {
  }

  /** When shortest walks chain, every walk has the product of a shortest one. */
  lemma {:induction false} ChainsReachAllWalks(edges: set<ResolvedEdge>, a: string, x: seq<Arc>, b: string, w: seq<Arc>)
    requires ShortestChain(edges) && forall e :: e in edges ==> HasTwoFrames(e)
    requires IsWalk(edges, a, x, b) && Shortest(edges, a, w, b)
    ensures Along(x) == Along(w)
    decreases |x|
  {
    if x == [] {
      assert w == [];
    } else {
      var n := |x| - 1;
      var mid := x[n].step.fromFrame;
      PrefixWalk(edges, a, x, b, n);
      assert IsArc(edges, x[n]);
      var u := SomeShortest(edges, a, x[..n], mid);
      ChainsReachAllWalks(edges, a, x[..n], mid, u);
      ArcIsShortest(edges, x[n]);
      AlongOne(x[n]);
      assert x[n].toFrame == b;
      hide IsWalk, Shortest, Compose;
      assert Compose(Along([x[n]]), Along(u)) == Along(w);
    }
  }

  lemma ShortestChainIff(edges: set<ResolvedEdge>)
    requires forall e :: e in edges ==> HasTwoFrames(e)
    ensures ShortestChain(edges) <==> exists pose :: Explains(pose, edges)
  {
    hide *;
    if pose :| Explains(pose, edges) {
      ExplainedChains(pose, edges);
    }
    if ShortestChain(edges) {
      ChainMeansIndependent(edges);
      IndependentIffExplained(edges);
    }
  }

  lemma ExplainedChains(pose: Poses, edges: set<ResolvedEdge>)
    requires Explains(pose, edges)
    ensures ShortestChain(edges)
  {
    hide Explains, Along, Compose, Between, IsWalk;
    forall a, b, c, u, v, w | Shortest(edges, a, u, b) && Shortest(edges, b, v, c) && Shortest(edges, a, w, c)
      ensures Compose(Along(v), Along(u)) == Along(w)
    {
      AlongIsBetween(pose, edges, a, u, b);
      AlongIsBetween(pose, edges, b, v, c);
      AlongIsBetween(pose, edges, a, w, c);
      BetweenTelescopes(pose, a, b, c);
    }
  }

  lemma ChainMeansIndependent(edges: set<ResolvedEdge>)
    requires ShortestChain(edges) && forall e :: e in edges ==> HasTwoFrames(e)
    ensures PathIndependent(edges)
  {
    hide Along, IsWalk, Shortest, ShortestChain, HasTwoFrames;
    forall a, b, u, v | IsWalk(edges, a, u, b) && IsWalk(edges, a, v, b)
      ensures Along(u) == Along(v)
    {
      var w := SomeShortest(edges, a, u, b);
      ChainsReachAllWalks(edges, a, u, b, w);
      ChainsReachAllWalks(edges, a, v, b, w);
    }
  }

  /** All answers of chained queries compose to all answers of the joint query, in whatever orders. */
  ghost predicate ChainedAnswersAgree(retained: Retained, q: EdgeQuery, slerp: Slerp) {
    forall order, other, third, a, b, c, x, y, z ::
      (ResolvesIn(order, retained, a, b, q, slerp, x) && ResolvesIn(other, retained, b, c, q, slerp, y)
       && ResolvesIn(third, retained, a, c, q, slerp, z)
       && x.Answer? && y.Answer? && z.Answer?) ==>
      Compose(y.transform, x.transform) == z.transform
  }

  /** Chained queries agree with the joint query under any three orders exactly when some poses of the frames explain
      every resolved edge. */
  lemma ChainedQueriesAgreeIff(retained: Retained, q: EdgeQuery, slerp: Slerp)
    requires AreFrames(retained)
    ensures ChainedAnswersAgree(retained, q, slerp) <==>
      exists pose :: Explains(pose, ResolvedEdges(retained, q, slerp))
  {
    hide ResolvedEdges, ResolvesIn, Shortest, Along, Compose, Explains, Discovers, Orders, AreFrames, HasTwoFrames;
    var edges := ResolvedEdges(retained, q, slerp);
    ResolvedHaveTwoFrames(retained, q, slerp);
    ShortestChainIff(edges);
    if ShortestChain(edges) {
      forall order, other, third, a, b, c, x, y, z |
        ResolvesIn(order, retained, a, b, q, slerp, x) && ResolvesIn(other, retained, b, c, q, slerp, y)
        && ResolvesIn(third, retained, a, c, q, slerp, z) && x.Answer? && y.Answer? && z.Answer?
        ensures Compose(y.transform, x.transform) == z.transform
      {
        var u := AnswerIsDiscovered(order, retained, a, b, q, slerp, x);
        var v := AnswerIsDiscovered(other, retained, b, c, q, slerp, y);
        var w := AnswerIsDiscovered(third, retained, a, c, q, slerp, z);
      }
    }
    if ChainedAnswersAgree(retained, q, slerp) {
      forall a, b, c, u, v, w | Shortest(edges, a, u, b) && Shortest(edges, b, v, c) && Shortest(edges, a, w, c)
        ensures Compose(Along(v), Along(u)) == Along(w)
      {
        var order, x := ShortestIsAnswered(retained, a, u, b, q, slerp);
        var other, y := ShortestIsAnswered(retained, b, v, c, q, slerp);
        var third, z := ShortestIsAnswered(retained, a, w, c, q, slerp);
      }
    }
  }

  // ----- chained queries of one order

  /** The edges that come first, in this order, between their two frames. */
  ghost function Firsts(order: seq<ResolvedEdge>): set<ResolvedEdge> {
    set e | e in order && IsFirstEdge(order, UpArc(e))
  }

  ghost predicate ChainsIn(order: seq<ResolvedEdge>) {
    forall a, b, c, u, v, w :: Discovers(order, a, u, b) && Discovers(order, b, v, c) && Discovers(order, a, w, c) ==>
      Compose(Along(v), Along(u)) == Along(w)
  }

  lemma FirstBothWays(order: seq<ResolvedEdge>, a: Arc)
    requires IsArc(ElementsOf(order), a) && IsFirstEdge(order, a)
    ensures a.step.edge in Firsts(order) && IsArc(Firsts(order), a)
  {
    hide Inverse;
    var m :| IsFirstEdgeAt(order, a, m);
    assert IsFirstEdgeAt(order, UpArc(a.step.edge), m);
  }

  lemma FirstsAreFirst(order: seq<ResolvedEdge>, a: Arc)
    requires IsArc(Firsts(order), a)
    ensures IsArc(ElementsOf(order), a) && IsFirstEdge(order, a)
  {
    hide Inverse;
    var m :| IsFirstEdgeAt(order, UpArc(a.step.edge), m);
    assert IsFirstEdgeAt(order, a, m);
  }

  // What is found is a walk over first edges.
  lemma FoundOverFirsts(order: seq<ResolvedEdge>, a: string, u: seq<Arc>, b: string)
    requires Discovers(order, a, u, b)
    ensures IsWalk(Firsts(order), a, u, b)
  {
    hide Discovers, Firsts, IsFirstEdge, NoRepeats, FramesOf, IsArc;
    DiscoveredIsShortest(order, a, u, b);
    DiscoveredIsFirst(order, a, u, b);
    forall i | 0 <= i < |u|
      ensures IsArc(Firsts(order), u[i])
    {
      FirstBothWays(order, u[i]);
    }
  }

  lemma WalkOverFirsts(order: seq<ResolvedEdge>, a: string, u: seq<Arc>, b: string)
    requires IsWalk(Firsts(order), a, u, b)
    ensures IsWalk(ElementsOf(order), a, u, b)
  {
    hide Firsts, IsFirstEdge, IsArc;
    forall i | 0 <= i < |u|
      ensures IsArc(ElementsOf(order), u[i])
    {
      FirstsAreFirst(order, u[i]);
    }
  }

  // From a frame to its neighbour the search goes over the first edge between them.
  lemma NeighbourIsFound(order: seq<ResolvedEdge>, a: Arc)
    requires IsArc(Firsts(order), a) && forall e :: e in order ==> HasTwoFrames(e)
    ensures Discovers(order, a.step.fromFrame, [a], a.toFrame)
  {
    hide Discovers, Firsts, IsFirstEdge, NoRepeats, FramesOf;
    FirstsAreFirst(order, a);
    ArcIsShortest(ElementsOf(order), a);
    var f, g := a.step.fromFrame, a.toFrame;
    ReachableByArc(order, a);
    var w :| Discovers(order, f, w, g);
    DiscoveredIsShortest(order, f, w, g);
    DiscoveredIsFirst(order, f, w, g);
    SameLength(ElementsOf(order), f, [a], w, g);
    SameFirstArc(order, a, w, g);
  }

  lemma ReachableByArc(order: seq<ResolvedEdge>, a: Arc)
    requires Shortest(ElementsOf(order), a.step.fromFrame, [a], a.toFrame)
    ensures exists w :: Discovers(order, a.step.fromFrame, w, a.toFrame)
  {
    hide Shortest, Discovers, Reachable;
    ShortestReaches(ElementsOf(order), a.step.fromFrame, [a], a.toFrame);
    ReachableIsDiscovered(order, a.step.fromFrame, a.toFrame);
  }

  lemma SameFirstArc(order: seq<ResolvedEdge>, a: Arc, w: seq<Arc>, g: string)
    requires IsArc(ElementsOf(order), a) && IsFirstEdge(order, a) && HasTwoFrames(a.step.edge) && g == a.toFrame
    requires IsWalk(ElementsOf(order), a.step.fromFrame, w, g) && |w| == 1 && IsFirstEdge(order, w[0])
    ensures w == [a]
  {
    hide IsFirstEdge, Inverse;
    assert IsArc(ElementsOf(order), w[0]);
    ArcJoins(ElementsOf(order), a);
    ArcJoins(ElementsOf(order), w[0]);
    FirstEdgeIsOne(order, a, w[0]);
    assert w == [w[0]];
  }

  /** When what one order finds chains, every walk over first edges has the product of what is found. */
  lemma {:induction false} ChainsReachFirsts(order: seq<ResolvedEdge>, a: string, x: seq<Arc>, b: string, w: seq<Arc>)
    requires ChainsIn(order) && forall e :: e in order ==> HasTwoFrames(e)
    requires IsWalk(Firsts(order), a, x, b) && Discovers(order, a, w, b)
    ensures Along(x) == Along(w)
    decreases |x|
  {
    hide ChainsIn, Discovers, Firsts, HasTwoFrames, Compose, IsArc;
    if x == [] {
      SourceIsFound(order, a);
      DiscoveredOnce(order, a, [], w, a);
    } else {
      var n := |x| - 1;
      var mid := x[n].step.fromFrame;
      PrefixWalk(Firsts(order), a, x, b, n);
      assert IsArc(Firsts(order), x[n]);
      WalkIsFound(order, a, x[..n], mid);
      var u :| Discovers(order, a, u, mid);
      ChainsReachFirsts(order, a, x[..n], mid, u);
      NeighbourIsFound(order, x[n]);
      AlongOne(x[n]);
      ChainedFound(order, a, u, mid, [x[n]], b, w);
    }
  }

  lemma SourceIsFound(order: seq<ResolvedEdge>, a: string)
    ensures Discovers(order, a, [], a)
  {
    assert DiscoversAt(order, a, [], a, 0);
  }

  lemma WalkIsFound(order: seq<ResolvedEdge>, a: string, x: seq<Arc>, b: string)
    requires IsWalk(Firsts(order), a, x, b)
    ensures exists u :: Discovers(order, a, u, b)
  {
    hide Firsts, Discovers, IsWalk;
    WalkOverFirsts(order, a, x, b);
    assert Reachable(ElementsOf(order), a, b);
    ReachableIsDiscovered(order, a, b);
  }

  lemma ChainedFound(order: seq<ResolvedEdge>, a: string, u: seq<Arc>, b: string, v: seq<Arc>, c: string, w: seq<Arc>)
    requires ChainsIn(order) && Discovers(order, a, u, b) && Discovers(order, b, v, c) && Discovers(order, a, w, c)
    ensures Compose(Along(v), Along(u)) == Along(w)
  {
    hide Discovers, Compose, Along;
  }

  lemma ChainsMeansIndependent(order: seq<ResolvedEdge>)
    requires ChainsIn(order) && forall e :: e in order ==> HasTwoFrames(e)
    ensures PathIndependent(Firsts(order))
  {
    hide Along, IsWalk, ChainsIn, HasTwoFrames, Discovers, Firsts;
    forall a, b, u, v | IsWalk(Firsts(order), a, u, b) && IsWalk(Firsts(order), a, v, b)
      ensures Along(u) == Along(v)
    {
      WalkIsFound(order, a, u, b);
      var w :| Discovers(order, a, w, b);
      ChainsReachFirsts(order, a, u, b, w);
      ChainsReachFirsts(order, a, v, b, w);
    }
  }

  lemma ExplainedFirstsChain(pose: Poses, order: seq<ResolvedEdge>)
    requires Explains(pose, Firsts(order))
    ensures ChainsIn(order)
  {
    hide Explains, Along, Compose, Between, IsWalk, Discovers, Firsts;
    forall a, b, c, u, v, w | Discovers(order, a, u, b) && Discovers(order, b, v, c) && Discovers(order, a, w, c)
      ensures Compose(Along(v), Along(u)) == Along(w)
    {
      FoundOverFirsts(order, a, u, b);
      FoundOverFirsts(order, b, v, c);
      FoundOverFirsts(order, a, w, c);
      AlongIsBetween(pose, Firsts(order), a, u, b);
      AlongIsBetween(pose, Firsts(order), b, v, c);
      AlongIsBetween(pose, Firsts(order), a, w, c);
      BetweenTelescopes(pose, a, b, c);
    }
  }

  /** What one order finds chains exactly when some poses explain the first edges of that order. */
  lemma ChainsInIff(order: seq<ResolvedEdge>)
    requires forall e :: e in order ==> HasTwoFrames(e)
    ensures ChainsIn(order) <==> exists pose :: Explains(pose, Firsts(order))
  {
    hide *;
    if pose :| Explains(pose, Firsts(order)) {
      ExplainedFirstsChain(pose, order);
    }
    if ChainsIn(order) {
      ChainsMeansIndependent(order);
      IndependentIffExplained(Firsts(order));
    }
  }

  ghost predicate ChainedAnswersOfOneOrderAgree(order: seq<ResolvedEdge>, retained: Retained, q: EdgeQuery,
                                                slerp: Slerp) {
    forall a, b, c, x, y, z ::
      (ResolvesIn(order, retained, a, b, q, slerp, x) && ResolvesIn(order, retained, b, c, q, slerp, y)
       && ResolvesIn(order, retained, a, c, q, slerp, z)
       && x.Answer? && y.Answer? && z.Answer?) ==>
      Compose(y.transform, x.transform) == z.transform
  }

  /** While the store keeps one order, chained queries agree with the joint query exactly when some poses of the frames
      explain, between any two frames, the first edge of that order. */
  lemma ChainedQueriesOfOneOrderIff(order: seq<ResolvedEdge>, retained: Retained, q: EdgeQuery, slerp: Slerp)
    requires AreFrames(retained) && Orders(order, ResolvedEdges(retained, q, slerp))
    ensures ChainedAnswersOfOneOrderAgree(order, retained, q, slerp) <==> exists pose :: Explains(pose, Firsts(order))
  {
    hide ResolvedEdges, ResolvesIn, Along, Compose, Explains, Discovers, Orders, AreFrames, HasTwoFrames, StepsOf,
         Firsts;
    ResolvedHaveTwoFrames(retained, q, slerp);
    OrdersElements(order, ResolvedEdges(retained, q, slerp));
    ElementsHaveTwoFrames(order);
    ChainsInIff(order);
    if ChainsIn(order) {
      forall a, b, c, x, y, z |
        ResolvesIn(order, retained, a, b, q, slerp, x) && ResolvesIn(order, retained, b, c, q, slerp, y)
        && ResolvesIn(order, retained, a, c, q, slerp, z) && x.Answer? && y.Answer? && z.Answer?
        ensures Compose(y.transform, x.transform) == z.transform
      {
        var u := AnswerIsDiscovered(order, retained, a, b, q, slerp, x);
        var v := AnswerIsDiscovered(order, retained, b, c, q, slerp, y);
        var w := AnswerIsDiscovered(order, retained, a, c, q, slerp, z);
      }
    }
    if ChainedAnswersOfOneOrderAgree(order, retained, q, slerp) {
      forall a, b, c, u, v, w | Discovers(order, a, u, b) && Discovers(order, b, v, c) && Discovers(order, a, w, c)
        ensures Compose(Along(v), Along(u)) == Along(w)
      {
        DiscoveredAnswers(order, retained, a, u, b, q, slerp);
        DiscoveredAnswers(order, retained, b, v, c, q, slerp);
        DiscoveredAnswers(order, retained, a, w, c, q, slerp);
      }
    }
  }

  lemma ElementsHaveTwoFrames(order: seq<ResolvedEdge>)
    requires forall e :: e in ElementsOf(order) ==> HasTwoFrames(e)
    ensures forall e :: e in order ==> HasTwoFrames(e)
  {
    hide HasTwoFrames;
    forall e | e in order
      ensures HasTwoFrames(e)
    {
      assert e in ElementsOf(order);
    }
  }
}
