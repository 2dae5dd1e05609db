/** Stores at which two answers of the transform query do not agree with each other. */
module TransformDisagreement {
  import opened Common
  import opened RigidTransforms
  import opened TransformHistory
  import opened TransformResolution
  import opened TransformGraph
  import opened TransformConsistency
  import opened TransformQuery
  import opened ShortestWalks
  import opened SearchOrder
  import opened TransformAgreement

  // ----- a square

  function Moved(x: real): Rigid {
    Rigid(Vec3(x, 0.0, 0.0), ONE)
  }

  function Shift(child: string, parent: string, x: real): ResolvedEdge {
    ResolvedEdge(EdgeKey(parent, child), Moved(x), "authority", "provider", "instance", 0, false, 0,
                 None, None)
  }

  /** Two ways round from A to C, one longer than the other. */
  const AB := Shift("A", "B", 1.0)
  const BC := Shift("B", "C", 1.0)
  const AD := Shift("A", "D", 1.0)
  const DC := Shift("D", "C", 2.0)
  const SQUARE: set<ResolvedEdge> := {AB, BC, AD, DC}

  lemma ShiftsAdd(x: real, y: real)
    ensures Compose(Moved(y), Moved(x)) == Moved(x + y)
  {
    RotateByOne(Vec3(x, 0.0, 0.0));
    ComposeIdentity(Moved(x));
    hide Rotate, Mul;
  }

  lemma UpArcCarries(e: ResolvedEdge)
    ensures UpArc(e).transformToFrom == e.parentFromChild
    ensures UpArc(e).step.fromFrame == e.key.childFrame && UpArc(e).toFrame == e.key.parentFrame
  {
  }

  lemma TwoShifts(e: ResolvedEdge, f: ResolvedEdge, x: real, y: real)
    requires e.parentFromChild == Moved(x) && f.parentFromChild == Moved(y)
    ensures Along([UpArc(e), UpArc(f)]) == Moved(x + y)
  {
    hide *;
    UpArcCarries(e);
    UpArcCarries(f);
    AlongOne(UpArc(e));
    AlongOne(UpArc(f));
    ShiftsAdd(x, y);
    AlongJoin([UpArc(e)], [UpArc(f)]);
    assert [UpArc(e)] + [UpArc(f)] == [UpArc(e), UpArc(f)];
  }

  lemma SquareNeedsTwo(w: seq<Arc>)
    requires IsWalk(SQUARE, "A", w, "C")
    ensures |w| >= 2
  {
    if |w| == 1 {
      var e := w[0].step.edge;
      assert IsArc(SQUARE, w[0]);
    }
  }

  lemma SquareWalks()
    ensures Shortest(SQUARE, "A", [UpArc(AB), UpArc(BC)], "C") && Shortest(SQUARE, "A", [UpArc(AD), UpArc(DC)], "C")
    ensures Along([UpArc(AB), UpArc(BC)]) == Moved(2.0) && Along([UpArc(AD), UpArc(DC)]) == Moved(3.0)
  {
    var u, v := [UpArc(AB), UpArc(BC)], [UpArc(AD), UpArc(DC)];
    assert IsWalk(SQUARE, "A", u, "C") && IsWalk(SQUARE, "A", v, "C");
    forall x | IsWalk(SQUARE, "A", x, "C")
      ensures |u| <= |x| && |v| <= |x|
    {
      SquareNeedsTwo(x);
    }
    TwoShifts(AB, BC, 1.0, 1.0);
    TwoShifts(AD, DC, 1.0, 2.0);
    hide IsWalk, Along, Compose;
  }

  /** A sample that never expires, of one authority. */
  function Still(id: nat, x: real): Sample {
    Sample(id, 0, "authority", true, None, None, "provider", "instance", Some(true), None, Some(true), false, Moved(x))
  }

  /** One sample for each side of the square. */
  const STORE: Retained := map[
    AB.key := [Still(0, 1.0)], BC.key := [Still(1, 1.0)], AD.key := [Still(2, 1.0)], DC.key := [Still(3, 2.0)]
  ]

  lemma StillResolves(child: string, parent: string, id: nat, x: real, q: EdgeQuery, slerp: Slerp)
    ensures ScanEdge(EdgeKey(parent, child), [Still(id, x)], q, slerp) == Unambiguous(Some(Shift(child, parent, x)))
  {
    hide Moved;
    var k, s := EdgeKey(parent, child), Still(id, x);
    StillSpeaks(k, s, q, slerp);
    SpeakingAlone(k, s, q, slerp);
    hide Speaking, ScanAuthority;
    var a :| a in Speaking(k, [s], q, slerp);
  }

  lemma StillSpeaks(k: EdgeKey, s: Sample, q: EdgeQuery, slerp: Slerp)
    requires s.isStatic && GraphUsable(s, q.nowUs)
    ensures ScanAuthority(k, [s], s.authority, q, slerp) == Some(FromSample(k, s.authority, s, 0))
  {
    LatestStaticDecides(k, [s], s, q, slerp);
  }

  lemma SpeakingAlone(k: EdgeKey, s: Sample, q: EdgeQuery, slerp: Slerp)
    requires ScanAuthority(k, [s], s.authority, q, slerp).Some?
    ensures Speaking(k, [s], q, slerp) == {s.authority}
  {
    hide ScanAuthority;
  }

  lemma StoreKeeps()
    ensures AreFrames(STORE) && STORE.Keys == {AB.key, BC.key, AD.key, DC.key}
    ensures STORE[AB.key] == [Still(0, 1.0)] && STORE[BC.key] == [Still(1, 1.0)]
    ensures STORE[AD.key] == [Still(2, 1.0)] && STORE[DC.key] == [Still(3, 2.0)]
  {
    hide Still, Moved;
  }

  lemma StoreResolves(q: EdgeQuery, slerp: Slerp)
    ensures ResolvedEdges(STORE, q, slerp) == SQUARE
  {
    hide ScanEdge, Still, Moved, STORE;
    StoreKeeps();
    StillResolves("A", "B", 0, 1.0, q, slerp);
    StillResolves("B", "C", 1, 1.0, q, slerp);
    StillResolves("A", "D", 2, 1.0, q, slerp);
    StillResolves("D", "C", 3, 2.0, q, slerp);
    assert AB.key in STORE && BC.key in STORE && AD.key in STORE && DC.key in STORE;
  }

  /** An order in which the store may walk them. */
  const ORDER: seq<ResolvedEdge> := [AB, DC, AD, BC]

  lemma OrderLeads()
    ensures Leads(ORDER, [UpArc(AB), UpArc(BC)]) && Leads(ORDER, [DownArc(DC), DownArc(AD)])
  {
    hide Inverse, Moved, LeadsOn;
    LeadByPlace(ORDER, [UpArc(AB), UpArc(BC)], 0, 0);
    LeadByPlace(ORDER, [UpArc(AB), UpArc(BC)], 1, 3);
    LeadByPlace(ORDER, [DownArc(DC), DownArc(AD)], 0, 1);
    LeadByPlace(ORDER, [DownArc(DC), DownArc(AD)], 1, 2);
  }

  lemma OrderOrders()
    ensures Orders(ORDER, SQUARE)
  {
    hide Moved;
  }

  lemma BackAlongTheOther()
    ensures ReverseWalk([UpArc(AD), UpArc(DC)]) == [DownArc(DC), DownArc(AD)]
  {
    hide UpArc, DownArc, ReverseArc, AD, DC;
    ReverseUp(AD);
    ReverseUp(DC);
    var v := [UpArc(AD), UpArc(DC)];
    var r := ReverseWalk(v);
    assert |r| == 2 && r[0] == ReverseArc(v[1]) && r[1] == ReverseArc(v[0]);
  }

  lemma ReverseUp(e: ResolvedEdge)
    ensures ReverseArc(UpArc(e)) == DownArc(e)
  {
    hide Inverse;
  }

  /** A store of four samples whose two ways from A to C differ: in this order it answers the query from A to C along
      the one and the query back along the other, and the two answers do not undo each other. */
  lemma StoreDisagrees(q: EdgeQuery, slerp: Slerp) returns (x: TransformAnswer, y: TransformAnswer)
    ensures AreFrames(STORE)
    ensures ResolvesIn(ORDER, STORE, "A", "C", q, slerp, x) && x.Answer? && x.transform == Moved(2.0)
    ensures ResolvesIn(ORDER, STORE, "C", "A", q, slerp, y) && y.Answer? && y.transform == Inverse(Moved(3.0))
    ensures Compose(y.transform, x.transform) != IDENTITY
  {
    hide *;
    StoreKeeps();
    SquareWalks();
    StoreResolves(q, slerp);
    OrderLeads();
    OrderOrders();
    BackAlongTheOther();
    MovedDiffer(2.0, 3.0);
    NotUndone(Moved(3.0), Moved(2.0));
    var u, w := [UpArc(AB), UpArc(BC)], [DownArc(DC), DownArc(AD)];
    Reversed(SQUARE, "A", [UpArc(AD), UpArc(DC)], "C");
    OrdersElements(ORDER, SQUARE);
    LeadIsDiscovered(ORDER, "A", u, "C");
    LeadIsDiscovered(ORDER, "C", w, "A");
    DiscoveredAnswers(ORDER, STORE, "A", u, "C", q, slerp);
    DiscoveredAnswers(ORDER, STORE, "C", w, "A", q, slerp);
    x := Answer("A", "C", q.atUs, Along(u), StepsOf(u));
    y := Answer("C", "A", q.atUs, Along(w), StepsOf(w));
  }

  lemma NotUndone(s: Rigid, t: Rigid)
    requires s != t
    ensures Compose(Inverse(s), t) != IDENTITY
  {
    hide Compose, Inverse;
    if Compose(Inverse(s), t) == IDENTITY {
      InverseUnique(Inverse(s), t);
      InverseInverse(s);
      InverseInverse(t);
    }
  }

  // ----- a triangle

  const AC := Shift("A", "C", 3.0)
  const TRIANGLE: set<ResolvedEdge> := {AB, BC, AC}

  /** In a triangle of frames neighbours are joined by one arc only. */
  lemma TriangleArcs(arc: Arc, other: Arc)
    requires IsArc(TRIANGLE, arc) && IsArc(TRIANGLE, other)
    requires arc.step.fromFrame == other.step.fromFrame && arc.toFrame == other.toFrame
    ensures arc == other
  {
  }

  lemma TriangleJoins(f: string, g: string) returns (arc: Arc)
    requires f in {"A", "B", "C"} && g in {"A", "B", "C"} && f != g
    ensures IsArc(TRIANGLE, arc) && arc.step.fromFrame == f && arc.toFrame == g
  {
    arc :=
      if f == "A" && g == "B" then UpArc(AB)
      else if f == "B" && g == "A" then DownArc(AB)
      else if f == "B" && g == "C" then UpArc(BC)
      else if f == "C" && g == "B" then DownArc(BC)
      else if f == "A" then UpArc(AC)
      else DownArc(AC);
  }

  lemma TriangleFrames(arc: Arc)
    requires IsArc(TRIANGLE, arc)
    ensures arc.step.fromFrame in {"A", "B", "C"} && arc.toFrame in {"A", "B", "C"}
  {
  }

  lemma TriangleShortest(a: string, u: seq<Arc>, b: string)
    requires Shortest(TRIANGLE, a, u, b)
    ensures a == b ==> u == []
    ensures a != b ==> |u| == 1 && IsArc(TRIANGLE, u[0]) && u[0].step.fromFrame == a && u[0].toFrame == b
  {
    if a == b {
      assert IsWalk(TRIANGLE, a, [], b);
    } else {
      assert IsArc(TRIANGLE, u[0]) && IsArc(TRIANGLE, u[|u| - 1]);
      TriangleFrames(u[0]);
      TriangleFrames(u[|u| - 1]);
      var arc := TriangleJoins(a, b);
      assert IsWalk(TRIANGLE, a, [arc], b);
    }
  }

  /** A triangle that does not close: opposite queries still undo each other, chained ones do not agree. */
  lemma TriangleCancelsWithoutPoses()
    ensures OppositesCancel(TRIANGLE) && !ShortestChain(TRIANGLE)
  {
    hide IsWalk, Along, Shortest, IsArc;
    forall a, b, u, v | Shortest(TRIANGLE, a, u, b) && Shortest(TRIANGLE, a, v, b)
      ensures Along(u) == Along(v)
    {
      TriangleShortest(a, u, b);
      TriangleShortest(a, v, b);
      if a != b {
        TriangleArcs(u[0], v[0]);
        assert u == [u[0]] && v == [v[0]];
      }
    }
    OppositesCancelIff(TRIANGLE);
    TriangleDoesNotClose();
  }

  lemma TriangleDoesNotClose()
    ensures !ShortestChain(TRIANGLE)
  {
    TriangleSides();
    hide *;
    AlongOne(UpArc(AB));
    AlongOne(UpArc(BC));
    AlongOne(UpArc(AC));
    ShiftsAdd(1.0, 1.0);
    MovedDiffer(2.0, 3.0);
    NotChained(TRIANGLE, "A", [UpArc(AB)], "B", [UpArc(BC)], "C", [UpArc(AC)]);
  }

  lemma MovedDiffer(x: real, y: real)
    requires x != y
    ensures Moved(x) != Moved(y)
  {
  }

  lemma TriangleSides()
    ensures Shortest(TRIANGLE, "A", [UpArc(AB)], "B") && UpArc(AB).transformToFrom == Moved(1.0)
    ensures Shortest(TRIANGLE, "B", [UpArc(BC)], "C") && UpArc(BC).transformToFrom == Moved(1.0)
    ensures Shortest(TRIANGLE, "A", [UpArc(AC)], "C") && UpArc(AC).transformToFrom == Moved(3.0)
  {
    ArcIsShortest(TRIANGLE, UpArc(AB));
    ArcIsShortest(TRIANGLE, UpArc(BC));
    ArcIsShortest(TRIANGLE, UpArc(AC));
    hide Shortest, Moved;
  }

  lemma NotChained(edges: set<ResolvedEdge>, a: string, u: seq<Arc>, b: string, v: seq<Arc>, c: string, w: seq<Arc>)
    requires Shortest(edges, a, u, b) && Shortest(edges, b, v, c) && Shortest(edges, a, w, c)
    requires Compose(Along(v), Along(u)) != Along(w)
    ensures !ShortestChain(edges)
  {
    hide Shortest, Compose, Along;
  }

  const TRIANGLE_STORE: Retained := map[
    AB.key := [Still(0, 1.0)], BC.key := [Still(1, 1.0)], AC.key := [Still(2, 3.0)]
  ]

  lemma TriangleStoreKeeps()
    ensures AreFrames(TRIANGLE_STORE) && TRIANGLE_STORE.Keys == {AB.key, BC.key, AC.key}
    ensures TRIANGLE_STORE[AB.key] == [Still(0, 1.0)] && TRIANGLE_STORE[BC.key] == [Still(1, 1.0)]
    ensures TRIANGLE_STORE[AC.key] == [Still(2, 3.0)]
  {
    hide Still, Moved;
  }

  lemma TriangleStoreResolves(q: EdgeQuery, slerp: Slerp)
    ensures ResolvedEdges(TRIANGLE_STORE, q, slerp) == TRIANGLE
  {
    hide ScanEdge, Still, Moved, TRIANGLE_STORE;
    TriangleStoreKeeps();
    StillResolves("A", "B", 0, 1.0, q, slerp);
    StillResolves("B", "C", 1, 1.0, q, slerp);
    StillResolves("A", "C", 2, 3.0, q, slerp);
    assert AB.key in TRIANGLE_STORE && BC.key in TRIANGLE_STORE && AC.key in TRIANGLE_STORE;
  }

  // One edge between any two of its frames: all are first.
  lemma TriangleFirsts(order: seq<ResolvedEdge>)
    requires Orders(order, TRIANGLE)
    ensures Firsts(order) == TRIANGLE
  {
    forall e | e in TRIANGLE
      ensures e in order && IsFirstEdge(order, UpArc(e))
    {
      assert e in ElementsOf(order);
      var m :| 0 <= m < |order| && order[m] == e;
      forall j | 0 <= j < m
        ensures !Joins(order[j], e.key.childFrame, e.key.parentFrame)
      {
        assert order[j] in ElementsOf(order);
        if Joins(order[j], e.key.childFrame, e.key.parentFrame) {
          TriangleJoinsOnce(order[j], e);
        }
      }
      hide Joins, Moved, TRIANGLE;
      assert IsFirstEdgeAt(order, UpArc(e), m);
    }
  }

  lemma TriangleJoinsOnce(e: ResolvedEdge, f: ResolvedEdge)
    requires e in TRIANGLE && f in TRIANGLE && Joins(e, f.key.childFrame, f.key.parentFrame)
    ensures e == f
  {
    hide Moved;
  }

  /** A store of three samples that do not close a triangle: opposite queries undo each other under any two orders,
      yet in no order do the chained ones agree with the joint one. */
  lemma TriangleStoreDisagrees(order: seq<ResolvedEdge>, q: EdgeQuery, slerp: Slerp)
    requires Orders(order, ResolvedEdges(TRIANGLE_STORE, q, slerp))
    ensures OppositeAnswersCancel(TRIANGLE_STORE, q, slerp)
    ensures !ChainedAnswersOfOneOrderAgree(order, TRIANGLE_STORE, q, slerp)
  {
    hide *;
    TriangleStoreResolves(q, slerp);
    TriangleStoreKeeps();
    TriangleCancelsWithoutPoses();
    OppositesCancelIff(TRIANGLE);
    OppositeQueriesCancelIff(TRIANGLE_STORE, q, slerp);
    ResolvedHaveTwoFrames(TRIANGLE_STORE, q, slerp);
    ShortestChainIff(TRIANGLE);
    TriangleFirsts(order);
    ChainedQueriesOfOneOrderIff(order, TRIANGLE_STORE, q, slerp);
  }

  // ----- a pair of edges

  /** Two edges between the same two frames, one each way, that do not undo each other. */
  const UP := Shift("A", "B", 1.0)
  const DOWN := Shift("B", "A", 1.0)
  const PAIR: set<ResolvedEdge> := {UP, DOWN}
  const PAIR_STORE: Retained := map[UP.key := [Still(0, 1.0)], DOWN.key := [Still(1, 1.0)]]

  lemma PairStoreResolves(q: EdgeQuery, slerp: Slerp)
    ensures AreFrames(PAIR_STORE) && ResolvedEdges(PAIR_STORE, q, slerp) == PAIR
  {
    hide ScanEdge, Still, Moved;
    StillResolves("A", "B", 0, 1.0, q, slerp);
    StillResolves("B", "A", 1, 1.0, q, slerp);
    assert UP.key in PAIR_STORE && DOWN.key in PAIR_STORE;
  }

  lemma PairFrames(arc: Arc)
    requires IsArc(PAIR, arc)
    ensures arc.step.fromFrame in {"A", "B"} && arc.toFrame in {"A", "B"}
  {
    hide Inverse, Moved;
  }

  lemma PairShortest(a: string, u: seq<Arc>, b: string)
    requires Shortest(PAIR, a, u, b)
    ensures |u| <= 1
  {
    if a == b {
      assert IsWalk(PAIR, a, [], b);
    } else {
      assert IsArc(PAIR, u[0]) && IsArc(PAIR, u[|u| - 1]);
      PairFrames(u[0]);
      PairFrames(u[|u| - 1]);
      PairJoins(a, b);
    }
  }

  lemma PairJoins(a: string, b: string)
    requires a in {"A", "B"} && b in {"A", "B"} && a != b
    ensures exists x :: IsWalk(PAIR, a, x, b) && |x| == 1
  {
    hide Inverse, Moved;
    var arc := if a == "A" then UpArc(UP) else UpArc(DOWN);
    assert IsWalk(PAIR, a, [arc], b);
  }

  lemma PairAgreesWhereCompatible()
    ensures CompatibleAgree(PAIR)
  {
    hide Shortest, Compatible, Along, IsWalk, Moved;
    forall a, b, u, v | Shortest(PAIR, a, u, b) && Shortest(PAIR, a, v, b) && Compatible(u, v)
      ensures Along(u) == Along(v)
    {
      PairShortest(a, u, b);
      SameLength(PAIR, a, u, v, b);
      if |u| == 1 {
        OneArcWalks(PAIR, a, u, v, b);
      } else {
        assert u == v;
      }
    }
  }

  lemma PairDiffers()
    ensures !ShortestAgree(PAIR)
  {
    hide *;
    PairArcs();
    ArcIsShortest(PAIR, UpArc(UP));
    ArcIsShortest(PAIR, DownArc(DOWN));
    AlongOne(UpArc(UP));
    AlongOne(DownArc(DOWN));
    NotInverse();
    NotAgreed(PAIR, "A", [UpArc(UP)], [DownArc(DOWN)], "B");
  }

  lemma NotAgreed(edges: set<ResolvedEdge>, a: string, u: seq<Arc>, v: seq<Arc>, b: string)
    requires Shortest(edges, a, u, b) && Shortest(edges, a, v, b) && Along(u) != Along(v)
    ensures !ShortestAgree(edges)
  {
    hide Shortest, Along;
  }

  lemma PairArcs()
    ensures IsArc(PAIR, UpArc(UP)) && UpArc(UP).step == Step("A", "B", UP, ChildToParent) && UpArc(UP).toFrame == "B"
    ensures IsArc(PAIR, DownArc(DOWN)) && DownArc(DOWN).step == Step("A", "B", DOWN, ParentToChild)
    ensures DownArc(DOWN).toFrame == "B" && HasTwoFrames(UP) && HasTwoFrames(DOWN)
    ensures UpArc(UP).transformToFrom == Moved(1.0) && DownArc(DOWN).transformToFrom == Inverse(Moved(1.0))
  {
    hide Inverse, Moved;
  }

  lemma NotInverse()
    ensures Moved(1.0) != Inverse(Moved(1.0))
  {
    ComposeInverse(Moved(1.0));
    ShiftsAdd(1.0, 1.0);
    hide Compose, Inverse;
  }

  /** While a store keeps its order, two edges between the same frames do no harm; under two orders their answers need
      not undo each other. */
  lemma PairDisagreesOnlyOverOrders(q: EdgeQuery, slerp: Slerp)
    ensures OppositeAnswersOfOneOrderCancel(PAIR_STORE, q, slerp) && !OppositeAnswersCancel(PAIR_STORE, q, slerp)
  {
    hide *;
    PairStoreResolves(q, slerp);
    PairAgreesWhereCompatible();
    PairDiffers();
    OppositeQueriesOfOneOrderIff(PAIR_STORE, q, slerp);
    OppositeQueriesCancelIff(PAIR_STORE, q, slerp);
  }
}
