/** Walks over the resolved edges: walks between the same frames give the same transform exactly when every frame can be
    given a pose that explains all edges, and in a forest it always can. */
module TransformConsistency {
  import opened RigidTransforms
  import opened TransformHistory
  import opened TransformResolution
  import opened TransformGraph

  type Poses = string -> Rigid

  /** Each edge is what the poses of its two frames say. */
  ghost predicate Explains(pose: Poses, edges: set<ResolvedEdge>) {
    forall e :: e in edges ==> ExplainsEdge(pose, e)
  }

  ghost predicate ExplainsEdge(pose: Poses, e: ResolvedEdge) {
    e.parentFromChild == Between(pose, e.key.childFrame, e.key.parentFrame)
  }

  /** Takes coordinates in frame `a` to coordinates in frame `b`. */
  ghost function Between(pose: Poses, a: string, b: string): Rigid {
    Compose(Inverse(pose(b)), pose(a))
  }

  lemma BetweenTelescopes(pose: Poses, a: string, b: string, c: string)
    ensures Compose(Between(pose, b, c), Between(pose, a, b)) == Between(pose, a, c)
    ensures Between(pose, a, a) == IDENTITY
    ensures Inverse(Between(pose, a, b)) == Between(pose, b, a)
  {
    hide Compose, Inverse;
    var p, q, r := pose(a), pose(b), Inverse(pose(c));
    calc {
      Compose(Compose(r, q), Compose(Inverse(q), p));
      { ComposeAssoc(r, q, Compose(Inverse(q), p)); ComposeAssoc(q, Inverse(q), p); }
      Compose(r, Compose(Compose(q, Inverse(q)), p));
      { ComposeInverse(q); ComposeIdentity(p); }
      Compose(r, p);
    }
    ComposeInverse(p);
    InverseCompose(Inverse(q), p);
    InverseInverse(q);
  }

  lemma ArcIsBetween(pose: Poses, edges: set<ResolvedEdge>, a: Arc)
    requires Explains(pose, edges) && IsArc(edges, a)
    ensures a.transformToFrom == Between(pose, a.step.fromFrame, a.toFrame)
  {
    var e := a.step.edge;
    assert ExplainsEdge(pose, e);
    BetweenTelescopes(pose, e.key.childFrame, e.key.parentFrame, e.key.parentFrame);
    hide Between, Compose, Inverse;
  }

  /** With poses, the product along a walk depends only on its two ends. */
  lemma {:induction false} AlongIsBetween(pose: Poses, edges: set<ResolvedEdge>, source: string, w: seq<Arc>,
                                          target: string)
    requires Explains(pose, edges) && IsWalk(edges, source, w, target)
    ensures Along(w) == Between(pose, source, target)
    decreases |w|
  {
    if w == [] {
      BetweenTelescopes(pose, source, source, source);
    } else {
      var n := |w| - 1;
      var mid := w[n].step.fromFrame;
      PrefixWalk(edges, source, w, target, n);
      AlongIsBetween(pose, edges, source, w[..n], mid);
      ArcIsBetween(pose, edges, w[n]);
      BetweenTelescopes(pose, source, mid, target);
    }
  }

  // ----- walks can be joined and reversed

  function ReverseArc(a: Arc): Arc {
    if a == UpArc(a.step.edge) then DownArc(a.step.edge) else UpArc(a.step.edge)
  }

  function ReverseWalk(w: seq<Arc>): seq<Arc> {
    seq(|w|, i requires 0 <= i < |w| => ReverseArc(w[|w| - 1 - i]))
  }

  lemma ReverseArcIsArc(edges: set<ResolvedEdge>, a: Arc)
    requires IsArc(edges, a)
    ensures var r := ReverseArc(a);
            IsArc(edges, r) && r.toFrame == a.step.fromFrame && r.step.fromFrame == a.toFrame
  {
  }

  lemma ReverseIsWalk(edges: set<ResolvedEdge>, source: string, w: seq<Arc>, target: string)
    requires IsWalk(edges, source, w, target)
    ensures IsWalk(edges, target, ReverseWalk(w), source)
  {
    var r := ReverseWalk(w);
    forall i | 0 <= i < |r|
      ensures IsArc(edges, r[i])
      ensures r[i].toFrame == w[|w| - 1 - i].step.fromFrame && r[i].step.fromFrame == w[|w| - 1 - i].toFrame
    {
      ReverseArcIsArc(edges, w[|w| - 1 - i]);
    }
    forall i | 0 <= i < |r| - 1
      ensures r[i].toFrame == r[i + 1].step.fromFrame
    {
      assert w[|w| - 2 - i].toFrame == w[|w| - 2 - i + 1].step.fromFrame;
    }
  }

  lemma JoinIsWalk(edges: set<ResolvedEdge>, a: string, u: seq<Arc>, b: string, v: seq<Arc>, c: string)
    requires IsWalk(edges, a, u, b) && IsWalk(edges, b, v, c)
    ensures IsWalk(edges, a, u + v, c)
  {
  }

  lemma ReachableIsEquivalence(edges: set<ResolvedEdge>, a: string, b: string, c: string)
    ensures Reachable(edges, a, a)
    ensures Reachable(edges, a, b) ==> Reachable(edges, b, a)
    ensures Reachable(edges, a, b) && Reachable(edges, b, c) ==> Reachable(edges, a, c)
  {
    assert IsWalk(edges, a, [], a);
    if u :| IsWalk(edges, a, u, b) {
      ReverseIsWalk(edges, a, u, b);
      if v :| IsWalk(edges, b, v, c) {
        JoinIsWalk(edges, a, u, b, v, c);
      }
    }
  }

  lemma EdgeConnects(edges: set<ResolvedEdge>, e: ResolvedEdge)
    requires e in edges
    ensures Reachable(edges, e.key.childFrame, e.key.parentFrame)
  {
    assert IsWalk(edges, e.key.childFrame, [UpArc(e)], e.key.parentFrame);
  }

  // ----- forests

  /** Listed in this order, no edge joins two frames already connected. */
  ghost predicate Forest(edges: seq<ResolvedEdge>) {
    forall i :: 0 <= i < |edges| ==>
      !Reachable(ElementsOf(edges[..i]), edges[i].key.childFrame, edges[i].key.parentFrame)
  }

  /** Moves every frame connected to `e`'s child so that `e` is explained too. */
  ghost function Shifted(pose: Poses, edges: set<ResolvedEdge>, e: ResolvedEdge): Poses {
    var shift := Compose(pose(e.key.parentFrame), Compose(e.parentFromChild, Inverse(pose(e.key.childFrame))));
    f => if Reachable(edges, e.key.childFrame, f) then Compose(shift, pose(f)) else pose(f)
  }

  lemma ShiftExplainsOld(pose: Poses, edges: set<ResolvedEdge>, e: ResolvedEdge, known: ResolvedEdge)
    requires Explains(pose, edges) && known in edges
    ensures ExplainsEdge(Shifted(pose, edges, e), known)
  {
    var p, c := known.key.parentFrame, known.key.childFrame;
    EdgeConnects(edges, known);
    ReachableIsEquivalence(edges, e.key.childFrame, p, c);
    ReachableIsEquivalence(edges, e.key.childFrame, c, p);
    ReachableIsEquivalence(edges, c, p, p);
    assert ExplainsEdge(pose, known);
    var shift := Compose(pose(e.key.parentFrame), Compose(e.parentFromChild, Inverse(pose(e.key.childFrame))));
    ShiftCancels(shift, pose(p), pose(c));
    hide Compose, Inverse, Reachable;
  }

  lemma ShiftCancels(g: Rigid, p: Rigid, c: Rigid)
    ensures Compose(Inverse(Compose(g, p)), Compose(g, c)) == Compose(Inverse(p), c)
  {
    hide Compose, Inverse;
    InverseCompose(g, p);
    var i, j := Inverse(g), Inverse(p);
    calc {
      Compose(Compose(j, i), Compose(g, c));
      { ComposeAssoc(j, i, Compose(g, c)); ComposeAssoc(i, g, c); }
      Compose(j, Compose(Compose(i, g), c));
      { ComposeInverse(g); ComposeIdentity(c); }
      Compose(j, c);
    }
  }

  lemma ShiftExplainsNew(pose: Poses, edges: set<ResolvedEdge>, e: ResolvedEdge)
    requires !Reachable(edges, e.key.childFrame, e.key.parentFrame)
    ensures ExplainsEdge(Shifted(pose, edges, e), e)
  {
    ReachableIsEquivalence(edges, e.key.childFrame, e.key.childFrame, e.key.childFrame);
    ShiftFits(pose(e.key.parentFrame), e.parentFromChild, pose(e.key.childFrame));
    hide Compose, Inverse, Reachable;
  }

  lemma ShiftFits(p: Rigid, t: Rigid, c: Rigid)
    ensures Compose(Inverse(p), Compose(Compose(p, Compose(t, Inverse(c))), c)) == t
  {
    hide Compose, Inverse;
    calc {
      Compose(Compose(p, Compose(t, Inverse(c))), c);
      { ComposeAssoc(p, Compose(t, Inverse(c)), c); ComposeAssoc(t, Inverse(c), c); }
      Compose(p, Compose(t, Compose(Inverse(c), c)));
      { ComposeInverse(c); ComposeIdentity(t); }
      Compose(p, t);
    }
    ComposeAssoc(Inverse(p), p, t);
    ComposeInverse(p);
    ComposeIdentity(t);
  }

  /** Every forest is explained by some poses. */
  lemma {:induction false} ForestHasPoses(edges: seq<ResolvedEdge>) returns (pose: Poses)
    requires Forest(edges)
    ensures Explains(pose, ElementsOf(edges))
  {
    if edges == [] {
      pose := f => IDENTITY;
    } else {
      var n := |edges| - 1;
      var rest, e := edges[..n], edges[n];
      assert forall i :: 0 <= i < n ==> edges[..n][..i] == edges[..i];
      var known := ForestHasPoses(rest);
      pose := Shifted(known, ElementsOf(rest), e);
      ShiftExplainsNew(known, ElementsOf(rest), e);
      forall x | x in ElementsOf(edges)
        ensures ExplainsEdge(pose, x)
      {
        assert edges == rest + [e];
        if x != e {
          ShiftExplainsOld(known, ElementsOf(rest), e, x);
        }
      }
    }
  }

  // ----- the main results

  /** Walks between the same two frames always give the same transform. */
  ghost predicate PathIndependent(edges: set<ResolvedEdge>) {
    forall a, b, u, v :: IsWalk(edges, a, u, b) && IsWalk(edges, a, v, b) ==> Along(u) == Along(v)
  }

  /** In a forest the answer for a -> b followed by the answer for b -> c is the answer for a -> c. */
  lemma AnswersChain(edges: seq<ResolvedEdge>, a: string, u: seq<Arc>, b: string, v: seq<Arc>, c: string, w: seq<Arc>)
    requires Forest(edges)
    requires IsWalk(ElementsOf(edges), a, u, b) && IsWalk(ElementsOf(edges), b, v, c)
    requires IsWalk(ElementsOf(edges), a, w, c)
    ensures Compose(Along(v), Along(u)) == Along(w)
  {
    var pose := ForestHasPoses(edges);
    AlongIsBetween(pose, ElementsOf(edges), a, u, b);
    AlongIsBetween(pose, ElementsOf(edges), b, v, c);
    AlongIsBetween(pose, ElementsOf(edges), a, w, c);
    BetweenTelescopes(pose, a, b, c);
  }

  /** Forward and back undo each other exactly. */
  lemma ForwardAndBack(edges: seq<ResolvedEdge>, a: string, u: seq<Arc>, b: string, v: seq<Arc>)
    requires Forest(edges)
    requires IsWalk(ElementsOf(edges), a, u, b) && IsWalk(ElementsOf(edges), b, v, a)
    ensures Compose(Along(v), Along(u)) == IDENTITY && Along(v) == Inverse(Along(u))
  {
    assert IsWalk(ElementsOf(edges), a, [], a);
    AnswersChain(edges, a, u, b, v, a, []);
    InverseUnique(Along(v), Along(u));
  }

  /** Any two walks between the same frames agree exactly when the edges agree on poses. */
  lemma IndependentIffExplained(edges: set<ResolvedEdge>)
    ensures PathIndependent(edges) <==> exists pose :: Explains(pose, edges)
  {
    hide *;
    if pose :| Explains(pose, edges) {
      ExplainedIsIndependent(pose, edges);
    }
    if PathIndependent(edges) {
      var pose := IndependentIsExplained(edges);
      assert Explains(pose, edges);
    }
  }

  lemma ExplainedIsIndependent(pose: Poses, edges: set<ResolvedEdge>)
    requires Explains(pose, edges)
    ensures PathIndependent(edges)
  {
    hide IsWalk, Explains, Along;
    forall a, b, u, v | IsWalk(edges, a, u, b) && IsWalk(edges, a, v, b)
      ensures Along(u) == Along(v)
    {
      AlongIsBetween(pose, edges, a, u, b);
      AlongIsBetween(pose, edges, a, v, b);
    }
  }

  lemma IndependentIsExplained(edges: set<ResolvedEdge>) returns (pose: Poses)
    requires PathIndependent(edges)
    ensures Explains(pose, edges)
  {
    hide PathIndependent, RootFrom, Compose, Inverse;
    pose := f => RootFrom(edges, f);
    forall e | e in edges
      ensures ExplainsEdge(pose, e)
    {
      RootExplains(edges, e);
    }
  }

  /** The frames connected to `f`. */
  ghost function Component(edges: set<ResolvedEdge>, f: string): set<string> {
    set g | g in FrameUniverse(edges, f) && Reachable(edges, f, g)
  }

  ghost function Pick(s: set<string>): string
    requires s != {}
  {
    var x :| x in s; x
  }

  lemma ComponentHolds(edges: set<ResolvedEdge>, f: string)
    ensures f in Component(edges, f)
    ensures forall g :: Reachable(edges, f, g) <==> g in Component(edges, f)
  {
    ReachableIsEquivalence(edges, f, f, f);
    forall g | Reachable(edges, f, g)
      ensures g in FrameUniverse(edges, f)
    {
      var w :| IsWalk(edges, f, w, g);
      if w != [] {
        assert IsArc(edges, w[|w| - 1]);
        ArcInUniverse(edges, f, w[|w| - 1]);
      }
    }
  }

  ghost function Root(edges: set<ResolvedEdge>, f: string): (r: string)
    ensures Reachable(edges, f, r)
  {
    ComponentHolds(edges, f);
    Pick(Component(edges, f))
  }

  ghost function WalkBetween(edges: set<ResolvedEdge>, a: string, b: string): (w: seq<Arc>)
    requires Reachable(edges, a, b)
    ensures IsWalk(edges, a, w, b)
  {
    var w :| IsWalk(edges, a, w, b); w
  }

  /** The pose of a frame as seen from the root of its component. */
  ghost function RootFrom(edges: set<ResolvedEdge>, f: string): Rigid {
    Along(WalkBetween(edges, f, Root(edges, f)))
  }

  lemma SameRoot(edges: set<ResolvedEdge>, a: string, b: string)
    requires Reachable(edges, a, b)
    ensures Root(edges, a) == Root(edges, b)
  {
    ComponentHolds(edges, a);
    ComponentHolds(edges, b);
    forall g
      ensures Reachable(edges, a, g) <==> Reachable(edges, b, g)
    {
      ReachableIsEquivalence(edges, a, b, g);
      ReachableIsEquivalence(edges, b, a, g);
    }
    assert Component(edges, a) == Component(edges, b);
  }

  lemma RootExplains(edges: set<ResolvedEdge>, e: ResolvedEdge)
    requires PathIndependent(edges) && e in edges
    ensures e.parentFromChild == Compose(Inverse(RootFrom(edges, e.key.parentFrame)), RootFrom(edges, e.key.childFrame))
  {
    hide Compose, Inverse, Along, IsWalk, WalkBetween, Root, Reachable;
    var p, c := e.key.parentFrame, e.key.childFrame;
    EdgeConnects(edges, e);
    SameRoot(edges, c, p);
    var r := Root(edges, p);
    var up := [UpArc(e)];
    var fromParent, fromChild := WalkBetween(edges, p, r), WalkBetween(edges, c, r);
    UpIsWalk(edges, e);
    JoinIsWalk(edges, c, up, p, fromParent, r);
    assert Along(up + fromParent) == Along(fromChild);
    AlongJoin(up, fromParent);
    var i := Inverse(Along(fromParent));
    ComposeAssoc(i, Along(fromParent), e.parentFromChild);
    ComposeInverse(Along(fromParent));
    ComposeIdentity(e.parentFromChild);
  }

  lemma UpIsWalk(edges: set<ResolvedEdge>, e: ResolvedEdge)
    requires e in edges
    ensures IsWalk(edges, e.key.childFrame, [UpArc(e)], e.key.parentFrame)
    ensures Along([UpArc(e)]) == e.parentFromChild
  {
    hide Compose;
    assert [UpArc(e)][..0] == [];
    ComposeIdentity(e.parentFromChild);
  }

  lemma {:induction false} AlongJoin(u: seq<Arc>, v: seq<Arc>)
    ensures Along(u + v) == Compose(Along(v), Along(u))
    decreases |v|
  {
    hide Compose;
    if v == [] {
      assert u + v == u;
      ComposeIdentity(Along(u));
    } else {
      var n := |v| - 1;
      assert (u + v)[..|u + v| - 1] == u + v[..n];
      AlongJoin(u, v[..n]);
      ComposeAssoc(v[n].transformToFrom, Along(v[..n]), Along(u));
    }
  }
}
