/** From the Manager's record to the query of a client: while no step breaks agreement, asking the Fabric for the way
    from the arm's base to the world gives the pose of the calibration active between them. */
module CalibrationAnswers {
  import opened Common
  import opened RigidTransforms
  import opened TransformHistory
  import opened TransformResolution
  import opened TransformGraph
  import opened TransformConsistency
  import opened TransformQuery
  import opened FabricIngest
  import opened Calibration
  import CalibrationSeam
  import CalibrationSync

  /** Nobody else speaks on the edge from the arm's base to the world, and no edge leads the other way. */
  ghost predicate IsUndisputed(f: Fabric, world: string, base: string, q: EdgeQuery, slerp: Slerp) {
    && Speaking(EdgeKey(world, base), SamplesOf(f, EdgeKey(world, base)), q, slerp) <= {CalibrationSeam.AUTHORITY}
    && (EdgeKey(base, world) in f.edges ==>
          !IsResolved(EdgeKey(base, world), f.edges[EdgeKey(base, world)], q, slerp))
  }

  /** The only resolved edge that joins the frames: seen from below it leads to the parent. */
  ghost predicate IsOnlyEdge(edges: set<ResolvedEdge>, e: ResolvedEdge) {
    && e in edges && e.key.parentFrame != e.key.childFrame
    && forall d :: d in edges && d.key == e.key ==> d == e
  }

  ghost predicate HasKey(edges: set<ResolvedEdge>, key: EdgeKey) {
    exists d :: d in edges && d.key == key
  }

  // Over the only edge between two frames the shortest walk is that edge.
  lemma ShortestIsTheEdge(edges: set<ResolvedEdge>, e: ResolvedEdge, w: seq<Arc>)
    requires IsOnlyEdge(edges, e) && !HasKey(edges, EdgeKey(e.key.childFrame, e.key.parentFrame))
    requires Shortest(edges, e.key.childFrame, w, e.key.parentFrame)
    ensures w == [UpArc(e)]
  {
    hide Compose, Inverse;
    assert IsWalk(edges, e.key.childFrame, [UpArc(e)], e.key.parentFrame);
    assert |w| == 1;
    var d := w[0].step.edge;
    assert d in edges && d.key != EdgeKey(e.key.childFrame, e.key.parentFrame);
    assert d.key == e.key;
  }

  lemma ShortestBackIsTheEdge(edges: set<ResolvedEdge>, e: ResolvedEdge, w: seq<Arc>)
    requires IsOnlyEdge(edges, e) && !HasKey(edges, EdgeKey(e.key.childFrame, e.key.parentFrame))
    requires Shortest(edges, e.key.parentFrame, w, e.key.childFrame)
    ensures w == [DownArc(e)]
  {
    hide Compose, Inverse;
    assert IsWalk(edges, e.key.parentFrame, [DownArc(e)], e.key.childFrame);
    assert |w| == 1;
    var d := w[0].step.edge;
    assert d in edges && d.key != EdgeKey(e.key.childFrame, e.key.parentFrame);
    assert d.key == e.key;
  }

  lemma ResolvedHaveKeys(retained: Retained, q: EdgeQuery, slerp: Slerp, d: ResolvedEdge)
    requires d in ResolvedEdges(retained, q, slerp)
    ensures d.key in retained && IsResolved(d.key, retained[d.key], q, slerp)
    ensures d == ScanEdge(d.key, retained[d.key], q, slerp).edge.value
  {
    hide ScanEdge;
    var k :| k in retained && IsResolved(k, retained[k], q, slerp)
             && d == ScanEdge(k, retained[k], q, slerp).edge.value;
    ScanKeepsKey(k, retained[k], q, slerp);
  }

  // The Manager's answer is the edge the store resolves.
  lemma AnswerIsResolved(f: Fabric, key: EdgeKey, q: EdgeQuery, slerp: Slerp) returns (e: ResolvedEdge)
    requires CalibrationSeam.Answer(f, key, q, slerp).Some?
    requires Speaking(key, SamplesOf(f, key), q, slerp) <= {CalibrationSeam.AUTHORITY}
    ensures key in f.edges && IsResolved(key, f.edges[key], q, slerp)
    ensures e == CalibrationSeam.Answer(f, key, q, slerp).value && e.key == key
    ensures e == ScanEdge(key, f.edges[key], q, slerp).edge.value
  {
    CalibrationSeam.EdgeAnswers(f, key, q, slerp);
    NeedsSamples(key, SamplesOf(f, key), CalibrationSeam.AUTHORITY, q, slerp);
    ScanNamesAuthority(key, SamplesOf(f, key), CalibrationSeam.AUTHORITY, q, slerp);
    hide ScanAuthority, ScanEdge, Speaking;
    e := CalibrationSeam.Answer(f, key, q, slerp).value;
  }

  lemma OnlyEdgeIs(f: Fabric, world: string, base: string, q: EdgeQuery, slerp: Slerp, e: ResolvedEdge)
    requires world != base && IsUndisputed(f, world, base, q, slerp) && e.key == EdgeKey(world, base)
    requires EdgeKey(world, base) in f.edges
    requires IsResolved(EdgeKey(world, base), f.edges[EdgeKey(world, base)], q, slerp)
    requires e == ScanEdge(EdgeKey(world, base), f.edges[EdgeKey(world, base)], q, slerp).edge.value
    ensures IsOnlyEdge(ResolvedEdges(f.edges, q, slerp), e)
    ensures !HasKey(ResolvedEdges(f.edges, q, slerp), EdgeKey(base, world))
  {
    hide ScanEdge, Speaking;
    forall d | d in ResolvedEdges(f.edges, q, slerp)
      ensures d.key in f.edges && IsResolved(d.key, f.edges[d.key], q, slerp)
      ensures d == ScanEdge(d.key, f.edges[d.key], q, slerp).edge.value
    {
      ResolvedHaveKeys(f.edges, q, slerp, d);
    }
    IsAmong(f.edges, EdgeKey(world, base), q, slerp);
    hide ResolvedEdges;
  }

  lemma IsAmong(retained: Retained, key: EdgeKey, q: EdgeQuery, slerp: Slerp)
    requires key in retained && IsResolved(key, retained[key], q, slerp)
    ensures ScanEdge(key, retained[key], q, slerp).edge.value in ResolvedEdges(retained, q, slerp)
  {
    hide ScanEdge;
  }

  // One resolution over the only edge, there and back.
  lemma EdgeIsAnswered(retained: Retained, e: ResolvedEdge, q: EdgeQuery, slerp: Slerp, x: TransformAnswer,
                       y: TransformAnswer)
    requires IsOnlyEdge(ResolvedEdges(retained, q, slerp), e)
    requires !HasKey(ResolvedEdges(retained, q, slerp), EdgeKey(e.key.childFrame, e.key.parentFrame))
    requires Resolves(retained, e.key.childFrame, e.key.parentFrame, q, slerp, x)
    requires Resolves(retained, e.key.parentFrame, e.key.childFrame, q, slerp, y)
    ensures x == Answer(e.key.childFrame, e.key.parentFrame, q.atUs, e.parentFromChild, [UpArc(e).step])
    ensures y == Answer(e.key.parentFrame, e.key.childFrame, q.atUs, Inverse(e.parentFromChild), [DownArc(e).step])
  {
    hide ResolvedEdges, ConflictingEdges, NoRepeats, Along, StepsOf, IsWalk, IsOnlyEdge, HasKey, UpArc, DownArc,
         Shortest;
    var edges := ResolvedEdges(retained, q, slerp);
    EdgeIsWalk(edges, e);
    var u :| Shortest(edges, e.key.childFrame, u, e.key.parentFrame)
             && x == Answer(e.key.childFrame, e.key.parentFrame, q.atUs, Along(u), StepsOf(u));
    ShortestIsTheEdge(edges, e, u);
    OneArc(UpArc(e));
    var v :| Shortest(edges, e.key.parentFrame, v, e.key.childFrame)
             && y == Answer(e.key.parentFrame, e.key.childFrame, q.atUs, Along(v), StepsOf(v));
    ShortestBackIsTheEdge(edges, e, v);
    OneArc(DownArc(e));
    ArcsOf(e);
  }

  lemma EdgeIsWalk(edges: set<ResolvedEdge>, e: ResolvedEdge)
    requires IsOnlyEdge(edges, e)
    ensures Reachable(edges, e.key.childFrame, e.key.parentFrame)
    ensures Reachable(edges, e.key.parentFrame, e.key.childFrame)
  {
    hide Inverse;
    assert IsWalk(edges, e.key.childFrame, [UpArc(e)], e.key.parentFrame);
    assert IsWalk(edges, e.key.parentFrame, [DownArc(e)], e.key.childFrame);
  }

  lemma OneArc(a: Arc)
    ensures Along([a]) == a.transformToFrom && StepsOf([a]) == [a.step]
  {
    assert [a][..0] == [];
    ComposeIdentity(a.transformToFrom);
    hide Compose;
  }

  lemma ArcsOf(e: ResolvedEdge)
    ensures UpArc(e).transformToFrom == e.parentFromChild && DownArc(e).transformToFrom == Inverse(e.parentFromChild)
  {
    hide Inverse;
  }

  /** In every run without a breaking step, a client that asks for the way from the arm's base to the world is answered
      with the pose the Manager holds active between them, and for the way back with its inverse, whatever the query's
      time, session and limits, as long as nobody else speaks on that edge or joins the two frames directly. */
  lemma ActiveCalibrationAnswers(steps: seq<CalibrationSync.Step>, me: CalibrationSeam.Origin, cap: nat, id: string,
                                 q: EdgeQuery, slerp: Slerp, x: TransformAnswer, y: TransformAnswer)
    requires CalibrationSync.PossibleRun(steps, me, cap)
    requires CalibrationSync.NothingBreaks(steps, me, cap, |steps|)
    requires var s := CalibrationSync.JointRun(steps, me, cap);
      && id in s.ledger.records && s.ledger.records[id].state == Active
      && var r := s.ledger.records[id];
         && r.worldFrame != r.armBaseFrame && IsUndisputed(s.fabric, r.worldFrame, r.armBaseFrame, q, slerp)
         && Resolves(s.fabric.edges, r.armBaseFrame, r.worldFrame, q, slerp, x)
         && Resolves(s.fabric.edges, r.worldFrame, r.armBaseFrame, q, slerp, y)
    ensures var r := CalibrationSync.JointRun(steps, me, cap).ledger.records[id];
      var worldFromBase := Rigid(r.worldFromBase.translation.value, r.worldFromBase.rotation.value);
      && x.Answer? && x.transform == worldFromBase && |x.path| == 1
      && x.path[0].edge.calibrationRevision == Some(r.calibrationRevision)
      && y.Answer? && y.transform == Inverse(worldFromBase)
  {
    hide *;
    var s := CalibrationSync.JointRun(steps, me, cap);
    var r := s.ledger.records[id];
    var key := EdgeKey(r.worldFrame, r.armBaseFrame);
    KeyOf(r);
    CalibrationSync.FabricAnswersActive(steps, me, cap, key, q, slerp);
    HasActive(s.ledger.records, id);
    var e := UndisputedIsResolved(s.fabric, r.worldFrame, r.armBaseFrame, q, slerp);
    OnlyEdgeIs(s.fabric, r.worldFrame, r.armBaseFrame, q, slerp, e);
    EdgeIsAnswered(s.fabric.edges, e, q, slerp, x, y);
    StepsOver(e);
  }

  lemma UndisputedIsResolved(f: Fabric, world: string, base: string, q: EdgeQuery, slerp: Slerp)
    returns (e: ResolvedEdge)
    requires IsUndisputed(f, world, base, q, slerp)
    requires CalibrationSeam.Answer(f, EdgeKey(world, base), q, slerp).Some?
    ensures var key := EdgeKey(world, base);
      && key in f.edges && IsResolved(key, f.edges[key], q, slerp)
      && e == CalibrationSeam.Answer(f, key, q, slerp).value && e.key == key
      && e == ScanEdge(key, f.edges[key], q, slerp).edge.value
  {
    hide Speaking, ScanEdge, CalibrationSeam.Answer, IsResolved;
    e := AnswerIsResolved(f, EdgeKey(world, base), q, slerp);
  }

  lemma KeyOf(r: Record)
    ensures CalibrationSeam.EdgeOf(r) == EdgeKey(r.worldFrame, r.armBaseFrame)
    ensures CalibrationSeam.PoseOf(r.worldFromBase) ==
            Rigid(r.worldFromBase.translation.value, r.worldFromBase.rotation.value)
  {
  }

  lemma HasActive(records: Records, id: string)
    requires id in records && records[id].state == Active
    ensures CalibrationSync.HasActiveOn(records, CalibrationSeam.EdgeOf(records[id]))
  {
    hide CalibrationSeam.EdgeOf;
  }

  lemma StepsOver(e: ResolvedEdge)
    ensures UpArc(e).step.edge == e
  {
    hide Inverse;
  }
}
