/** The transform query of the World State Fabric, on the stored edge histories. */
module TransformQuery {
  import opened Common
  import opened RigidTransforms
  import opened TransformHistory
  import opened TransformResolution
  import opened TransformGraph
  import opened TransformConsistency
  import opened SearchOrder
  import Text

  datatype TransformAnswer =
    | Answer(fromFrame: string, toFrame: string, atUs: nat, transform: Rigid, path: seq<Step>)
    | BadRequest
    | Conflict(edges: map<EdgeKey, set<string>>)
    | NotFound

  /** The retained samples of every edge, oldest first. */
  type Retained = map<EdgeKey, seq<Sample>>

  ghost predicate Holds(transforms: map<EdgeKey, TransformEdgeHistory>, retained: Retained)
    reads transforms.Values, set h, a | h in transforms.Values && a in h.authorities :: h.authorities[a]
  {
    && retained.Keys == transforms.Keys
    && forall k :: k in transforms ==> transforms[k].Valid() && transforms[k].insertionOrder == retained[k]
  }

  /** The edges with one speaking authority. */
  ghost function ResolvedEdges(retained: Retained, q: EdgeQuery, slerp: Slerp): set<ResolvedEdge> {
    set k | k in retained && IsResolved(k, retained[k], q, slerp) :: ScanEdge(k, retained[k], q, slerp).edge.value
  }

  ghost predicate IsResolved(k: EdgeKey, fifo: seq<Sample>, q: EdgeQuery, slerp: Slerp) {
    var outcome := ScanEdge(k, fifo, q, slerp);
    outcome.Unambiguous? && outcome.edge.Some?
  }

  /** The edges with several, and who they are. */
  ghost function ConflictingEdges(retained: Retained, q: EdgeQuery, slerp: Slerp): map<EdgeKey, set<string>> {
    map k | k in retained && ScanEdge(k, retained[k], q, slerp).Conflicting? ::
        ScanEdge(k, retained[k], q, slerp).authorities
  }

  /** What one resolution of a query must be: the shortest walk over the resolved edges if there is one, and
      otherwise a conflict exactly when some edge had several authorities. */
  ghost predicate Resolves(retained: Retained, fromFrame: string, toFrame: string, q: EdgeQuery, slerp: Slerp,
                           answer: TransformAnswer)
  {
    var edges, conflicts := ResolvedEdges(retained, q, slerp), ConflictingEdges(retained, q, slerp);
    if Reachable(edges, fromFrame, toFrame) then
      exists w ::
        && Shortest(edges, fromFrame, w, toFrame)
        && NoRepeats(FramesOf(fromFrame, w))
        && answer == Answer(fromFrame, toFrame, q.atUs, Along(w), StepsOf(w))
    else if conflicts != map[] then answer == Conflict(conflicts)
    else answer == NotFound
  }

  /** One resolution of a query by a store that walks its resolved edges in the given order. */
  ghost predicate ResolvesIn(order: seq<ResolvedEdge>, retained: Retained, fromFrame: string, toFrame: string,
                             q: EdgeQuery, slerp: Slerp, answer: TransformAnswer)
  {
    && Orders(order, ResolvedEdges(retained, q, slerp)) && Resolves(retained, fromFrame, toFrame, q, slerp, answer)
    && (answer.Answer? ==> exists w ::
          Discovers(order, fromFrame, w, toFrame) && IsAnswerAlong(answer, fromFrame, toFrame, q.atUs, w))
  }

  ghost predicate IsAnswerAlong(answer: TransformAnswer, fromFrame: string, toFrame: string, atUs: nat, w: seq<Arc>) {
    answer == Answer(fromFrame, toFrame, atUs, Along(w), StepsOf(w))
  }

  method ResolveTransformOnce(transforms: map<EdgeKey, TransformEdgeHistory>, fromFrame: string, toFrame: string,
                              q: EdgeQuery, slerp: Slerp, ghost retained: Retained)
    returns (answer: TransformAnswer)
    requires Holds(transforms, retained)
    ensures Resolves(retained, fromFrame, toFrame, q, slerp, answer)
    ensures exists order :: ResolvesIn(order, retained, fromFrame, toFrame, q, slerp, answer)
  {
    hide ResolvedEdges, ConflictingEdges, Shortest, NoRepeats, Discovers, Orders, Reachable;
    var resolved, conflicts := ResolveAll(transforms, q, slerp, retained);
    OrdersElements(resolved, ResolvedEdges(retained, q, slerp));
    var found := Search(resolved, fromFrame, toFrame);
    match found
    case Found(transform, path) =>
      answer := Answer(fromFrame, toFrame, q.atUs, transform, path);
      assert exists w ::
        Discovers(resolved, fromFrame, w, toFrame) && IsAnswerAlong(answer, fromFrame, toFrame, q.atUs, w);
      assert ResolvesIn(resolved, retained, fromFrame, toFrame, q, slerp, answer);
    case NoPath =>
      answer := if conflicts != map[] then Conflict(conflicts) else NotFound;
      assert ResolvesIn(resolved, retained, fromFrame, toFrame, q, slerp, answer);
  }

  lemma OrdersElements(order: seq<ResolvedEdge>, edges: set<ResolvedEdge>)
    requires Orders(order, edges)
    ensures ElementsOf(order) == edges
  {
  }

  method ResolveAll(transforms: map<EdgeKey, TransformEdgeHistory>, q: EdgeQuery, slerp: Slerp,
                    ghost retained: Retained)
    returns (resolved: seq<ResolvedEdge>, conflicts: map<EdgeKey, set<string>>)
    requires Holds(transforms, retained)
    ensures Orders(resolved, ResolvedEdges(retained, q, slerp))
    ensures conflicts == ConflictingEdges(retained, q, slerp)
  {
    NoEdges(q, slerp);
    hide ScanEdge, ResolvedEdges, ConflictingEdges, Orders;
    resolved, conflicts := [], map[];
    var pending := transforms.Keys;
    ghost var seen: Retained := map[];
    while pending != {}
      invariant pending <= transforms.Keys
      invariant seen == map k | k in transforms.Keys - pending :: retained[k]
      invariant Orders(resolved, ResolvedEdges(seen, q, slerp))
      invariant conflicts == ConflictingEdges(seen, q, slerp)
    {
      var key :| key in pending;
      pending := pending - {key};
      var outcome := ResolveEdge(key, transforms[key], q, slerp);
      SeeEdge(seen, key, retained[key], q, slerp);
      SeeInOrder(resolved, seen, key, retained[key], q, slerp);
      seen := seen[key := retained[key]];
      match outcome {
        case Unambiguous(Some(edge)) =>
          resolved := resolved + [edge];
        case Unambiguous(None) =>
        case Conflicting(authorities) =>
          conflicts := conflicts[key := authorities];
      }
    }
    assert seen == retained;
  }

  lemma NoEdges(q: EdgeQuery, slerp: Slerp)
    ensures Orders([], ResolvedEdges(map[], q, slerp)) && ConflictingEdges(map[], q, slerp) == map[]
  {
  }

  lemma AppendElement(order: seq<ResolvedEdge>, edges: set<ResolvedEdge>, e: ResolvedEdge)
    requires Orders(order, edges) && e !in edges
    ensures Orders(order + [e], edges + {e})
  {
  }

  lemma ScanKeepsKey(k: EdgeKey, fifo: seq<Sample>, q: EdgeQuery, slerp: Slerp)
    requires IsResolved(k, fifo, q, slerp)
    ensures ScanEdge(k, fifo, q, slerp).edge.value.key == k
  {
    var speaking := Speaking(k, fifo, q, slerp);
    forall authority | authority in speaking
      ensures ScanAuthority(k, fifo, authority, q, slerp).Some?
      ensures ScanAuthority(k, fifo, authority, q, slerp).value.key == k
    {
      ScanNamesAuthority(k, fifo, authority, q, slerp);
    }
    hide ScanAuthority;
  }

  // An edge resolved is named by its key, so it is new.
  lemma NewEdge(seen: Retained, key: EdgeKey, fifo: seq<Sample>, q: EdgeQuery, slerp: Slerp)
    requires key !in seen && IsResolved(key, fifo, q, slerp)
    ensures ScanEdge(key, fifo, q, slerp).edge.value !in ResolvedEdges(seen, q, slerp)
  {
    ScanKeepsKey(key, fifo, q, slerp);
    forall k | k in seen && IsResolved(k, seen[k], q, slerp)
      ensures ScanEdge(k, seen[k], q, slerp).edge.value.key == k
    {
      ScanKeepsKey(k, seen[k], q, slerp);
    }
    hide ScanEdge;
  }

  lemma SeeEdge(seen: Retained, key: EdgeKey, fifo: seq<Sample>, q: EdgeQuery, slerp: Slerp)
    requires key !in seen
    ensures var outcome := ScanEdge(key, fifo, q, slerp);
            && ResolvedEdges(seen[key := fifo], q, slerp) == ResolvedEdges(seen, q, slerp) +
                 (if IsResolved(key, fifo, q, slerp) then {outcome.edge.value} else {})
            && ConflictingEdges(seen[key := fifo], q, slerp) ==
                 if outcome.Conflicting? then ConflictingEdges(seen, q, slerp)[key := outcome.authorities]
                 else ConflictingEdges(seen, q, slerp)
  {
    hide ScanEdge;
    var after := seen[key := fifo];
    forall e
      ensures e in ResolvedEdges(after, q, slerp) <==>
        e in ResolvedEdges(seen, q, slerp)
        || (IsResolved(key, fifo, q, slerp) && e == ScanEdge(key, fifo, q, slerp).edge.value)
    {
      if k :| k in seen && IsResolved(k, seen[k], q, slerp) && e == ScanEdge(k, seen[k], q, slerp).edge.value {
        assert k in after && after[k] == seen[k];
      }
      if IsResolved(key, fifo, q, slerp) && e == ScanEdge(key, fifo, q, slerp).edge.value {
        assert key in after && after[key] == fifo;
      }
    }
  }

  lemma SeeInOrder(order: seq<ResolvedEdge>, seen: Retained, key: EdgeKey, fifo: seq<Sample>, q: EdgeQuery,
                   slerp: Slerp)
    requires key !in seen && Orders(order, ResolvedEdges(seen, q, slerp))
    ensures Orders(if IsResolved(key, fifo, q, slerp) then order + [ScanEdge(key, fifo, q, slerp).edge.value]
                   else order,
                   ResolvedEdges(seen[key := fifo], q, slerp))
  {
    hide ScanEdge, ResolvedEdges, ConflictingEdges, Orders, IsResolved;
    SeeEdge(seen, key, fifo, q, slerp);
    if IsResolved(key, fifo, q, slerp) {
      var e := ResolvedOf(key, fifo, q, slerp);
      NewEdge(seen, key, fifo, q, slerp);
      AppendElement(order, ResolvedEdges(seen, q, slerp), e);
    } else {
      assert ResolvedEdges(seen, q, slerp) + {} == ResolvedEdges(seen, q, slerp);
    }
  }

  lemma ResolvedOf(key: EdgeKey, fifo: seq<Sample>, q: EdgeQuery, slerp: Slerp) returns (e: ResolvedEdge)
    requires IsResolved(key, fifo, q, slerp)
    ensures e == ScanEdge(key, fifo, q, slerp).edge.value
  {
    hide ScanEdge;
    e := ScanEdge(key, fifo, q, slerp).edge.value;
  }

  /** `query_transform` without waiting: blank frames are refused and a frame is its own identity. */
  method QueryTransform(transforms: map<EdgeKey, TransformEdgeHistory>, fromFrame: string, toFrame: string,
                        q: EdgeQuery, slerp: Slerp, ghost retained: Retained)
    returns (answer: TransformAnswer)
    requires Holds(transforms, retained)
    ensures var (a, b) := (Text.Trim(fromFrame), Text.Trim(toFrame));
            if a == "" || b == "" then answer == BadRequest
            else if a == b then answer == Answer(a, b, q.atUs, IDENTITY, [])
            else Resolves(retained, a, b, q, slerp, answer)
                 && exists order :: ResolvesIn(order, retained, a, b, q, slerp, answer)
  {
    var a, b := Text.Trim(fromFrame), Text.Trim(toFrame);
    if a == "" || b == "" {
      return BadRequest;
    }
    if a == b {
      return Answer(a, b, q.atUs, IDENTITY, []);
    }
    answer := ResolveTransformOnce(transforms, a, b, q, slerp, retained);
  }

  // ----- answers of two queries together

  /** A frame is found from another exactly when it is found the other way round. */
  lemma FoundBothWays(retained: Retained, a: string, b: string, q: EdgeQuery, slerp: Slerp, x: TransformAnswer,
                      y: TransformAnswer)
    requires Resolves(retained, a, b, q, slerp, x) && Resolves(retained, b, a, q, slerp, y)
    ensures x.Answer? <==> y.Answer?
  {
    var edges := ResolvedEdges(retained, q, slerp);
    ReachableIsEquivalence(edges, a, b, a);
    ReachableIsEquivalence(edges, b, a, b);
    hide Reachable, ResolvedEdges, ConflictingEdges, Shortest, NoRepeats, Along;
  }

  lemma AnswerIsWalk(retained: Retained, a: string, b: string, q: EdgeQuery, slerp: Slerp, x: TransformAnswer)
    returns (w: seq<Arc>)
    requires Resolves(retained, a, b, q, slerp, x) && x.Answer?
    ensures IsWalk(ResolvedEdges(retained, q, slerp), a, w, b) && x.transform == Along(w)
  {
    hide ResolvedEdges, ConflictingEdges, NoRepeats, Along, StepsOf, IsWalk;
    var edges := ResolvedEdges(retained, q, slerp);
    w :| Shortest(edges, a, w, b) && x == Answer(a, b, q.atUs, Along(w), StepsOf(w));
  }

  /** When the resolved edges form a forest, the answers of two opposite queries compose to the identity. */
  lemma AnswersUndoEachOther(retained: Retained, edges: seq<ResolvedEdge>, a: string, b: string, q: EdgeQuery,
                             slerp: Slerp, x: TransformAnswer, y: TransformAnswer)
    requires Forest(edges) && ElementsOf(edges) == ResolvedEdges(retained, q, slerp)
    requires Resolves(retained, a, b, q, slerp, x) && Resolves(retained, b, a, q, slerp, y) && x.Answer?
    ensures y.Answer? && Compose(y.transform, x.transform) == IDENTITY && y.transform == Inverse(x.transform)
  {
    hide *;
    FoundBothWays(retained, a, b, q, slerp, x, y);
    var u := AnswerIsWalk(retained, a, b, q, slerp, x);
    var v := AnswerIsWalk(retained, b, a, q, slerp, y);
    ForwardAndBack(edges, a, u, b, v);
  }

  /** And the answers of chained queries compose to the answer of the joint one. */
  lemma AnswersCompose(retained: Retained, edges: seq<ResolvedEdge>, a: string, b: string, c: string, q: EdgeQuery,
                       slerp: Slerp, x: TransformAnswer, y: TransformAnswer, z: TransformAnswer)
    requires Forest(edges) && ElementsOf(edges) == ResolvedEdges(retained, q, slerp)
    requires Resolves(retained, a, b, q, slerp, x) && x.Answer?
    requires Resolves(retained, b, c, q, slerp, y) && y.Answer?
    requires Resolves(retained, a, c, q, slerp, z)
    ensures z.Answer? && Compose(y.transform, x.transform) == z.transform
  {
    hide *;
    var u := AnswerIsWalk(retained, a, b, q, slerp, x);
    var v := AnswerIsWalk(retained, b, c, q, slerp, y);
    JoinIsWalk(ElementsOf(edges), a, u, b, v, c);
    WalkMeansAnswer(retained, a, u + v, c, q, slerp, z);
    var w := AnswerIsWalk(retained, a, c, q, slerp, z);
    AnswersChain(edges, a, u, b, v, c, w);
  }

  lemma WalkMeansAnswer(retained: Retained, a: string, w: seq<Arc>, b: string, q: EdgeQuery, slerp: Slerp,
                        x: TransformAnswer)
    requires IsWalk(ResolvedEdges(retained, q, slerp), a, w, b) && Resolves(retained, a, b, q, slerp, x)
    ensures x.Answer?
  {
    hide ResolvedEdges, ConflictingEdges, NoRepeats, Along, StepsOf, IsWalk, Shortest;
    assert Reachable(ResolvedEdges(retained, q, slerp), a, b);
  }
}
