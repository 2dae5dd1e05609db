/** The breadth-first search of the World State Fabric over both directions of every resolved edge. */
module TransformGraph {
  import opened Common
  import opened RigidTransforms
  import opened TransformHistory
  import opened TransformResolution

  datatype Direction = ChildToParent | ParentToChild

  /** A path step names its edge; the source copies the edge's authority, provider and timing fields into it. */
  datatype Step = Step(fromFrame: string, toFrame: string, edge: ResolvedEdge, direction: Direction)

  datatype Arc = Arc(toFrame: string, transformToFrom: Rigid, step: Step)

  function UpArc(e: ResolvedEdge): Arc {
    Arc(e.key.parentFrame, e.parentFromChild, Step(e.key.childFrame, e.key.parentFrame, e, ChildToParent))
  }

  function DownArc(e: ResolvedEdge): Arc {
    Arc(e.key.childFrame, Inverse(e.parentFromChild), Step(e.key.parentFrame, e.key.childFrame, e, ParentToChild))
  }

  // ----- walks

  ghost predicate IsArc(edges: set<ResolvedEdge>, a: Arc) {
    a.step.edge in edges && (a == UpArc(a.step.edge) || a == DownArc(a.step.edge))
  }

  /** A walk chains arcs of resolved edges from one frame to another. */
  ghost predicate IsWalk(edges: set<ResolvedEdge>, source: string, w: seq<Arc>, target: string) {
    && (forall i :: 0 <= i < |w| ==> IsArc(edges, w[i]))
    && (forall i :: 0 <= i < |w| - 1 ==> w[i].toFrame == w[i + 1].step.fromFrame)
    && (if w == [] then source == target
        else w[0].step.fromFrame == source && w[|w| - 1].toFrame == target)
  }

  ghost predicate Reachable(edges: set<ResolvedEdge>, source: string, target: string) {
    exists w :: IsWalk(edges, source, w, target)
  }

  /** The frames a walk visits, in order. */
  function FramesOf(source: string, w: seq<Arc>): (f: seq<string>)
    ensures |f| == |w| + 1 && f[0] == source
    ensures forall i :: 0 <= i < |w| ==> f[i + 1] == w[i].toFrame
  {
    [source] + seq(|w|, i requires 0 <= i < |w| => w[i].toFrame)
  }

  ghost predicate NoRepeats(f: seq<string>) {
    forall i, j :: 0 <= i < j < |f| ==> f[i] != f[j]
  }

  /** The ordered product of the arcs: it takes coordinates in the first frame to coordinates in the last. */
  function Along(w: seq<Arc>): Rigid {
    if w == [] then IDENTITY else Compose(w[|w| - 1].transformToFrom, Along(w[..|w| - 1]))
  }

  function StepsOf(w: seq<Arc>): seq<Step> {
    seq(|w|, i requires 0 <= i < |w| => w[i].step)
  }

  lemma ExtendWalk(edges: set<ResolvedEdge>, source: string, w: seq<Arc>, a: Arc)
    requires IsWalk(edges, source, w, a.step.fromFrame) && IsArc(edges, a)
    ensures IsWalk(edges, source, w + [a], a.toFrame)
    ensures Along(w + [a]) == Compose(a.transformToFrom, Along(w))
    ensures StepsOf(w + [a]) == StepsOf(w) + [a.step]
    ensures FramesOf(source, w + [a]) == FramesOf(source, w) + [a.toFrame]
  {
    hide *;
    ExtendIsWalk(edges, source, w, a);
    ExtendAlong(w, a);
    ExtendSteps(source, w, a);
  }

  lemma ExtendIsWalk(edges: set<ResolvedEdge>, source: string, w: seq<Arc>, a: Arc)
    requires IsWalk(edges, source, w, a.step.fromFrame) && IsArc(edges, a)
    ensures IsWalk(edges, source, w + [a], a.toFrame)
  {
    hide IsArc;
  }

  lemma ExtendAlong(w: seq<Arc>, a: Arc)
    ensures Along(w + [a]) == Compose(a.transformToFrom, Along(w))
  {
    hide Compose;
    assert (w + [a])[..|w|] == w;
  }

  lemma ExtendSteps(source: string, w: seq<Arc>, a: Arc)
    ensures StepsOf(w + [a]) == StepsOf(w) + [a.step]
    ensures FramesOf(source, w + [a]) == FramesOf(source, w) + [a.toFrame]
  {
  }

  function ElementsOf(s: seq<ResolvedEdge>): set<ResolvedEdge> {
    set e | e in s
  }

  // ----- the adjacency lists

  ghost predicate Lists(adjacency: map<string, seq<Arc>>, edges: set<ResolvedEdge>) {
    && (forall u, a :: u in adjacency && a in adjacency[u] ==> IsArc(edges, a) && a.step.fromFrame == u)
    && (forall a :: IsArc(edges, a) ==> a.step.fromFrame in adjacency && a in adjacency[a.step.fromFrame])
  }

  function Push(adjacency: map<string, seq<Arc>>, a: Arc): map<string, seq<Arc>> {
    var u := a.step.fromFrame;
    adjacency[u := (if u in adjacency then adjacency[u] else []) + [a]]
  }

  /** `add_resolved_edge_to_graph`: the child-to-parent arc first, then its inverse. */
  function AddEdge(adjacency: map<string, seq<Arc>>, e: ResolvedEdge): map<string, seq<Arc>> {
    Push(Push(adjacency, UpArc(e)), DownArc(e))
  }

  lemma PushKeeps(adjacency: map<string, seq<Arc>>, a: Arc)
    ensures forall u :: u in Push(adjacency, a) <==> u in adjacency || u == a.step.fromFrame
    ensures forall u, b :: u in Push(adjacency, a) ==>
        (b in Push(adjacency, a)[u] <==> (u in adjacency && b in adjacency[u]) || (u == a.step.fromFrame && b == a))
  {
  }

  lemma AddEdgeLists(adjacency: map<string, seq<Arc>>, edges: set<ResolvedEdge>, e: ResolvedEdge)
    requires Lists(adjacency, edges)
    ensures Lists(AddEdge(adjacency, e), edges + {e})
  {
    hide Push, IsArc, UpArc, DownArc;
    ArcsOfMore(edges, e);
    PushKeeps(adjacency, UpArc(e));
    PushKeeps(Push(adjacency, UpArc(e)), DownArc(e));
  }

  lemma ArcsOfMore(edges: set<ResolvedEdge>, e: ResolvedEdge)
    ensures forall a :: IsArc(edges + {e}, a) <==> IsArc(edges, a) || a == UpArc(e) || a == DownArc(e)
  {
    hide Inverse;
  }

  function ArcsOfEdge(e: ResolvedEdge, f: string): seq<Arc> {
    (if e.key.childFrame == f then [UpArc(e)] else []) + (if e.key.parentFrame == f then [DownArc(e)] else [])
  }

  /** The arcs out of a frame, in the order of the edges. */
  function ArcsFrom(edges: seq<ResolvedEdge>, f: string): seq<Arc> {
    if edges == [] then []
    else ArcsFrom(edges[..|edges| - 1], f) + ArcsOfEdge(edges[|edges| - 1], f)
  }

  function OutArcs(adjacency: map<string, seq<Arc>>, f: string): seq<Arc> {
    if f in adjacency then adjacency[f] else []
  }

  /** The adjacency lists hold the arcs in the order of the edges. */
  ghost predicate InOrder(adjacency: map<string, seq<Arc>>, edges: seq<ResolvedEdge>) {
    forall f :: OutArcs(adjacency, f) == ArcsFrom(edges, f)
  }

  lemma AddEdgeInOrder(adjacency: map<string, seq<Arc>>, edges: seq<ResolvedEdge>, e: ResolvedEdge)
    requires InOrder(adjacency, edges)
    ensures InOrder(AddEdge(adjacency, e), edges + [e])
  {
    hide Inverse;
    assert (edges + [e])[..|edges|] == edges;
    forall f
      ensures OutArcs(AddEdge(adjacency, e), f) == ArcsFrom(edges, f) + ArcsOfEdge(e, f)
    {
      assert OutArcs(adjacency, f) == ArcsFrom(edges, f);
    }
  }

  method BuildAdjacency(edges: seq<ResolvedEdge>) returns (adjacency: map<string, seq<Arc>>)
    ensures Lists(adjacency, ElementsOf(edges)) && InOrder(adjacency, edges)
  {
    hide Lists, InOrder, AddEdge;
    adjacency := map[];
    NothingListed();
    for i := 0 to |edges|
      invariant Lists(adjacency, ElementsOf(edges[..i])) && InOrder(adjacency, edges[..i])
    {
      AddEdgeLists(adjacency, ElementsOf(edges[..i]), edges[i]);
      AddEdgeInOrder(adjacency, edges[..i], edges[i]);
      assert ElementsOf(edges[..i + 1]) == ElementsOf(edges[..i]) + {edges[i]};
      assert edges[..i + 1] == edges[..i] + [edges[i]];
      adjacency := AddEdge(adjacency, edges[i]);
    }
    assert edges[..|edges|] == edges;
  }

  lemma NothingListed()
    ensures Lists(map[], ElementsOf([])) && InOrder(map[], [])
  {
  }

  // ----- the search

  type Walks = map<string, seq<Arc>>

  /** The frames waiting, and the walk found to every frame visited. */
  datatype Frontier = Frontier(queue: seq<string>, walks: Walks)

  /** The arcs out of one frame, one after the other: each neighbour not yet visited joins the queue. */
  function ExpandFrom(arcs: seq<Arc>, current: string, fr: Frontier): (after: Frontier)
    requires current in fr.walks
    ensures current in after.walks
  {
    if arcs == [] then fr
    else
      var a := arcs[0];
      ExpandFrom(arcs[1..], current,
                 if a.toFrame in fr.walks then fr
                 else Frontier(fr.queue + [a.toFrame], fr.walks[a.toFrame := fr.walks[current] + [a]]))
  }

  /** One frame off the queue. */
  function Advance(edges: seq<ResolvedEdge>, fr: Frontier): Frontier {
    if fr.queue == [] || fr.queue[0] !in fr.walks then fr
    else ExpandFrom(ArcsFrom(edges, fr.queue[0]), fr.queue[0], Frontier(fr.queue[1..], fr.walks))
  }

  /** The search after `k` frames, its edges being walked in this order. */
  function SearchedFor(edges: seq<ResolvedEdge>, source: string, k: nat): Frontier {
    if k == 0 then Frontier([source], map[source := []]) else Advance(edges, SearchedFor(edges, source, k - 1))
  }

  /** The walk with which the search, its edges in this order, takes the target off the queue. */
  ghost predicate Discovers(edges: seq<ResolvedEdge>, source: string, w: seq<Arc>, target: string) {
    exists k :: DiscoversAt(edges, source, w, target, k)
  }

  ghost predicate DiscoversAt(edges: seq<ResolvedEdge>, source: string, w: seq<Arc>, target: string, k: nat) {
    var fr := SearchedFor(edges, source, k);
    fr.queue != [] && fr.queue[0] == target && target in fr.walks && fr.walks[target] == w
  }

  /** Every visited frame has a walk without repeats, through visited frames. */
  ghost predicate Walked(edges: set<ResolvedEdge>, source: string, walks: Walks) {
    forall v :: v in walks ==>
      && IsWalk(edges, source, walks[v], v)
      && NoRepeats(FramesOf(source, walks[v]))
      && forall f :: f in FramesOf(source, walks[v]) ==> f in walks
  }

  /** The queue holds frames at distance d, then frames at distance d + 1. */
  ghost predicate Queued(queue: seq<string>, walks: Walks, d: nat) {
    && NoRepeats(queue)
    && (forall i :: 0 <= i < |queue| ==> queue[i] in walks && d <= |walks[queue[i]]| <= d + 1)
    && (forall i, j :: 0 <= i < j < |queue| ==> |walks[queue[i]]| <= |walks[queue[j]]|)
  }

  ghost predicate SettledFrame(edges: set<ResolvedEdge>, v: string, walks: Walks)
    requires v in walks
  {
    forall a :: IsArc(edges, a) && a.step.fromFrame == v ==>
      a.toFrame in walks && |walks[a.toFrame]| <= |walks[v]| + 1
  }

  /** The frames taken off the queue are near, and so are their neighbours. */
  ghost predicate Settled(edges: set<ResolvedEdge>, done: set<string>, walks: Walks, d: nat) {
    forall v :: v in done ==> v in walks && |walks[v]| <= d && SettledFrame(edges, v, walks)
  }

  ghost predicate Partitions(walks: Walks, done: set<string>, queue: seq<string>) {
    && (forall v :: v in walks <==> v in done || v in queue)
    && (forall v :: v in queue ==> v !in done)
  }

  ghost predicate Mirrors(walks: Walks, visited: set<string>, transforms: map<string, Rigid>,
                          paths: map<string, seq<Step>>)
  {
    && visited == walks.Keys == transforms.Keys == paths.Keys
    && forall v :: v in walks ==> transforms[v] == Along(walks[v]) && paths[v] == StepsOf(walks[v])
  }

  lemma DiscoverWalked(edges: set<ResolvedEdge>, source: string, walks: Walks, current: string, a: Arc)
    requires Walked(edges, source, walks) && current in walks
    requires IsArc(edges, a) && a.step.fromFrame == current && a.toFrame !in walks
    ensures Walked(edges, source, walks[a.toFrame := walks[current] + [a]])
  {
    hide IsWalk, NoRepeats, FramesOf, IsArc, Along, StepsOf;
    ExtendWalk(edges, source, walks[current], a);
    ExtendNoRepeats(FramesOf(source, walks[current]), a.toFrame);
  }

  lemma ExtendNoRepeats(f: seq<string>, v: string)
    requires NoRepeats(f) && v !in f
    ensures NoRepeats(f + [v])
    ensures forall g :: g in f + [v] <==> g in f || g == v
  {
  }

  lemma DiscoverQueued(queue: seq<string>, walks: Walks, d: nat, v: string, w: seq<Arc>)
    requires Queued(queue, walks, d) && v !in walks && |w| == d + 1
    ensures Queued(queue + [v], walks[v := w], d)
  {
  }

  lemma DiscoverSettled(edges: set<ResolvedEdge>, done: set<string>, walks: Walks, d: nat, v: string, w: seq<Arc>)
    requires Settled(edges, done, walks, d) && v !in walks && |w| == d + 1
    ensures Settled(edges, done, walks[v := w], d)
  {
  }

  // Following a walk from the source: each frame is settled in time, or a queued frame comes no later.
  lemma {:induction false} WalkIsCovered(edges: set<ResolvedEdge>, source: string, w: seq<Arc>, v: string,
                                         walks: Walks, done: set<string>, queue: seq<string>, d: nat)
    requires IsWalk(edges, source, w, v)
    requires source in walks && walks[source] == [] && Settled(edges, done, walks, d)
    requires Partitions(walks, done, queue)
    ensures (v in done && |walks[v]| <= |w|) || exists u :: u in queue && u in walks && |walks[u]| <= |w|
    decreases |w|
  {
    if w != [] {
      var n := |w| - 1;
      var u := w[n].step.fromFrame;
      assert IsWalk(edges, source, w[..n], u) by { PrefixWalk(edges, source, w, v, n); }
      WalkIsCovered(edges, source, w[..n], u, walks, done, queue, d);
      if u in done && |walks[u]| <= n {
        assert IsArc(edges, w[n]);
        assert v in walks && |walks[v]| <= n + 1;
      }
    }
  }

  lemma PrefixWalk(edges: set<ResolvedEdge>, source: string, w: seq<Arc>, target: string, n: nat)
    requires IsWalk(edges, source, w, target) && n < |w|
    ensures IsWalk(edges, source, w[..n], w[n].step.fromFrame)
  {
    if n > 0 {
      assert w[n - 1].toFrame == w[n].step.fromFrame;
    }
  }

  datatype SearchAnswer =
    | Found(transform: Rigid, path: seq<Step>)
    | NoPath

  ghost predicate Shortest(edges: set<ResolvedEdge>, source: string, w: seq<Arc>, target: string) {
    && IsWalk(edges, source, w, target)
    && forall x :: IsWalk(edges, source, x, target) ==> |w| <= |x|
  }

  ghost function FrameUniverse(edges: set<ResolvedEdge>, source: string): set<string> {
    {source} + (set e | e in edges :: e.key.parentFrame) + (set e | e in edges :: e.key.childFrame)
  }

  /** The frame in hand is off the queue and not yet done. */
  ghost predicate InHand(graph: set<ResolvedEdge>, source: string, current: string, queue: seq<string>, walks: Walks,
                         done: set<string>, d: nat)
  {
    && Walked(graph, source, walks) && source in walks && walks[source] == []
    && current in walks && |walks[current]| == d
    && Partitions(walks, done + {current}, queue)
    && Queued(queue, walks, d) && Settled(graph, done, walks, d)
    && walks.Keys <= FrameUniverse(graph, source)
  }

  lemma Discover(graph: set<ResolvedEdge>, source: string, current: string, queue: seq<string>, walks: Walks,
                 done: set<string>, d: nat, a: Arc)
    requires InHand(graph, source, current, queue, walks, done, d)
    requires IsArc(graph, a) && a.step.fromFrame == current && a.toFrame !in walks
    ensures InHand(graph, source, current, queue + [a.toFrame], walks[a.toFrame := walks[current] + [a]], done, d)
  {
    DiscoverWalked(graph, source, walks, current, a);
    DiscoverQueued(queue, walks, d, a.toFrame, walks[current] + [a]);
    DiscoverSettled(graph, done, walks, d, a.toFrame, walks[current] + [a]);
    PartitionsGrow(walks, done + {current}, queue, a.toFrame, walks[current] + [a]);
    ArcInUniverse(graph, source, a);
    hide Walked, Queued, Settled, FrameUniverse, Partitions;
  }

  lemma PartitionsGrow(walks: Walks, done: set<string>, queue: seq<string>, v: string, w: seq<Arc>)
    requires Partitions(walks, done, queue) && v !in walks
    ensures Partitions(walks[v := w], done, queue + [v])
  {
  }

  lemma PartitionsTake(walks: Walks, done: set<string>, queue: seq<string>)
    requires Partitions(walks, done, queue) && queue != [] && queue[0] !in queue[1..]
    ensures Partitions(walks, done + {queue[0]}, queue[1..])
    ensures queue[0] in walks && queue[0] !in done
  {
    assert queue == [queue[0]] + queue[1..];
    assert forall v :: v in queue <==> v == queue[0] || v in queue[1..];
  }

  lemma ArcInUniverse(graph: set<ResolvedEdge>, source: string, a: Arc)
    requires IsArc(graph, a)
    ensures a.toFrame in FrameUniverse(graph, source)
  {
    assert a.step.edge in graph;
  }

  lemma VisitedIsNear(graph: set<ResolvedEdge>, source: string, current: string, queue: seq<string>, walks: Walks,
                      done: set<string>, d: nat, v: string)
    requires InHand(graph, source, current, queue, walks, done, d) && v in walks
    ensures |walks[v]| <= d + 1
  {
    hide Walked, FrameUniverse, Reachable, IsArc;
    if v in queue {
      var i :| 0 <= i < |queue| && queue[i] == v;
    }
  }

  lemma DiscoverMirrors(walks: Walks, visited: set<string>, transforms: map<string, Rigid>,
                        paths: map<string, seq<Step>>, current: string, a: Arc)
    requires Mirrors(walks, visited, transforms, paths) && current in walks
    ensures Mirrors(walks[a.toFrame := walks[current] + [a]], visited + {a.toFrame},
                    transforms[a.toFrame := Compose(a.transformToFrom, transforms[current])],
                    paths[a.toFrame := paths[current] + [a.step]])
  {
    assert (walks[current] + [a])[..|walks[current]|] == walks[current];
  }

  /** The arcs out of the frame in hand: every neighbour not yet visited joins the queue one step further out. */
  method Expand(ghost graph: set<ResolvedEdge>, ghost source: string, arcs: seq<Arc>, current: string,
                queue0: seq<string>, visited0: set<string>, transforms0: map<string, Rigid>,
                paths0: map<string, seq<Step>>, ghost walks0: Walks, ghost done: set<string>, ghost d: nat)
    returns (queue: seq<string>, visited: set<string>, transforms: map<string, Rigid>,
             paths: map<string, seq<Step>>, ghost walks: Walks)
    requires Mirrors(walks0, visited0, transforms0, paths0)
    requires InHand(graph, source, current, queue0, walks0, done, d)
    requires forall a :: a in arcs <==> IsArc(graph, a) && a.step.fromFrame == current
    ensures Mirrors(walks, visited, transforms, paths)
    ensures InHand(graph, source, current, queue, walks, done, d)
    ensures SettledFrame(graph, current, walks)
    ensures current in walks0 && Frontier(queue, walks) == ExpandFrom(arcs, current, Frontier(queue0, walks0))
    ensures current in walks && walks[current] == walks0[current]
  {
    hide InHand, Mirrors, IsArc;
    queue, visited, transforms, paths, walks := queue0, visited0, transforms0, paths0, walks0;
    InHandKnows(graph, source, current, queue, walks, done, d);
    ghost var goal := ExpandFrom(arcs, current, Frontier(queue, walks));
    assert arcs[0..] == arcs;
    for k := 0 to |arcs|
      invariant Mirrors(walks, visited, transforms, paths)
      invariant InHand(graph, source, current, queue, walks, done, d)
      invariant current in walks && walks[current] == walks0[current]
      invariant ExpandFrom(arcs[k..], current, Frontier(queue, walks)) == goal
      invariant forall j :: 0 <= j < k ==> arcs[j].toFrame in walks && |walks[arcs[j].toFrame]| <= d + 1
    {
      var a := arcs[k];
      assert arcs[k..][1..] == arcs[k + 1..];
      MirrorsKnows(walks, visited, transforms, paths);
      InHandKnows(graph, source, current, queue, walks, done, d);
      if a.toFrame in visited {
        VisitedIsNear(graph, source, current, queue, walks, done, d, a.toFrame);
      } else {
        Discover(graph, source, current, queue, walks, done, d, a);
        DiscoverMirrors(walks, visited, transforms, paths, current, a);
        transforms := transforms[a.toFrame := Compose(a.transformToFrom, transforms[current])];
        paths := paths[a.toFrame := paths[current] + [a.step]];
        visited := visited + {a.toFrame};
        queue := queue + [a.toFrame];
        walks := walks[a.toFrame := walks[current] + [a]];
      }
    }
    InHandKnows(graph, source, current, queue, walks, done, d);
  }

  lemma InHandKnows(graph: set<ResolvedEdge>, source: string, current: string, queue: seq<string>, walks: Walks,
                    done: set<string>, d: nat)
    requires InHand(graph, source, current, queue, walks, done, d)
    ensures current in walks && |walks[current]| == d
  {
  }

  lemma MirrorsKnows(walks: Walks, visited: set<string>, transforms: map<string, Rigid>,
                     paths: map<string, seq<Step>>)
    requires Mirrors(walks, visited, transforms, paths)
    ensures visited == walks.Keys == transforms.Keys == paths.Keys
  {
  }

  /** Between frames. */
  ghost predicate Exploring(graph: set<ResolvedEdge>, source: string, queue: seq<string>, walks: Walks,
                            done: set<string>, d: nat)
  {
    && Walked(graph, source, walks) && source in walks && walks[source] == []
    && Partitions(walks, done, queue)
    && Queued(queue, walks, d) && Settled(graph, done, walks, d)
    && walks.Keys <= FrameUniverse(graph, source)
  }

  lemma TakeHead(graph: set<ResolvedEdge>, source: string, queue: seq<string>, walks: Walks, done: set<string>, d: nat)
    requires Exploring(graph, source, queue, walks, done, d) && queue != []
    ensures queue[0] in walks && queue[0] !in done && queue[0] in FrameUniverse(graph, source)
    ensures InHand(graph, source, queue[0], queue[1..], walks, done, |walks[queue[0]]|)
  {
    HeadIsNear(queue, walks, d);
    PartitionsTake(walks, done, queue);
    SettledLater(graph, done, walks, d, |walks[queue[0]]|);
    hide Walked, Queued, Settled, FrameUniverse, Partitions;
  }

  lemma SettledLater(graph: set<ResolvedEdge>, done: set<string>, walks: Walks, d: nat, later: nat)
    requires Settled(graph, done, walks, d) && d <= later
    ensures Settled(graph, done, walks, later)
  {
  }

  lemma HeadIsNear(queue: seq<string>, walks: Walks, d: nat)
    requires Queued(queue, walks, d) && queue != []
    ensures d <= |walks[queue[0]]| && Queued(queue[1..], walks, |walks[queue[0]]|) && queue[0] !in queue[1..]
  {
  }

  lemma FinishHand(graph: set<ResolvedEdge>, source: string, current: string, queue: seq<string>, walks: Walks,
                   done: set<string>, d: nat)
    requires InHand(graph, source, current, queue, walks, done, d) && SettledFrame(graph, current, walks)
    ensures Exploring(graph, source, queue, walks, done + {current}, d)
  {
    hide Walked, Queued, SettledFrame, FrameUniverse, Partitions;
  }

  lemma HeadIsShortest(graph: set<ResolvedEdge>, source: string, queue: seq<string>, walks: Walks, done: set<string>,
                       d: nat)
    requires Exploring(graph, source, queue, walks, done, d) && queue != []
    ensures var v := queue[0];
            v in walks && Shortest(graph, source, walks[v], v) && NoRepeats(FramesOf(source, walks[v]))
  {
    hide IsWalk, NoRepeats, Settled, FrameUniverse;
    var v := queue[0];
    forall x | IsWalk(graph, source, x, v)
      ensures |walks[v]| <= |x|
    {
      WalkIsCovered(graph, source, x, v, walks, done, queue, d);
      var u :| u in queue && u in walks && |walks[u]| <= |x|;
      var i :| 0 <= i < |queue| && queue[i] == u;
    }
  }

  lemma EmptyQueueMeansNoPath(graph: set<ResolvedEdge>, source: string, walks: Walks, done: set<string>, d: nat,
                              target: string)
    requires Exploring(graph, source, [], walks, done, d) && target !in done
    ensures !Reachable(graph, source, target)
  {
    forall w | IsWalk(graph, source, w, target)
      ensures false
    {
      WalkIsCovered(graph, source, w, target, walks, done, [], d);
    }
  }

  lemma StartExploring(graph: set<ResolvedEdge>, source: string)
    ensures Exploring(graph, source, [source], map[source := []], {}, 0)
  {
    assert FramesOf(source, []) == [source];
  }

  /** The search itself.  It finds the target exactly when the target is reachable, by a walk with the fewest edges
      and no repeated frame, and returns the ordered product of that walk's transforms. */
  method Search(edges: seq<ResolvedEdge>, fromFrame: string, toFrame: string) returns (answer: SearchAnswer)
    ensures answer.Found? <==> Reachable(ElementsOf(edges), fromFrame, toFrame)
    ensures answer.Found? ==> exists w ::
        && Shortest(ElementsOf(edges), fromFrame, w, toFrame)
        && NoRepeats(FramesOf(fromFrame, w)) && Discovers(edges, fromFrame, w, toFrame)
        && answer == Found(Along(w), StepsOf(w))
  {
    ghost var graph := ElementsOf(edges);
    var adjacency := BuildAdjacency(edges);
    var queue, visited := [fromFrame], {fromFrame};
    var transforms, paths := map[fromFrame := IDENTITY], map[fromFrame := []];
    ghost var walks: Walks := map[fromFrame := []];
    ghost var done: set<string> := {};
    ghost var d: nat := 0;
    ghost var k: nat := 0;
    StartExploring(graph, fromFrame);
    hide Exploring, InHand, Shortest, NoRepeats, SettledFrame, FrameUniverse, IsWalk, IsArc, Lists, InOrder, ExpandFrom,
         ArcsFrom, Discovers;
    while queue != []
      invariant Mirrors(walks, visited, transforms, paths)
      invariant Exploring(graph, fromFrame, queue, walks, done, d)
      invariant toFrame !in done && Frontier(queue, walks) == SearchedFor(edges, fromFrame, k)
      decreases FrameUniverse(graph, fromFrame) - done
    {
      var current := queue[0];
      TakeHead(graph, fromFrame, queue, walks, done, d);
      if current == toFrame {
        HeadIsShortest(graph, fromFrame, queue, walks, done, d);
        ReachableBy(graph, fromFrame, walks[toFrame], toFrame);
        DiscoveredAt(edges, fromFrame, walks[toFrame], toFrame, k);
        return Found(transforms[current], paths[current]);
      }
      queue := queue[1..];
      d := |walks[current]|;
      OrderedArcs(adjacency, edges, current);
      if current in adjacency {
        ListedArcs(adjacency, graph, current);
        queue, visited, transforms, paths, walks :=
          Expand(graph, fromFrame, adjacency[current], current, queue, visited, transforms, paths, walks, done, d);
      } else {
        UnlistedArcs(adjacency, graph, current, walks);
        NothingToExpand(current, Frontier(queue, walks));
      }
      k := k + 1;
      FinishHand(graph, fromFrame, current, queue, walks, done, d);
      done := done + {current};
    }
    EmptyQueueMeansNoPath(graph, fromFrame, walks, done, d, toFrame);
    return NoPath;
  }

  lemma DiscoveredAt(edges: seq<ResolvedEdge>, source: string, w: seq<Arc>, target: string, k: nat)
    requires DiscoversAt(edges, source, w, target, k)
    ensures Discovers(edges, source, w, target)
  {
  }

  lemma OrderedArcs(adjacency: map<string, seq<Arc>>, edges: seq<ResolvedEdge>, f: string)
    requires InOrder(adjacency, edges)
    ensures ArcsFrom(edges, f) == if f in adjacency then adjacency[f] else []
  {
    assert OutArcs(adjacency, f) == ArcsFrom(edges, f);
  }

  lemma NothingToExpand(current: string, fr: Frontier)
    requires current in fr.walks
    ensures ExpandFrom([], current, fr) == fr
  {
  }

  lemma ReachableBy(graph: set<ResolvedEdge>, source: string, w: seq<Arc>, target: string)
    requires Shortest(graph, source, w, target)
    ensures Reachable(graph, source, target)
  {
  }

  lemma ListedArcs(adjacency: map<string, seq<Arc>>, graph: set<ResolvedEdge>, u: string)
    requires Lists(adjacency, graph) && u in adjacency
    ensures forall a :: a in adjacency[u] <==> IsArc(graph, a) && a.step.fromFrame == u
  {
  }

  lemma UnlistedArcs(adjacency: map<string, seq<Arc>>, graph: set<ResolvedEdge>, u: string, walks: Walks)
    requires Lists(adjacency, graph) && u !in adjacency && u in walks
    ensures SettledFrame(graph, u, walks)
  {
  }
}
