/** What a rigid transform does to a point: composition is one motion after the other, the inverse takes it back,
    distances stay, and rotations turn the way the right hand does.  So a walk's product gives the coordinates of one
    point in the frame it reaches from those in the frame it leaves, and the path of an answer explains its
    transform. */
module RigidMotion {
  import opened RigidTransforms
  import opened TransformHistory
  import opened TransformResolution
  import opened TransformGraph
  import opened TransformConsistency
  import opened TransformQuery

  /** The point's coordinates after the transform. */
  function Carry(a: Rigid, v: Vec3): Vec3 {
    Plus(Rotate(a.rotation, v), a.translation)
  }

  /** A composition carries a point as its right part does, and then its left. */
  lemma ComposeCarries(a: Rigid, b: Rigid, v: Vec3)
    ensures Carry(Compose(a, b), v) == Carry(a, Carry(b, v))
  {
    RotateMul(a.rotation, b.rotation, v);
    RotatePlus(a.rotation, Rotate(b.rotation, v), b.translation);
    hide Rotate, Mul;
  }

  lemma IdentityCarries(v: Vec3)
    ensures Carry(IDENTITY, v) == v
  {
    RotateByOne(v);
    hide Rotate;
  }

  /** The inverse carries every point back to where it was. */
  lemma InverseCarriesBack(a: Rigid, v: Vec3)
    ensures Carry(Inverse(a), Carry(a, v)) == v && Carry(a, Carry(Inverse(a), v)) == v
  {
    hide *;
    ComposeCarries(Inverse(a), a, v);
    ComposeCarries(a, Inverse(a), v);
    ComposeInverse(a);
    IdentityCarries(v);
  }

  function Minus(a: Vec3, b: Vec3): Vec3 {
    Plus(a, Negate(b))
  }

  /** Points keep their distance. */
  lemma CarryKeepsDistance(a: Rigid, u: Vec3, v: Vec3)
    ensures Length2(Minus(Carry(a, u), Carry(a, v))) == Length2(Minus(u, v))
  {
    RotatePlus(a.rotation, u, Negate(v));
    RotateNegate(a.rotation, v);
    RotatePreservesLength(a.rotation, Minus(u, v));
    hide Rotate;
    assert Minus(Carry(a, u), Carry(a, v)) == Rotate(a.rotation, Minus(u, v));
  }

  // The products a turn about the z axis is made of, coordinate by coordinate.
  function First(s: real, c: real, v: Vec3): Quat {
    Quat(c * v.x - s * v.y, c * v.y + s * v.x, c * v.z, -(s * v.z))
  }

  function ProductX(s: real, c: real, v: Vec3): real {
    First(s, c, v).x * c - First(s, c, v).y * s
  }

  function ProductY(s: real, c: real, v: Vec3): real {
    First(s, c, v).x * s + First(s, c, v).y * c
  }

  function ProductZ(s: real, c: real, v: Vec3): real {
    First(s, c, v).z * c - First(s, c, v).w * s
  }

  /** The coordinates turned by the angle with this cosine and sine. */
  function TurnedX(cosine: real, sine: real, v: Vec3): real {
    cosine * v.x - sine * v.y
  }

  function TurnedY(cosine: real, sine: real, v: Vec3): real {
    sine * v.x + cosine * v.y
  }

  lemma ProductXIs(s: real, c: real, v: Vec3)
    ensures ProductX(s, c, v) == TurnedX(c * c - s * s, 2.0 * (s * c), v)
  {
    assert (c * v.x - s * v.y) * c == (c * c) * v.x - (s * c) * v.y;
    assert (c * v.y + s * v.x) * s == (s * c) * v.y + (s * s) * v.x;
    assert (c * c - s * s) * v.x == (c * c) * v.x - (s * s) * v.x;
  }

  lemma ProductYIs(s: real, c: real, v: Vec3)
    ensures ProductY(s, c, v) == TurnedY(c * c - s * s, 2.0 * (s * c), v)
  {
    assert (c * v.x - s * v.y) * s == (s * c) * v.x - (s * s) * v.y;
    assert (c * v.y + s * v.x) * c == (c * c) * v.y + (s * c) * v.x;
    assert (c * c - s * s) * v.y == (c * c) * v.y - (s * s) * v.y;
  }

  lemma ProductZIs(s: real, c: real, v: Vec3)
    requires s * s + c * c == 1.0
    ensures ProductZ(s, c, v) == v.z
  {
    assert (c * v.z) * c + (s * v.z) * s == (s * s + c * c) * v.z;
  }

  lemma FirstIs(s: real, c: real, v: Vec3)
    ensures Mul(Quat(0.0, 0.0, s, c), Pure(v)) == First(s, c, v)
  {
  }

  lemma SecondIs(p: Quat, s: real, c: real)
    ensures var r := Mul(p, Conj(Quat(0.0, 0.0, s, c)));
      r.x == p.x * c - p.y * s && r.y == p.x * s + p.y * c && r.z == p.z * c - p.w * s
  {
  }

  lemma RotateIsProducts(s: real, c: real, v: Vec3)
    ensures Rotate(Quat(0.0, 0.0, s, c), v) == Vec3(ProductX(s, c, v), ProductY(s, c, v), ProductZ(s, c, v))
  {
    hide Mul, Pure, Conj, First;
    FirstIs(s, c, v);
    SecondIs(First(s, c, v), s, c);
  }

  /** Around the z axis the turn takes x towards y, by twice the angle whose sine and cosine are in the quaternion. */
  lemma TurnsAboutZ(s: real, c: real, v: Vec3)
    requires s * s + c * c == 1.0
    ensures Rotate(Quat(0.0, 0.0, s, c), v) ==
            Vec3(TurnedX(c * c - s * s, 2.0 * (s * c), v), TurnedY(c * c - s * s, 2.0 * (s * c), v), v.z)
  {
    hide *;
    RotateIsProducts(s, c, v);
    ProductXIs(s, c, v);
    ProductYIs(s, c, v);
    ProductZIs(s, c, v);
  }

  /** When poses explain all edges, whatever walk is taken: a point that is at `v` in the frame the walk leaves is, at
      what the product makes of `v` in the frame it reaches, the same point. */
  lemma WalkCarries(pose: Poses, edges: set<ResolvedEdge>, source: string, w: seq<Arc>, target: string, v: Vec3)
    requires Explains(pose, edges) && IsWalk(edges, source, w, target)
    ensures Carry(pose(target), Carry(Along(w), v)) == Carry(pose(source), v)
  {
    hide *;
    AlongIsBetween(pose, edges, source, w, target);
    BetweenCarries(pose, source, target, v);
  }

  lemma BetweenCarries(pose: Poses, a: string, b: string, v: Vec3)
    ensures Carry(pose(b), Carry(Between(pose, a, b), v)) == Carry(pose(a), v)
  {
    ComposeCarries(Inverse(pose(b)), pose(a), v);
    InverseCarriesBack(pose(b), Carry(pose(a), v));
    hide Carry, Compose, Inverse;
  }

  // ----- the path of an answer

  /** The step takes the point from `v` to `u`: an edge's transform carries from the child frame to the parent frame. */
  predicate StepCarries(step: Step, v: Vec3, u: Vec3) {
    var e := step.edge;
    match step.direction
    case ChildToParent =>
      step.fromFrame == e.key.childFrame && step.toFrame == e.key.parentFrame && Carry(e.parentFromChild, v) == u
    case ParentToChild =>
      step.fromFrame == e.key.parentFrame && step.toFrame == e.key.childFrame && Carry(e.parentFromChild, u) == v
  }

  /** Taken one after the other, each from the frame the one before reached, the steps carry `v` to `u`. */
  ghost predicate Leads(path: seq<Step>, fromFrame: string, v: Vec3, toFrame: string, u: Vec3)
    decreases |path|
  {
    if path == [] then fromFrame == toFrame && v == u
    else
      var n := |path| - 1;
      path[n].toFrame == toFrame
      && exists mid :: Leads(path[..n], fromFrame, v, path[n].fromFrame, mid) && StepCarries(path[n], mid, u)
  }

  lemma ArcCarries(edges: set<ResolvedEdge>, a: Arc, v: Vec3)
    requires IsArc(edges, a)
    ensures a.toFrame == a.step.toFrame && StepCarries(a.step, v, Carry(a.transformToFrom, v))
  {
    InverseCarriesBack(a.step.edge.parentFromChild, v);
    hide Carry, Inverse;
  }

  lemma {:induction false} WalkLeads(edges: set<ResolvedEdge>, source: string, w: seq<Arc>, target: string, v: Vec3)
    requires IsWalk(edges, source, w, target)
    ensures Leads(StepsOf(w), source, v, target, Carry(Along(w), v))
    decreases |w|
  {
    hide *;
    if w == [] {
      EmptyLeads(source, target, v, edges);
    } else {
      var n := |w| - 1;
      LastOfWalk(edges, source, w, target);
      WalkLeads(edges, source, w[..n], w[n].step.fromFrame, v);
      var mid := Carry(Along(w[..n]), v);
      ArcCarries(edges, w[n], mid);
      ComposeCarries(w[n].transformToFrom, Along(w[..n]), v);
      LeadsOn(StepsOf(w[..n]), w[n].step, source, v, mid, Carry(w[n].transformToFrom, mid));
    }
  }

  lemma EmptyLeads(source: string, target: string, v: Vec3, edges: set<ResolvedEdge>)
    requires IsWalk(edges, source, [], target)
    ensures Leads(StepsOf([]), source, v, target, Carry(Along([]), v))
  {
    IdentityCarries(v);
    hide Carry;
  }

  lemma LastOfWalk(edges: set<ResolvedEdge>, source: string, w: seq<Arc>, target: string)
    requires IsWalk(edges, source, w, target) && w != []
    ensures var n := |w| - 1;
      && IsArc(edges, w[n]) && w[n].toFrame == target && IsWalk(edges, source, w[..n], w[n].step.fromFrame)
      && StepsOf(w) == StepsOf(w[..n]) + [w[n].step] && Along(w) == Compose(w[n].transformToFrom, Along(w[..n]))
  {
    hide *;
    PrefixWalk(edges, source, w, target, |w| - 1);
    LastArc(edges, source, w, target);
    LastOfSteps(w);
    LastOfProduct(w);
  }

  lemma LastArc(edges: set<ResolvedEdge>, source: string, w: seq<Arc>, target: string)
    requires IsWalk(edges, source, w, target) && w != []
    ensures IsArc(edges, w[|w| - 1]) && w[|w| - 1].toFrame == target
  {
    hide IsArc;
  }

  lemma LastOfSteps(w: seq<Arc>)
    requires w != []
    ensures StepsOf(w) == StepsOf(w[..|w| - 1]) + [w[|w| - 1].step]
  {
  }

  lemma LastOfProduct(w: seq<Arc>)
    requires w != []
    ensures Along(w) == Compose(w[|w| - 1].transformToFrom, Along(w[..|w| - 1]))
  {
    hide Compose;
  }

  lemma LeadsOn(path: seq<Step>, step: Step, fromFrame: string, v: Vec3, mid: Vec3, u: Vec3)
    requires Leads(path, fromFrame, v, step.fromFrame, mid) && StepCarries(step, mid, u)
    ensures Leads(path + [step], fromFrame, v, step.toFrame, u)
  {
    hide StepCarries;
    var more := path + [step];
    assert more[..|more| - 1] == path && more[|more| - 1] == step;
  }

  /** The path of an answer explains it: its steps, over resolved edges and read in their stated directions, lead from
      the one frame to the other and carry every point to where the answered transform puts it. */
  lemma PathTells(retained: Retained, a: string, b: string, q: EdgeQuery, slerp: Slerp, x: TransformAnswer, v: Vec3)
    requires Resolves(retained, a, b, q, slerp, x) && x.Answer?
    ensures x.fromFrame == a && x.toFrame == b && x.atUs == q.atUs
    ensures forall step :: step in x.path ==> step.edge in ResolvedEdges(retained, q, slerp)
    ensures Leads(x.path, a, v, b, Carry(x.transform, v))
  {
    hide *;
    var w := WalkOfAnswer(retained, a, b, q, slerp, x);
    WalkLeads(ResolvedEdges(retained, q, slerp), a, w, b, v);
    StepsAreOver(ResolvedEdges(retained, q, slerp), a, w, b);
  }

  lemma WalkOfAnswer(retained: Retained, a: string, b: string, q: EdgeQuery, slerp: Slerp, x: TransformAnswer)
    returns (w: seq<Arc>)
    requires Resolves(retained, a, b, q, slerp, x) && x.Answer?
    ensures IsWalk(ResolvedEdges(retained, q, slerp), a, w, b) && x == Answer(a, b, q.atUs, Along(w), StepsOf(w))
  {
    hide ResolvedEdges, ConflictingEdges, NoRepeats, Along, StepsOf, IsWalk;
    w :| Shortest(ResolvedEdges(retained, q, slerp), a, w, b) && x == Answer(a, b, q.atUs, Along(w), StepsOf(w));
  }

  lemma StepsAreOver(edges: set<ResolvedEdge>, source: string, w: seq<Arc>, target: string)
    requires IsWalk(edges, source, w, target)
    ensures forall step :: step in StepsOf(w) ==> step.edge in edges
  {
  }
}
