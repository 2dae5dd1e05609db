/** What a compiled scene says of the request, point by point, object by object and box by box. */
module SceneMeaning {
  import opened Common
  import opened RigidTransforms
  import opened SceneTypes
  import opened Voxel
  import opened SceneCompiler
  import V = SceneValidator
  import Text

  // ----- balls

  function Dot(u: Vec3, v: Vec3): real {
    u.x * v.x + u.y * v.y + u.z * v.z
  }

  function From(a: Vec3, b: Vec3): Vec3 {
    Vec3(b.x - a.x, b.y - a.y, b.z - a.z)
  }

  /** The point at part `t` of the way from `a` to `b`. */
  function OnTheWay(a: Vec3, b: Vec3, t: real): Vec3 {
    Vec3(a.x + t * (b.x - a.x), a.y + t * (b.y - a.y), a.z + t * (b.z - a.z))
  }

  /** The two closed balls share a point. */
  ghost predicate Meet(a: Vec3, r: real, b: Vec3, s: real) {
    exists q :: IsCommon(q, a, r, b, s)
  }

  predicate IsCommon(q: Vec3, a: Vec3, r: real, b: Vec3, s: real) {
    Dist2(q, a) <= Squared(r) && Dist2(q, b) <= Squared(s)
  }

  // The square of the dot product is at most the product of the squared lengths.
  lemma CauchySchwarz(u: Vec3, v: Vec3)
    ensures Squared(Dot(u, v)) <= Dot(u, u) * Dot(v, v)
  {
    var a, b, c := u.x * v.y - u.y * v.x, u.y * v.z - u.z * v.y, u.z * v.x - u.x * v.z;
    SquaredIsNonNegative(a);
    SquaredIsNonNegative(b);
    SquaredIsNonNegative(c);
    Lagrange(u, v);
  }

  lemma Lagrange(u: Vec3, v: Vec3)
    ensures Dot(u, u) * Dot(v, v) - Squared(Dot(u, v)) ==
            Squared(u.x * v.y - u.y * v.x) + Squared(u.y * v.z - u.z * v.y) + Squared(u.z * v.x - u.x * v.z)
  {
  }

  lemma SquareOrder(x: real, y: real)
    requires y >= 0.0 && Squared(x) <= Squared(y)
    ensures -y <= x <= y
  {
    assert Squared(-x) == Squared(x);
    if x > y {
      LessSquares(y, x);
    } else if x < -y {
      LessSquares(y, -x);
    }
  }

  lemma LessSquares(a: real, b: real)
    requires 0.0 <= a < b
    ensures Squared(a) < Squared(b)
  {
    hide *;
    SquareIsPositive(b - a);
    ProductIsNonNegative(a, b - a);
    GrownSquare(a, b - a, b);
  }

  lemma SquareIsPositive(d: real)
    requires d > 0.0
    ensures Squared(d) > 0.0
  {
    hide *;
    BothPositive(d, d);
    SquareIsProduct(d);
  }

  lemma BothPositive(a: real, b: real)
    requires a > 0.0 && b > 0.0
    ensures Product(a, b) > 0.0
  {
  }

  lemma SquareIsProduct(d: real)
    ensures Squared(d) == Product(d, d)
  {
  }

  lemma ProductIsNonNegative(a: real, d: real)
    requires a >= 0.0 && d >= 0.0
    ensures Product(a, d) >= 0.0
  {
  }

  lemma GrownSquare(a: real, d: real, b: real)
    requires b == a + d
    ensures Squared(b) == Squared(a) + 2.0 * Product(a, d) + Squared(d)
  {
  }

  lemma ProductOrder(a: real, b: real, c: real, d: real)
    requires 0.0 <= a <= c && 0.0 <= b <= d
    ensures a * b <= c * d
  {
    assert a * b <= c * b && c * b <= c * d;
  }

  lemma DotBounded(u: Vec3, v: Vec3, r: real, s: real)
    requires r >= 0.0 && s >= 0.0 && Dot(u, u) <= Squared(r) && Dot(v, v) <= Squared(s)
    ensures -(r * s) <= Dot(u, v) <= r * s
  {
    CauchySchwarz(u, v);
    OwnDot(u);
    OwnDot(v);
    hide Dot;
    ProductOrder(Dot(u, u), Dot(v, v), Squared(r), Squared(s));
    assert Squared(r) * Squared(s) == Squared(r * s);
    SquareOrder(Dot(u, v), r * s);
  }

  lemma OwnDot(u: Vec3)
    ensures Dot(u, u) >= 0.0
  {
    SquaredIsNonNegative(u.x);
    SquaredIsNonNegative(u.y);
    SquaredIsNonNegative(u.z);
  }

  lemma DistanceByDots(q: Vec3, a: Vec3, b: Vec3)
    ensures Dist2(q, a) == Dot(From(q, a), From(q, a)) && Dist2(q, b) == Dot(From(q, b), From(q, b))
    ensures Dist2(a, b) == Dist2(q, a) + Dist2(q, b) - 2.0 * Dot(From(q, a), From(q, b))
  {
  }

  lemma CommonIsNear(q: Vec3, a: Vec3, r: real, b: Vec3, s: real)
    requires r >= 0.0 && s >= 0.0 && IsCommon(q, a, r, b, s)
    ensures Dist2(a, b) <= Squared(r + s)
  {
    DistanceByDots(q, a, b);
    DotBounded(From(q, a), From(q, b), r, s);
    hide Dist2, Dot, From;
    assert Squared(r + s) == Squared(r) + Squared(s) + 2.0 * (r * s);
  }

  lemma OnTheWayDistances(a: Vec3, b: Vec3, t: real)
    ensures Dist2(OnTheWay(a, b, t), a) == Squared(t) * Dist2(a, b)
    ensures Dist2(OnTheWay(a, b, t), b) == Squared(1.0 - t) * Dist2(a, b)
  {
    hide Squared;
    var q := OnTheWay(a, b, t);
    PartOf(t, a.x, b.x, q.x);
    PartOf(t, a.y, b.y, q.y);
    PartOf(t, a.z, b.z, q.z);
    var x, y, z := Squared(a.x - b.x), Squared(a.y - b.y), Squared(a.z - b.z);
    Distributes(Squared(t), x, y, z);
    Distributes(Squared(1.0 - t), x, y, z);
  }

  lemma PartOf(t: real, a: real, b: real, q: real)
    requires q == a + t * (b - a)
    ensures Squared(q - a) == Squared(t) * Squared(a - b) && Squared(q - b) == Squared(1.0 - t) * Squared(a - b)
  {
    var d := b - a;
    assert (t * d) * (t * d) == (t * t) * (d * d);
    assert q - a == t * d && q - b == (t - 1.0) * d;
    assert ((t - 1.0) * d) * ((t - 1.0) * d) == ((t - 1.0) * (t - 1.0)) * (d * d);
  }

  lemma Distributes(k: real, x: real, y: real, z: real)
    ensures k * (x + y + z) == k * x + k * y + k * z
  {
  }

  lemma NearHasCommon(a: Vec3, r: real, b: Vec3, s: real)
    requires r >= 0.0 && s >= 0.0 && Dist2(a, b) <= Squared(r + s)
    ensures Meet(a, r, b, s)
  {
    hide Dist2, Squared, OnTheWay;
    if r + s == 0.0 {
      NoRadius(a, b, r, s);
    } else {
      var t := Part(r, s);
      OnTheWayDistances(a, b, t);
      Shrinks(t, Dist2(a, b), r + s, r);
      Shrinks(1.0 - t, Dist2(a, b), r + s, s);
      assert IsCommon(OnTheWay(a, b, t), a, r, b, s);
    }
  }

  lemma Part(r: real, s: real) returns (t: real)
    requires r >= 0.0 && s >= 0.0 && r + s > 0.0
    ensures t * (r + s) == r && (1.0 - t) * (r + s) == s
  {
    t := r / (r + s);
  }

  lemma NoRadius(a: Vec3, b: Vec3, r: real, s: real)
    requires r == s == 0.0 && Dist2(a, b) <= Squared(r + s)
    ensures Meet(a, r, b, s)
  {
    assert IsCommon(a, a, r, b, s);
  }

  lemma Shrinks(t: real, d: real, whole: real, part: real)
    requires t * whole == part && d <= Squared(whole)
    ensures Squared(t) * d <= Squared(part)
  {
    SquaredIsNonNegative(t);
    assert Squared(t) * d <= Squared(t) * Squared(whole);
    assert Squared(t) * Squared(whole) == Squared(t * whole);
  }

  /** Two balls share a point exactly when their centres are no further apart than their radii together. */
  lemma MeetIff(a: Vec3, r: real, b: Vec3, s: real)
    requires r >= 0.0 && s >= 0.0
    ensures Meet(a, r, b, s) <==> Dist2(a, b) <= Squared(r + s)
  {
    hide Dist2, IsCommon;
    if q :| IsCommon(q, a, r, b, s) {
      CommonIsNear(q, a, r, b, s);
    }
    if Dist2(a, b) <= Squared(r + s) {
      NearHasCommon(a, r, b, s);
    }
  }

  // ----- points

  /** The radius a point is published with: the smallest of the layer it falls in. */
  function PublishedRadius(p: Vec3, gripperCenter: Vec3): real {
    if Dist2(p, gripperCenter) <= Squared(0.5) then 0.02 else 0.06
  }

  /** The point, with the radius it is published with, shares nothing with the robot: with none of the spheres that
      cover it, grown by the margin. */
  ghost predicate KeepsClear(p: Vec3, robot: seq<SelfSphere>, margin: real, gripperCenter: Vec3) {
    forall s :: s in robot ==> !Meet(p, PublishedRadius(p, gripperCenter), s.center, s.radius + margin)
  }

  /** No margin takes more off a sphere than its radius. */
  predicate IsGrown(robot: seq<SelfSphere>, margin: real) {
    forall s :: s in robot ==> s.radius + margin >= 0.0
  }

  lemma ClearOfOne(p: Vec3, s: SelfSphere, margin: real, gripperCenter: Vec3)
    requires s.radius + margin >= 0.0
    ensures IsClearOf(p, s, margin, gripperCenter) <==>
            !Meet(p, PublishedRadius(p, gripperCenter), s.center, s.radius + margin)
  {
    MeetIff(p, PublishedRadius(p, gripperCenter), s.center, s.radius + margin);
    hide Dist2, Squared, Meet;
    assert s.radius + margin + OutputRadius(p, gripperCenter) ==
      PublishedRadius(p, gripperCenter) + (s.radius + margin);
  }

  /** The self filter keeps a point exactly when, published, it keeps clear of the robot. */
  lemma ClearIff(p: Vec3, robot: seq<SelfSphere>, margin: real, gripperCenter: Vec3)
    requires IsGrown(robot, margin)
    ensures IsClear(p, robot, margin, gripperCenter) <==> KeepsClear(p, robot, margin, gripperCenter)
  {
    hide IsClearOf, Meet, PublishedRadius;
    forall s | s in robot
      ensures IsClearOf(p, s, margin, gripperCenter) <==>
              !Meet(p, PublishedRadius(p, gripperCenter), s.center, s.radius + margin)
    {
      ClearOfOne(p, s, margin, gripperCenter);
    }
  }

  lemma {:induction false} ClearPointsAre(points: seq<Vec3>, robot: seq<SelfSphere>, margin: real, gripperCenter: Vec3,
                                          p: Vec3)
    requires IsGrown(robot, margin)
    ensures multiset(ClearPoints(points, robot, margin, gripperCenter))[p] ==
            if KeepsClear(p, robot, margin, gripperCenter) then multiset(points)[p] else 0
  {
    hide KeepsClear, IsClear, IsGrown;
    if points != [] {
      var n := |points| - 1;
      ClearPointsAre(points[..n], robot, margin, gripperCenter, p);
      ClearIff(points[n], robot, margin, gripperCenter);
      assert points == points[..n] + [points[n]];
    }
  }

  lemma {:induction false} InBaseAre(points: seq<Vec3>, p: Vec3)
    ensures multiset(InBase(points))[p] == if Dist2(p, ZERO) <= Squared(1.2) then multiset(points)[p] else 0
  {
    hide Dist2, Squared;
    if points != [] {
      var n := |points| - 1;
      InBaseAre(points[..n], p);
      assert points == points[..n] + [points[n]];
    }
  }

  /** The self filter keeps, as often as they were seen, exactly the points that keep clear of the robot. */
  lemma KeptPointsAre(r: SceneRequest, p: Vec3)
    requires IsGrown(r.selfSpheres, r.margin)
    ensures multiset(ClearPoints(InBase(r.points), r.selfSpheres, r.margin, r.gripperCenter))[p] ==
            if Dist2(p, ZERO) <= Squared(1.2) && KeepsClear(p, r.selfSpheres, r.margin, r.gripperCenter)
            then multiset(r.points)[p] else 0
  {
    hide Dist2, Squared, KeepsClear, ClearPoints, InBase, IsGrown;
    ClearPointsAre(InBase(r.points), r.selfSpheres, r.margin, r.gripperCenter, p);
    InBaseAre(r.points, p);
  }

  /** Some object's sphere bounds even the joint norm of all points kept: the one case in which any are removed. */
  ghost predicate AllInside(r: SceneRequest, objects: seq<SemanticObject>) {
    var kept := ClearPoints(InBase(r.points), r.selfSpheres, r.margin, r.gripperCenter);
    exists o :: o in objects && Total2(kept, o.sphere.center) <= o.sphere.radius2
  }

  /** The points a scene is made of. */
  lemma RemainingPointsAre(r: SceneRequest, objects: seq<SemanticObject>, p: Vec3)
    requires IsGrown(r.selfSpheres, r.margin)
    ensures multiset(RemainingPoints(r, objects))[p] ==
            if Dist2(p, ZERO) <= Squared(1.2) && KeepsClear(p, r.selfSpheres, r.margin, r.gripperCenter)
               && !AllInside(r, objects)
            then multiset(r.points)[p] else 0
  {
    hide Dist2, Squared, KeepsClear, ClearPoints, InBase, IsGrown, Total2;
    KeptPointsAre(r, p);
  }

  // ----- the voxel layers

  /** The sphere covers the point in the layer the point falls in. */
  predicate CoversPoint(s: Sphere, p: Vec3, gripperCenter: Vec3) {
    && Dist2(p, s.center) <= s.radius2
    && s.scope == if Dist2(p, gripperCenter) <= Squared(0.5) then Gripper else ArmBase
  }

  lemma LayerCovers(spheres: seq<Sphere>, points: seq<Vec3>, center: Vec3, scope: Scope, budget: int, largest: Length,
                    p: Vec3)
    requires IsVoxelLayer(spheres, points, center, scope, budget, largest) && p in points
    ensures exists s :: s in spheres && Dist2(p, s.center) <= s.radius2 && s.scope == scope
  {
    hide HasFirstFit, AreCellSpheres, UniqueCells, Dist2, CellOf, MinimumRadius;
    var edge :| IsVoxelLayerAt(spheres, points, center, scope, budget, largest, edge);
    EveryPointIsCovered(spheres, points, center, edge, scope, MinimumRadius(scope), Pushable, p);
    var i :| 0 <= i < |spheres| && Dist2(p, spheres[i].center) <= spheres[i].radius2;
    CellSpheresHaveScope(spheres, points, center, edge, scope, i);
    assert spheres[i] in spheres;
  }

  lemma CellSpheresHaveScope(spheres: seq<Sphere>, points: seq<Vec3>, center: Vec3, edge: Edge, scope: Scope, i: nat)
    requires AreCellSpheres(spheres, UniqueCells(points, center, edge), points, center, edge, scope,
                            MinimumRadius(scope), Pushable)
    requires i < |spheres|
    ensures spheres[i].scope == scope
  {
    hide UniqueCells, PointsIn, LargestDist2, Mean, CellText;
  }

  /** No obstacle is lost: when unclaimed geometry is published, every point of the request within reach that keeps
      clear of the robot is covered by a sphere of the scene, in its own layer, unless an object bounds them all. */
  lemma NoPointIsLost(b: Built, r: SceneRequest, p: Vec3)
    requires IsBuiltFor(b, r) && r.publishUnclaimed && IsGrown(r.selfSpheres, r.margin)
    requires p in r.points && Dist2(p, ZERO) <= Squared(1.2) && !AllInside(r, b.objects)
    requires KeepsClear(p, r.selfSpheres, r.margin, r.gripperCenter)
    ensures exists s :: s in b.gripperSpheres + b.baseSpheres && CoversPoint(s, p, r.gripperCenter)
  {
    hide *;
    Remains(r, b.objects, p);
    BuiltHasLayers(b, r);
    var points, available := RemainingPoints(r, b.objects), r.maximumSpheres - |b.objects|;
    FallsIn(points, r.gripperCenter, p);
    if Dist2(p, r.gripperCenter) <= Squared(0.5) {
      LayerCovers(b.gripperSpheres, NearPoints(points, r.gripperCenter, true), r.gripperCenter, Gripper,
                  GripperBudget(available), r.largestFloat, p);
      var s :| s in b.gripperSpheres && Dist2(p, s.center) <= s.radius2 && s.scope == Gripper;
      CoversInLayer(s, p, r.gripperCenter);
      assert s in b.gripperSpheres + b.baseSpheres;
    } else {
      LayerCovers(b.baseSpheres, NearPoints(points, r.gripperCenter, false), ZERO, ArmBase,
                  available - |b.gripperSpheres|, r.largestFloat, p);
      var s :| s in b.baseSpheres && Dist2(p, s.center) <= s.radius2 && s.scope == ArmBase;
      CoversInLayer(s, p, r.gripperCenter);
      assert s in b.gripperSpheres + b.baseSpheres;
    }
  }

  lemma Remains(r: SceneRequest, objects: seq<SemanticObject>, p: Vec3)
    requires IsGrown(r.selfSpheres, r.margin) && p in r.points && Dist2(p, ZERO) <= Squared(1.2)
    requires KeepsClear(p, r.selfSpheres, r.margin, r.gripperCenter) && !AllInside(r, objects)
    ensures p in RemainingPoints(r, objects)
  {
    hide *;
    RemainingPointsAre(r, objects, p);
    assert multiset(RemainingPoints(r, objects))[p] > 0;
  }

  lemma CoversInLayer(s: Sphere, p: Vec3, gripperCenter: Vec3)
    requires Dist2(p, s.center) <= s.radius2
    requires s.scope == if Dist2(p, gripperCenter) <= Squared(0.5) then Gripper else ArmBase
    ensures CoversPoint(s, p, gripperCenter)
  {
    hide Dist2, Squared;
  }

  lemma FallsIn(points: seq<Vec3>, gripperCenter: Vec3, p: Vec3)
    requires p in points
    ensures p in NearPoints(points, gripperCenter, Dist2(p, gripperCenter) <= Squared(0.5))
  {
    hide Dist2, Squared, NearPoints;
  }

  lemma BuiltHasLayers(b: Built, r: SceneRequest)
    requires IsBuiltFor(b, r) && r.publishUnclaimed
    ensures |b.objects| <= r.maximumSpheres
    ensures var points, available := RemainingPoints(r, b.objects), r.maximumSpheres - |b.objects|;
      && IsVoxelLayer(b.gripperSpheres, NearPoints(points, r.gripperCenter, true), r.gripperCenter, Gripper,
                      GripperBudget(available), r.largestFloat)
      && IsVoxelLayer(b.baseSpheres, NearPoints(points, r.gripperCenter, false), ZERO, ArmBase,
                      available - |b.gripperSpheres|, r.largestFloat)
  {
    hide IsVoxelLayer, NearPoints, RemainingPoints, GripperBudget, LacksSelfFilter, HasBadSelfSphere, NormalizeAll,
         Retained, HasDistinctIds, CollectAabbs, Revision;
  }

  /** A point the scene has to show. */
  ghost predicate IsVisible(p: Vec3, r: SceneRequest) {
    p in r.points && Dist2(p, ZERO) <= Squared(1.2) && KeepsClear(p, r.selfSpheres, r.margin, r.gripperCenter)
  }

  /** The sphere holds a point of these and is of the smallest radius, or touches one. */
  ghost predicate IsMadeOf(s: Sphere, points: seq<Vec3>, minimum: real) {
    && (exists p :: p in points && Dist2(p, s.center) <= s.radius2)
    && (s.radius2 == minimum * minimum || exists p :: p in points && Dist2(p, s.center) == s.radius2)
  }

  lemma CellIsMadeOf(points: seq<Vec3>, center: Vec3, edge: Edge, c: Cell, scope: Scope)
    requires PointsIn(points, center, edge, c) != []
    ensures IsMadeOf(SphereOf(points, center, edge, c, scope, MinimumRadius(scope), Pushable), points,
                     MinimumRadius(scope))
  {
    hide Dist2, CellOf, Mean, CellText, PointsIn, LargestDist2, MinimumRadius;
    var own := PointsIn(points, center, edge, c);
    PointsInAre(points, center, edge, c);
    LargestDist2Is(own, Mean(own));
    assert own[0] in own && own[0] in points;
    SquaredIs(MinimumRadius(scope));
    SquaredIsNonNegative(MinimumRadius(scope));
    hide Squared;
  }

  lemma LayerIsMadeOf(spheres: seq<Sphere>, points: seq<Vec3>, center: Vec3, scope: Scope, budget: int, largest: Length,
                      s: Sphere)
    requires IsVoxelLayer(spheres, points, center, scope, budget, largest) && s in spheres
    ensures IsMadeOf(s, points, MinimumRadius(scope))
  {
    hide HasFirstFit, UniqueCells, IsMadeOf, MinimumRadius, SphereOf, PointsIn;
    var edge :| IsVoxelLayerAt(spheres, points, center, scope, budget, largest, edge);
    var i :| 0 <= i < |spheres| && spheres[i] == s;
    CellIsMadeOf(points, center, edge, UniqueCells(points, center, edge)[i], scope);
  }

  lemma MadeOfMore(s: Sphere, points: seq<Vec3>, r: SceneRequest, objects: seq<SemanticObject>, minimum: real)
    requires IsMadeOf(s, points, minimum) && IsGrown(r.selfSpheres, r.margin)
    requires forall p :: p in points ==> p in RemainingPoints(r, objects)
    ensures exists p :: IsVisible(p, r) && Dist2(p, s.center) <= s.radius2
    ensures s.radius2 == minimum * minimum || exists p :: IsVisible(p, r) && Dist2(p, s.center) == s.radius2
  {
    hide RemainingPoints, Dist2, KeepsClear, Squared, IsGrown;
    forall p | p in points
      ensures IsVisible(p, r)
    {
      RemainingPointsAre(r, objects, p);
      assert multiset(RemainingPoints(r, objects))[p] > 0;
    }
  }

  /** Nor is any invented: every voxel sphere of a scene holds a point the scene has to show, and is of its layer's
      smallest radius or touches such a point. */
  lemma EverySphereHoldsAPoint(b: Built, r: SceneRequest, s: Sphere)
    requires IsBuiltFor(b, r) && r.publishUnclaimed && IsGrown(r.selfSpheres, r.margin)
    requires s in b.gripperSpheres || s in b.baseSpheres
    ensures exists p :: IsVisible(p, r) && Dist2(p, s.center) <= s.radius2
    ensures var minimum := if s in b.gripperSpheres then 0.02 else 0.06;
      s.radius2 == minimum * minimum || exists p :: IsVisible(p, r) && Dist2(p, s.center) == s.radius2
  {
    hide *;
    BuiltHasLayers(b, r);
    SmallestRadii();
    var points, available := RemainingPoints(r, b.objects), r.maximumSpheres - |b.objects|;
    if s in b.gripperSpheres {
      LayerIsMadeOf(b.gripperSpheres, NearPoints(points, r.gripperCenter, true), r.gripperCenter, Gripper,
                    GripperBudget(available), r.largestFloat, s);
      MadeOfMore(s, NearPoints(points, r.gripperCenter, true), r, b.objects, MinimumRadius(Gripper));
    } else {
      LayerIsMadeOf(b.baseSpheres, NearPoints(points, r.gripperCenter, false), ZERO, ArmBase,
                    available - |b.gripperSpheres|, r.largestFloat, s);
      MadeOfMore(s, NearPoints(points, r.gripperCenter, false), r, b.objects, MinimumRadius(ArmBase));
    }
  }

  lemma SmallestRadii()
    ensures MinimumRadius(Gripper) == 0.02 && MinimumRadius(ArmBase) == 0.06
  {
  }

  // ----- the semantic objects

  /** The types a caller may ask for, and what they mean. */
  predicate MeansKind(requested: string, kind: Kind) {
    match kind
    case KeepOut => requested == "OBS" || requested == "OBSTACLE" || requested == "KEEP_OUT"
    case Pushable => requested == "PUSHABLE" || requested == ""
    case WorkObject => requested == "WORKPIECE" || requested == "WORK_PIECE" || requested == "WORK_OBJECT"
  }

  /** The region asked for, or, if none is, the gripper's within half a metre of it and else the arm's. */
  predicate FallsInScope(v: ObjectInput, scope: Scope, gripperCenter: Vec3) {
    if v.requestedScope != ""
    then v.requestedScope == match scope
                             case Gripper => "GRIPPER_0P5M"
                             case ArmBase => "ARM_BASE_1P2M"
                             case HandAngular => "HAND_ANGULAR_4PI"
    else if Dist2(v.center, gripperCenter) <= Squared(0.5) then scope == Gripper
    else scope == ArmBase
  }

  /** The region's radius and its smallest sphere. */
  function RegionOf(scope: Scope): (real, real) {
    match scope
    case Gripper => (0.5, 0.02)
    case ArmBase => (1.2, 0.06)
    case HandAngular => (1.5, 0.005)
  }

  /** The object is the one supplied: of its kind, where it is, in its region, no smaller than asked for and than the
      region allows, and no larger than that. */
  predicate IsObjectOf(o: SemanticObject, v: ObjectInput, gripperCenter: Vec3, angularOrigin: Vec3) {
    var s, (radius, minimum) := o.sphere, RegionOf(o.sphere.scope);
    var regionCenter := match s.scope
                        case Gripper => gripperCenter
                        case ArmBase => ZERO
                        case HandAngular => angularOrigin;
    && s.objectId == Text.Strip(v.objectId) != "" && s.center == v.center && o.source == v.source
    && MeansKind(v.requestedType, s.kind) && FallsInScope(v, s.scope, gripperCenter)
    && o.description == Text.Strip(v.description) && (s.kind == KeepOut ==> o.description != "")
    && Dist2(v.center, regionCenter) <= Squared(radius)
    && v.radius > 0.0 && o.radius >= v.radius && o.radius >= minimum && (o.radius == v.radius || o.radius == minimum)
    && s.radius2 == o.radius * o.radius
    && s.sphereId == if v.sphereId == "" then "object:" + s.objectId else v.sphereId
  }

  lemma KindIff(requested: string, kind: Kind)
    ensures KindOf(requested) == Some(kind) <==> MeansKind(requested, kind)
  {
  }

  lemma ScopeIff(v: ObjectInput, scope: Scope, gripperCenter: Vec3)
    requires scope == ArmBase ==> Dist2(v.center, ZERO) <= Squared(1.2)
    ensures ChooseScope(v, gripperCenter) == Ok(scope) <==> FallsInScope(v, scope, gripperCenter)
  {
    hide Dist2, Squared;
  }

  lemma RegionsAre(scope: Scope)
    ensures RegionOf(scope) == (RoiRadius(scope), MinimumRadius(scope))
  {
  }

  // What is taken in, in the source's own terms.
  lemma NormalizedShape(v: ObjectInput, gripperCenter: Vec3, angularOrigin: Vec3, o: SemanticObject)
    ensures NormalizeObject(v, gripperCenter, angularOrigin) == Ok(o) <==>
      && Text.Strip(v.objectId) != "" && KindOf(v.requestedType) == Some(o.sphere.kind)
      && (o.sphere.kind == KeepOut ==> Text.Strip(v.description) != "")
      && ChooseScope(v, gripperCenter) == Ok(o.sphere.scope) && v.radius > 0.0
      && Dist2(v.center, RoiCenter(o.sphere.scope, gripperCenter, angularOrigin)) <= Squared(RoiRadius(o.sphere.scope))
      && o == SemanticObject(Sphere(SphereIdOf(v), Text.Strip(v.objectId), v.center, Squared(o.radius), o.sphere.kind,
                                    o.sphere.scope),
                             Max(v.radius, MinimumRadius(o.sphere.scope)), Text.Strip(v.description), v.source)
  {
    hide Text.Strip, Dist2, Squared, KindOf, ChooseScope, RoiCenter, RoiRadius, MinimumRadius, SphereIdOf, Max;
  }

  /** An object is taken in exactly when it can be, and then it is the one supplied. */
  lemma NormalizedIff(v: ObjectInput, gripperCenter: Vec3, angularOrigin: Vec3, o: SemanticObject)
    ensures NormalizeObject(v, gripperCenter, angularOrigin) == Ok(o) <==>
      IsObjectOf(o, v, gripperCenter, angularOrigin)
  {
    hide Text.Strip, Dist2, KindOf, ChooseScope, RoiRadius, MinimumRadius, RegionOf, MeansKind, FallsInScope, Squared;
    NormalizedShape(v, gripperCenter, angularOrigin, o);
    hide NormalizeObject;
    KindIff(v.requestedType, o.sphere.kind);
    RegionsAre(o.sphere.scope);
    SquaredIs(o.radius);
    if Dist2(v.center, RoiCenter(o.sphere.scope, gripperCenter, angularOrigin)) <= Squared(RoiRadius(o.sphere.scope)) {
      BaseRadius();
      ScopeIff(v, o.sphere.scope, gripperCenter);
    }
  }

  lemma SquaredIs(a: real)
    ensures Squared(a) == a * a
  {
  }

  lemma BaseRadius()
    ensures RoiRadius(ArmBase) == 1.2
  {
  }

  /** A tracked part of the robot itself. */
  ghost predicate IsRobot(o: SemanticObject, robot: seq<SelfSphere>, margin: real) {
    && (exists rest :: o.source == "SAM2_TRACKED" + rest)
    && exists s :: s in robot && Meet(o.sphere.center, o.radius, s.center, s.radius + margin)
  }

  lemma OverlapIff(o: SemanticObject, robot: seq<SelfSphere>, margin: real)
    requires o.radius > 0.0 && IsGrown(robot, margin)
    ensures OverlapsSelf(o, robot, margin) <==> IsRobot(o, robot, margin)
  {
    hide Meet, Dist2, Squared;
    forall s | s in robot
      ensures !IsBeyond(o.sphere.center, s.center, o.radius + s.radius + margin) <==>
              Meet(o.sphere.center, o.radius, s.center, s.radius + margin)
    {
      MeetIff(o.sphere.center, o.radius, s.center, s.radius + margin);
      assert o.radius + (s.radius + margin) == o.radius + s.radius + margin;
    }
    if "SAM2_TRACKED" <= o.source {
      assert o.source == "SAM2_TRACKED" + o.source[|"SAM2_TRACKED"|..];
    }
    if rest :| o.source == "SAM2_TRACKED" + rest {
      assert "SAM2_TRACKED" <= o.source;
    }
    hide IsBeyond;
  }

  lemma {:induction false} AllNormalizedAre(values: seq<ObjectInput>, gripperCenter: Vec3, angularOrigin: Vec3)
    requires NormalizeAll(values, gripperCenter, angularOrigin).Ok?
    ensures var all := NormalizeAll(values, gripperCenter, angularOrigin).value;
      && |all| == |values|
      && forall i :: 0 <= i < |all| ==> IsObjectOf(all[i], values[i], gripperCenter, angularOrigin)
  {
    hide IsObjectOf, NormalizeObject;
    if values != [] {
      var n := |values| - 1;
      AllNormalizedAre(values[..n], gripperCenter, angularOrigin);
      NormalizedIff(values[n], gripperCenter, angularOrigin,
                    NormalizeObject(values[n], gripperCenter, angularOrigin).value);
    }
  }

  lemma {:induction false} RetainedAre(objects: seq<SemanticObject>, robot: seq<SelfSphere>, margin: real,
                                       o: SemanticObject)
    requires IsGrown(robot, margin) && forall x :: x in objects ==> x.radius > 0.0
    ensures o in Retained(objects, robot, margin) <==> o in objects && !IsRobot(o, robot, margin)
  {
    hide IsRobot, OverlapsSelf, IsGrown;
    if objects != [] {
      var n := |objects| - 1;
      assert objects == objects[..n] + [objects[n]];
      RetainedAre(objects[..n], robot, margin, o);
      OverlapIff(objects[n], robot, margin);
    }
  }

  lemma ObjectHasRadius(o: SemanticObject, v: ObjectInput, gripperCenter: Vec3, angularOrigin: Vec3)
    requires IsObjectOf(o, v, gripperCenter, angularOrigin)
    ensures o.radius > 0.0
  {
    hide Dist2, Squared, Text.Strip, MeansKind, FallsInScope, RegionOf;
  }

  // What is taken in of all values.
  lemma TakenInAre(values: seq<ObjectInput>, gripperCenter: Vec3, angularOrigin: Vec3, o: SemanticObject)
    requires NormalizeAll(values, gripperCenter, angularOrigin).Ok?
    ensures o in NormalizeAll(values, gripperCenter, angularOrigin).value <==>
      exists v :: v in values && IsObjectOf(o, v, gripperCenter, angularOrigin)
  {
    hide *;
    var all := NormalizeAll(values, gripperCenter, angularOrigin).value;
    AllNormalizedAre(values, gripperCenter, angularOrigin);
    if o in all {
      var i :| 0 <= i < |all| && all[i] == o;
      assert values[i] in values;
    }
    if v :| v in values && IsObjectOf(o, v, gripperCenter, angularOrigin) {
      var i :| 0 <= i < |values| && values[i] == v;
      NormalizedIff(v, gripperCenter, angularOrigin, o);
      NormalizedIff(v, gripperCenter, angularOrigin, all[i]);
      assert all[i] in all;
    }
  }

  lemma TakenInHaveRadius(values: seq<ObjectInput>, gripperCenter: Vec3, angularOrigin: Vec3)
    requires NormalizeAll(values, gripperCenter, angularOrigin).Ok?
    ensures forall x :: x in NormalizeAll(values, gripperCenter, angularOrigin).value ==> x.radius > 0.0
  {
    hide *;
    forall x | x in NormalizeAll(values, gripperCenter, angularOrigin).value
      ensures x.radius > 0.0
    {
      TakenInAre(values, gripperCenter, angularOrigin, x);
      var v :| v in values && IsObjectOf(x, v, gripperCenter, angularOrigin);
      ObjectHasRadius(x, v, gripperCenter, angularOrigin);
    }
  }

  /** The objects of a scene are those supplied, except what is tracked as the robot itself. */
  lemma SceneObjectsAre(b: Built, r: SceneRequest, o: SemanticObject)
    requires IsBuiltFor(b, r) && IsGrown(r.selfSpheres, r.margin)
    ensures o in b.objects <==>
      && !IsRobot(o, r.selfSpheres, r.margin)
      && exists v :: v in r.objects && IsObjectOf(o, v, r.gripperCenter, AngularOrigin(r))
  {
    hide *;
    BuiltHasObjects(b, r);
    var origin := AngularOrigin(r);
    TakenInAre(r.objects, r.gripperCenter, origin, o);
    TakenInHaveRadius(r.objects, r.gripperCenter, origin);
    RetainedAre(NormalizeAll(r.objects, r.gripperCenter, origin).value, r.selfSpheres, r.margin, o);
  }

  lemma BuiltHasObjects(b: Built, r: SceneRequest)
    requires IsBuiltFor(b, r)
    ensures NormalizeAll(r.objects, r.gripperCenter, AngularOrigin(r)).Ok?
    ensures b.objects ==
            Retained(NormalizeAll(r.objects, r.gripperCenter, AngularOrigin(r)).value, r.selfSpheres, r.margin)
    ensures CollectAabbs(r.aabbs) == Ok(b.aabbs)
    ensures !LacksSelfFilter(r) && !HasBadSelfSphere(r) && HasDistinctIds(b.objects) && |b.objects| <= r.maximumSpheres
  {
    hide HasLayers, RemainingPoints, LacksSelfFilter, HasBadSelfSphere, NormalizeAll, Retained, HasDistinctIds,
         CollectAabbs, Revision;
  }

  // ----- the boxes

  /** A box that can be published as it was seen. */
  predicate IsSeenBox(v: AabbInput) {
    && v.extentKind == "VISIBLE_SURFACE_AABB" && Text.Strip(v.objectId) != "" && v.frameId == "rebot_arm_base"
    && v.minimum.x <= v.maximum.x && v.minimum.y <= v.maximum.y && v.minimum.z <= v.maximum.z
    && v.observedAtUs > 0 && v.freshnessMs > 0 && v.expiresAtUs - v.observedAtUs == 1000 * v.freshnessMs
  }

  /** The box on the wire is the one supplied. */
  predicate IsBoxOf(box: V.Aabb, v: AabbInput) {
    && box.objectId == Text.Strip(v.objectId) && box.minimum == v.minimum && box.maximum == v.maximum
    && box.description == v.description && box.observedAtUs == v.observedAtUs && box.freshnessMs == v.freshnessMs
    && box.expiresAtUs == v.expiresAtUs
  }

  /** Both are boxes of one work object. */
  predicate SameObject(v: AabbInput, w: AabbInput) {
    v.kind == w.kind == "WORK_OBJECT" && Text.Strip(v.objectId) == Text.Strip(w.objectId)
  }

  /** Of the first `n` boxes, number `i` is the newest of its work object, and the first of the newest. */
  predicate IsNewest(values: seq<AabbInput>, i: nat, n: nat)
    requires i < n <= |values|
  {
    && values[i].kind == "WORK_OBJECT"
    && forall j :: 0 <= j < n && SameObject(values[j], values[i]) ==>
         if i <= j then values[j].observedAtUs <= values[i].observedAtUs
         else values[j].observedAtUs < values[i].observedAtUs
  }

  /** The boxes published for the first `n` supplied: one per work object, the newest. */
  ghost predicate ArePublished(boxes: seq<V.Aabb>, values: seq<AabbInput>, n: nat)
    requires n <= |values|
  {
    && (forall k, l :: 0 <= k < l < |boxes| ==> boxes[k].objectId != boxes[l].objectId)
    && (forall k :: 0 <= k < |boxes| ==> IsPublished(boxes[k], values, n))
    && (forall i :: 0 <= i < n && values[i].kind == "WORK_OBJECT" ==>
          IsSeenBox(values[i]) && HasBox(boxes, Text.Strip(values[i].objectId)))
  }

  ghost predicate IsPublished(box: V.Aabb, values: seq<AabbInput>, n: nat)
    requires n <= |values|
  {
    exists i :: 0 <= i < n && IsNewest(values, i, n) && box == NormalizedAabb(values[i])
  }

  ghost predicate HasBox(boxes: seq<V.Aabb>, objectId: string) {
    exists k :: 0 <= k < |boxes| && boxes[k].objectId == objectId
  }

  lemma ProperIsSeen(v: AabbInput)
    requires v.kind == "WORK_OBJECT"
    ensures IsProperAabb(v) <==> IsSeenBox(v)
  {
    hide Text.Strip;
  }

  lemma NewestOfMore(values: seq<AabbInput>, i: nat, n: nat)
    requires i < n < |values|
    ensures IsNewest(values, i, n + 1) <==>
      && IsNewest(values, i, n)
      && (SameObject(values[n], values[i]) ==> values[n].observedAtUs <= values[i].observedAtUs)
  {
    hide SameObject;
  }

  lemma LastIsNewest(values: seq<AabbInput>, n: nat)
    requires n < |values| && values[n].kind == "WORK_OBJECT"
    requires forall j :: 0 <= j < n && SameObject(values[j], values[n]) ==>
        values[j].observedAtUs < values[n].observedAtUs
    ensures IsNewest(values, n, n + 1)
  {
  }

  lemma BoxKeepsId(v: AabbInput)
    ensures NormalizedAabb(v).objectId == Text.Strip(v.objectId) && NormalizedAabb(v).observedAtUs == v.observedAtUs
  {
    hide Text.Strip, Corners;
  }

  // A box of another object stays the newest of its own.
  lemma OtherStays(boxes: seq<V.Aabb>, values: seq<AabbInput>, n: nat, k: nat)
    requires n < |values| && k < |boxes| && IsPublished(boxes[k], values, n)
    requires values[n].kind != "WORK_OBJECT" || boxes[k].objectId != Text.Strip(values[n].objectId)
             || values[n].observedAtUs <= boxes[k].observedAtUs
    ensures IsPublished(boxes[k], values, n + 1)
  {
    hide NormalizedAabb, Text.Strip, IsNewest;
    var i: nat :| i < n && IsNewest(values, i, n) && boxes[k] == NormalizedAabb(values[i]);
    BoxKeepsId(values[i]);
    NewestOfMore(values, i, n);
  }

  lemma NoneOlder(boxes: seq<V.Aabb>, values: seq<AabbInput>, n: nat, k: nat, j: nat)
    requires k < |boxes| && j < n <= |values| && IsPublished(boxes[k], values, n) && values[j].kind == "WORK_OBJECT"
    requires boxes[k].objectId == Text.Strip(values[j].objectId)
    ensures values[j].observedAtUs <= boxes[k].observedAtUs
  {
    hide NormalizedAabb, Text.Strip;
    var i: nat :| i < n && IsNewest(values, i, n) && boxes[k] == NormalizedAabb(values[i]);
    BoxKeepsId(values[i]);
  }

  lemma RememberIs(boxes: seq<V.Aabb>, box: V.Aabb) returns (k: nat)
    ensures k <= |boxes| && (forall j :: 0 <= j < k ==> boxes[j].objectId != box.objectId)
    ensures k == |boxes| ==> Remember(boxes, box) == boxes + [box]
    ensures k < |boxes| ==>
      && boxes[k].objectId == box.objectId
      && Remember(boxes, box) == if box.observedAtUs > boxes[k].observedAtUs then boxes[k := box] else boxes
  {
    k := IndexOf(boxes, box.objectId);
  }

  lemma HasBoxStays(boxes: seq<V.Aabb>, after: seq<V.Aabb>, objectId: string)
    requires HasBox(boxes, objectId) && |boxes| <= |after|
    requires forall k :: 0 <= k < |boxes| ==> after[k].objectId == boxes[k].objectId
    ensures HasBox(after, objectId)
  {
    var k :| 0 <= k < |boxes| && boxes[k].objectId == objectId;
    assert after[k].objectId == objectId;
  }

  lemma FirstBox(boxes: seq<V.Aabb>, values: seq<AabbInput>, n: nat)
    requires n < |values| && ArePublished(boxes, values, n) && values[n].kind == "WORK_OBJECT"
    requires forall j :: 0 <= j < |boxes| ==> boxes[j].objectId != Text.Strip(values[n].objectId)
    ensures IsNewest(values, n, n + 1)
  {
    hide Text.Strip, IsPublished, IsSeenBox, IsNewest;
    assert forall j :: 0 <= j < n && values[j].kind == "WORK_OBJECT" ==> HasBox(boxes, Text.Strip(values[j].objectId));
    assert !HasBox(boxes, Text.Strip(values[n].objectId));
    LastIsNewest(values, n);
  }

  lemma NewerBox(boxes: seq<V.Aabb>, values: seq<AabbInput>, n: nat, k: nat)
    requires n < |values| && ArePublished(boxes, values, n) && values[n].kind == "WORK_OBJECT" && k < |boxes|
    requires boxes[k].objectId == Text.Strip(values[n].objectId) && values[n].observedAtUs > boxes[k].observedAtUs
    ensures IsNewest(values, n, n + 1)
  {
    hide Text.Strip, IsPublished, IsSeenBox, IsNewest, HasBox;
    forall j | 0 <= j < n && SameObject(values[j], values[n])
      ensures values[j].observedAtUs < values[n].observedAtUs
    {
      NoneOlder(boxes, values, n, k, j);
    }
    LastIsNewest(values, n);
  }

  lemma NewIsPublished(values: seq<AabbInput>, n: nat)
    requires n < |values| && IsNewest(values, n, n + 1)
    ensures IsPublished(NormalizedAabb(values[n]), values, n + 1)
  {
    hide IsNewest, NormalizedAabb;
  }

  lemma OneBoxMore(boxes: seq<V.Aabb>, values: seq<AabbInput>, n: nat)
    requires n < |values| && ArePublished(boxes, values, n)
    requires values[n].kind == "WORK_OBJECT" && IsSeenBox(values[n])
    ensures ArePublished(Remember(boxes, NormalizedAabb(values[n])), values, n + 1)
  {
    hide Text.Strip, NormalizedAabb, IsNewest, IsSeenBox, Remember, HasBox, IsPublished;
    var box := NormalizedAabb(values[n]);
    BoxKeepsId(values[n]);
    var k := RememberIs(boxes, box);
    var after := Remember(boxes, box);
    forall m | 0 <= m < |after|
      ensures IsPublished(after[m], values, n + 1)
    {
      if m < |boxes| && after[m] == boxes[m] {
        OtherStays(boxes, values, n, m);
      } else if k == |boxes| {
        FirstBox(boxes, values, n);
        NewIsPublished(values, n);
      } else {
        NewerBox(boxes, values, n, k);
        NewIsPublished(values, n);
      }
    }
    forall i | 0 <= i < n + 1 && values[i].kind == "WORK_OBJECT"
      ensures IsSeenBox(values[i]) && HasBox(after, Text.Strip(values[i].objectId))
    {
      if i < n {
        HasBoxStays(boxes, after, Text.Strip(values[i].objectId));
      } else {
        ItsOwnBox(after, k, box.objectId);
      }
    }
  }

  lemma ItsOwnBox(boxes: seq<V.Aabb>, k: nat, objectId: string)
    requires k < |boxes| && boxes[k].objectId == objectId
    ensures HasBox(boxes, objectId)
  {
  }

  lemma OthersPublished(boxes: seq<V.Aabb>, values: seq<AabbInput>, n: nat)
    requires n < |values| && ArePublished(boxes, values, n) && values[n].kind != "WORK_OBJECT"
    ensures ArePublished(boxes, values, n + 1)
  {
    hide Text.Strip, IsSeenBox, HasBox, IsPublished;
    forall m | 0 <= m < |boxes|
      ensures IsPublished(boxes[m], values, n + 1)
    {
      OtherStays(boxes, values, n, m);
    }
  }

  /** The boxes taken from the first `n` supplied are refused exactly when one of a work object cannot be published, and
      are otherwise the newest of each work object. */
  lemma {:induction false} CollectedAre(values: seq<AabbInput>, n: nat)
    requires n <= |values|
    ensures CollectAabbs(values[..n]).Err? <==>
            exists i :: 0 <= i < n && values[i].kind == "WORK_OBJECT" && !IsSeenBox(values[i])
    ensures CollectAabbs(values[..n]).Ok? ==> ArePublished(CollectAabbs(values[..n]).value, values, n)
    decreases n
  {
    hide Text.Strip, NormalizedAabb, IsSeenBox, Remember, ArePublished, IsProperAabb;
    if n == 0 {
      NoBoxes(values);
    } else {
      var m := n - 1;
      assert values[..n][..m] == values[..m];
      CollectedAre(values, m);
      if values[m].kind == "WORK_OBJECT" {
        ProperIsSeen(values[m]);
      }
      if CollectAabbs(values[..m]).Ok? {
        if values[m].kind != "WORK_OBJECT" {
          OthersPublished(CollectAabbs(values[..m]).value, values, m);
        } else if IsSeenBox(values[m]) {
          OneBoxMore(CollectAabbs(values[..m]).value, values, m);
        }
      }
    }
  }

  lemma NoBoxes(values: seq<AabbInput>)
    ensures ArePublished([], values, 0)
  {
  }

  /** The box is the newest of its work object, as it was supplied. */
  ghost predicate IsNewestBox(box: V.Aabb, values: seq<AabbInput>) {
    exists i: nat :: i < |values| && IsNewest(values, i, |values|) && IsPublishedAs(box, values[i])
  }

  predicate IsPublishedAs(box: V.Aabb, v: AabbInput) {
    box == NormalizedAabb(v) && IsBoxOf(box, v)
  }

  lemma BoxIsAsSeen(v: AabbInput)
    ensures IsPublishedAs(NormalizedAabb(v), v)
  {
    hide Text.Strip, Corners;
  }

  lemma OneNewest(values: seq<AabbInput>, i: nat, j: nat, n: nat)
    requires i < n <= |values| && j < n && IsNewest(values, i, n) && IsNewest(values, j, n)
    requires Text.Strip(values[i].objectId) == Text.Strip(values[j].objectId)
    ensures i == j
  {
    hide Text.Strip;
    assert SameObject(values[i], values[j]) && SameObject(values[j], values[i]);
  }

  /** The boxes of a scene are, for every work object, the newest supplied and of these the first; every box of a work
      object was fit to be published. */
  lemma SceneBoxesAre(b: Built, r: SceneRequest, box: V.Aabb)
    requires IsBuiltFor(b, r)
    ensures box in b.aabbs <==> IsNewestBox(box, r.aabbs)
    ensures forall k, l :: 0 <= k < l < |b.aabbs| ==> b.aabbs[k].objectId != b.aabbs[l].objectId
    ensures forall v :: v in r.aabbs && v.kind == "WORK_OBJECT" ==> IsSeenBox(v)
  {
    BuiltHasObjects(b, r);
    CollectedAre(r.aabbs, |r.aabbs|);
    hide *;
    assert r.aabbs[..|r.aabbs|] == r.aabbs;
    PublishedAre(b.aabbs, r.aabbs, box);
  }

  lemma PublishedAre(boxes: seq<V.Aabb>, values: seq<AabbInput>, box: V.Aabb)
    requires ArePublished(boxes, values, |values|)
    ensures box in boxes <==> IsNewestBox(box, values)
    ensures forall k, l :: 0 <= k < l < |boxes| ==> boxes[k].objectId != boxes[l].objectId
    ensures forall v :: v in values && v.kind == "WORK_OBJECT" ==> IsSeenBox(v)
  {
    hide NormalizedAabb, Text.Strip, IsNewest, IsSeenBox;
    var n := |values|;
    if box in boxes {
      var k :| 0 <= k < |boxes| && boxes[k] == box;
      assert IsPublished(boxes[k], values, n);
      var i: nat :| i < n && IsNewest(values, i, n) && box == NormalizedAabb(values[i]);
      BoxIsAsSeen(values[i]);
    }
    if i: nat :| i < n && IsNewest(values, i, n) && IsPublishedAs(box, values[i]) {
      NewestIsWork(values, i, n);
      assert HasBox(boxes, Text.Strip(values[i].objectId));
      var k :| 0 <= k < |boxes| && boxes[k].objectId == Text.Strip(values[i].objectId);
      assert IsPublished(boxes[k], values, n);
      var j: nat :| j < n && IsNewest(values, j, n) && boxes[k] == NormalizedAabb(values[j]);
      BoxKeepsId(values[j]);
      OneNewest(values, i, j, n);
    }
  }

  lemma NewestIsWork(values: seq<AabbInput>, i: nat, n: nat)
    requires i < n <= |values| && IsNewest(values, i, n)
    ensures values[i].kind == "WORK_OBJECT"
  {
  }

  // ----- the scene as a whole

  /** What a scene says of its request beside its contents: a robot was given wherever points were, the revision is
      the one supplied or one made of the content, and the gripper's layer takes at most three quarters of the room,
      or one sphere. */
  lemma SceneIsAsAsked(b: Built, r: SceneRequest)
    requires IsBuiltFor(b, r)
    ensures (exists p :: p in r.points && Dist2(p, ZERO) <= Squared(1.2)) ==>
      && Text.Strip(r.selfFilterRevision) != "" && r.selfSpheres != []
      && forall s :: s in r.selfSpheres ==> s.radius > 0.0
    ensures r.projection.Some? ==> r.projection.value.valid && b.angularOrigin == r.projection.value.origin
    ensures r.projection.None? ==> b.angularOrigin == r.gripperCenter
    ensures b.gripperCenter == r.gripperCenter
    ensures b.revision == if Text.Strip(r.sceneRevision) != "" then Text.Strip(r.sceneRevision)
                          else "scene-" + r.contentToken
    ensures |b.objects| + |b.gripperSpheres| + |b.baseSpheres| <= r.maximumSpheres
    ensures 4 * |b.gripperSpheres| <= 3 * (r.maximumSpheres - |b.objects|) || |b.gripperSpheres| <= 1
    ensures !r.publishUnclaimed ==> b.gripperSpheres == b.baseSpheres == []
  {
    hide InBase, NormalizeAll, Retained, CollectAabbs, RemainingPoints, NearPoints, IsVoxelLayerAt, HasDistinctIds,
         Text.Strip, Dist2, Squared;
    if p :| p in r.points && Dist2(p, ZERO) <= Squared(1.2) {
      SeenInBase(r.points, p);
    }
  }

  lemma SeenInBase(points: seq<Vec3>, p: Vec3)
    requires p in points && Dist2(p, ZERO) <= Squared(1.2)
    ensures InBase(points) != []
  {
    hide Dist2, Squared, InBase;
    InBaseAre(points, p);
    assert multiset(InBase(points))[p] > 0;
  }
}
